/** The wrap-around field iterator of `pb_common.c` over packed descriptors. */
module FieldIterator {
  import opened FieldInfo

  datatype FieldDesc = FieldDesc(info: Info, format: Format)

  // ------------------------------------------------------------------
  // A message's descriptors
  // ------------------------------------------------------------------

  function AllWords(fs: seq<FieldDesc>): seq<nat> {
    if fs == [] then [] else AllWords(fs[..|fs| - 1]) + Pack(fs[|fs| - 1].info, fs[|fs| - 1].format)
  }

  const LTYPE_SUBMESSAGE := 8
  const LTYPE_SUBMSG_W_CB := 9
  const LTYPE_EXTENSION := 10

  predicate IsRequired(kind: nat) {
    kind / 16 % 4 == 0
  }

  predicate IsSubmsg(kind: nat) {
    kind % 16 == LTYPE_SUBMESSAGE || kind % 16 == LTYPE_SUBMSG_W_CB
  }

  predicate IsExtension(kind: nat) {
    kind % 16 == LTYPE_EXTENSION
  }

  /** Words, required fields and submessage fields before field `k`. */
  function WordsBefore(fs: seq<FieldDesc>, k: nat): nat
    requires k <= |fs|
  {
    if k == 0 then 0 else WordsBefore(fs, k - 1) + Words(fs[k - 1].format)
  }

  function RequiredBefore(fs: seq<FieldDesc>, k: nat): nat
    requires k <= |fs|
  {
    if k == 0 then 0 else RequiredBefore(fs, k - 1) + if IsRequired(fs[k - 1].info.kind) then 1 else 0
  }

  function SubmsgsBefore(fs: seq<FieldDesc>, k: nat): nat
    requires k <= |fs|
  {
    if k == 0 then 0 else SubmsgsBefore(fs, k - 1) + if IsSubmsg(fs[k - 1].info.kind) then 1 else 0
  }

  lemma {:induction false} WordsBeforeFront(fs: seq<FieldDesc>, k: nat)
    requires k < |fs|
    ensures WordsBefore(fs[..|fs| - 1], k) == WordsBefore(fs, k)
  {
    if k > 0 {
      WordsBeforeFront(fs, k - 1);
    }
  }

  lemma {:induction false} AllWordsLength(fs: seq<FieldDesc>)
    ensures |AllWords(fs)| == WordsBefore(fs, |fs|)
  {
    if fs != [] {
      AllWordsLength(fs[..|fs| - 1]);
      WordsBeforeFront(fs, |fs| - 1);
    }
  }

  /** Where field `k` lies in the words, whatever formats the fields before it have. */
  lemma {:induction false} WordsOfField(fs: seq<FieldDesc>, k: nat) returns (rest: seq<nat>)
    requires k < |fs|
    ensures WordsBefore(fs, k) < |AllWords(fs)|
    ensures AllWords(fs)[WordsBefore(fs, k)..] == Pack(fs[k].info, fs[k].format) + rest
    decreases |fs|
  {
    AllWordsLength(fs[..|fs| - 1]);
    WordsBeforeFront(fs, k);
    if k == |fs| - 1 {
      rest := [];
    } else {
      var r := WordsOfField(fs[..|fs| - 1], k);
      rest := WordsAppend(fs, k, r);
    }
  }

  /** One more field behind does not move the words of those before it. */
  lemma {:induction false} WordsAppend(fs: seq<FieldDesc>, k: nat, r: seq<nat>) returns (rest: seq<nat>)
    requires k < |fs| - 1 && WordsBefore(fs, k) < |AllWords(fs[..|fs| - 1])|
    requires AllWords(fs[..|fs| - 1])[WordsBefore(fs, k)..] == Pack(fs[k].info, fs[k].format) + r
    ensures WordsBefore(fs, k) < |AllWords(fs)|
    ensures AllWords(fs)[WordsBefore(fs, k)..] == Pack(fs[k].info, fs[k].format) + rest
  {
    var last := Pack(fs[|fs| - 1].info, fs[|fs| - 1].format);
    rest := r + last;
    SliceConcat(AllWords(fs[..|fs| - 1]), last, WordsBefore(fs, k));
    assert Pack(fs[k].info, fs[k].format) + r + last == Pack(fs[k].info, fs[k].format) + (r + last);
  }

  lemma {:induction false} SliceConcat(a: seq<nat>, b: seq<nat>, i: nat)
    requires i <= |a|
    ensures (a + b)[i..] == a[i..] + b
  {
  }

  /** Descriptors as the generator emits them: each passes its assertion, tags increase. */
  ghost predicate Good(fs: seq<FieldDesc>) {
    && fs != []
    && (forall k :: 0 <= k < |fs| ==> Fits(fs[k].info, fs[k].format))
    && (forall i, j :: 0 <= i < j < |fs| ==> fs[i].info.tag < fs[j].info.tag)
  }

  /** The field a linear search finds: the one with this tag that is not an extension range. */
  ghost predicate Matches(f: FieldDesc, tag: nat) {
    f.info.tag == tag && !IsExtension(f.info.kind)
  }

  /** Fields a search has looked at after `steps` rounds from `start`, now standing at `at`. A
      search for a smaller tag begins behind the last field, so that it comes to field 0 next. */
  ghost predicate Searched(fs: seq<FieldDesc>, start: nat, reset: bool, steps: nat, at: nat, tag: nat)
    requires start < |fs|
  {
    if reset then
      && steps <= start + 1 && at == (if steps == 0 then |fs| else steps - 1)
      && forall i :: 0 <= i < steps ==> !Matches(fs[i], tag)
    else
      && steps <= |fs| && at == (if start + steps < |fs| then start + steps else start + steps - |fs|)
      && (forall i :: start < i < |fs| && i <= start + steps ==> !Matches(fs[i], tag))
      && (forall i :: 0 <= i <= start + steps - |fs| && i <= start ==> !Matches(fs[i], tag))
  }

  lemma {:induction false} SearchedMore(fs: seq<FieldDesc>, start: nat, reset: bool, steps: nat, before: nat, at: nat, tag: nat)
    requires start < |fs| && Searched(fs, start, reset, steps, before, tag) && (steps == 0 || before != start)
    requires at == (if before + 1 < |fs| then before + 1 else 0) && !Matches(fs[at], tag)
    ensures Searched(fs, start, reset, steps + 1, at, tag)
  {
  }

  /** Back at the start, everything has been looked at that could match. */
  lemma {:induction false} NothingElse(fs: seq<FieldDesc>, start: nat, reset: bool, steps: nat, tag: nat)
    requires Good(fs) && start < |fs| && Searched(fs, start, reset, steps, start, tag) && steps > 0
    requires reset ==> tag < fs[start].info.tag
    ensures forall i :: 0 <= i < |fs| ==> !Matches(fs[i], tag)
  {
    forall i | 0 <= i < |fs| ensures !Matches(fs[i], tag) {
      if reset && i > start {
        assert fs[start].info.tag < fs[i].info.tag;
      }
    }
  }

  class Iterator {
    const words: seq<nat>
    const fieldCount: nat
    const largestTag: nat
    ghost const fields: seq<FieldDesc>
    var index: nat
    var fieldInfoIndex: nat
    var submessageIndex: nat
    var requiredFieldIndex: nat
    var loaded: Info

    /** The descriptor is the packed form of `fields`. */
    ghost predicate Described() {
      && Good(fields) && words == AllWords(fields) && fieldCount == |fields|
      && largestTag == fields[|fields| - 1].info.tag
    }

    /** The index counters agree with the prefix counts. */
    ghost predicate Positioned()
      requires Described()
      reads this
    {
      && index < |fields|
      && fieldInfoIndex == WordsBefore(fields, index)
      && requiredFieldIndex == RequiredBefore(fields, index)
      && submessageIndex == SubmsgsBefore(fields, index)
    }

    /** The loaded values are those of the current field. */
    ghost predicate Valid()
      reads this
    {
      Described() && Positioned() && loaded == Reloaded(fields[index].info, fields[index].format)
    }

    /** `pb_field_iter_begin` on a message that has fields. */
    constructor (ghost fields: seq<FieldDesc>, words: seq<nat>, fieldCount: nat, largestTag: nat)
      requires Good(fields) && words == AllWords(fields) && fieldCount == |fields|
      requires largestTag == fields[|fields| - 1].info.tag
      ensures Valid() && index == 0 && this.fields == fields
    {
      this.words, this.fieldCount, this.largestTag, this.fields := words, fieldCount, largestTag, fields;
      index, fieldInfoIndex, submessageIndex, requiredFieldIndex := 0, 0, 0, 0;
      loaded := Info(0, 0, 0, 0, 0, 0);
      new;
      var ok := LoadDescriptorValues();
    }

    lemma {:induction false} AtField()
      requires Described() && Positioned()
      ensures fieldInfoIndex < |words|
      ensures Describes(words[fieldInfoIndex..], fields[index].info, fields[index].format)
    {
      var rest := WordsOfField(fields, index);
      PackedDescribes(fields[index].info, fields[index].format, rest);
    }

    /** `load_descriptor_values`. */
    method LoadDescriptorValues() returns (ok: bool)
      requires Described() && (index < fieldCount ==> Positioned())
      modifies this`loaded
      ensures ok <==> index < fieldCount
      ensures ok ==> Valid()
      ensures !ok ==> loaded == old(loaded)
    {
      if index >= fieldCount {
        return false;
      }
      AtField();
      loaded := Load(words[fieldInfoIndex..]);
      return true;
    }

    /** `advance_iterator`: one field on, or back to the first from the last or from behind it. */
    method AdvanceIterator()
      requires Described() && (index < fieldCount ==> Positioned())
      modifies this`index, this`fieldInfoIndex, this`submessageIndex, this`requiredFieldIndex
      ensures Positioned()
      ensures index == if old(index) + 1 < fieldCount then old(index) + 1 else 0
    {
      if index < fieldCount {
        AtField();
      }
      index := index + 1;
      if index >= fieldCount {
        index, fieldInfoIndex, submessageIndex, requiredFieldIndex := 0, 0, 0, 0;
      } else {
        var prev := words[fieldInfoIndex];
        var prevType := Kind(prev);
        fieldInfoIndex := fieldInfoIndex + Words(FormatOf(prev));
        requiredFieldIndex := requiredFieldIndex + if IsRequired(prevType) then 1 else 0;
        submessageIndex := submessageIndex + if IsSubmsg(prevType) then 1 else 0;
      }
    }

    /** `pb_field_iter_next`. */
    method Next() returns (more: bool)
      requires Valid()
      modifies this
      ensures Valid() && index == (if old(index) + 1 < fieldCount then old(index) + 1 else 0)
      ensures more <==> index != 0
    {
      AdvanceIterator();
      var ok := LoadDescriptorValues();
      more := index != 0;
    }

    /** One look at the field the iterator has advanced to: first the low tag bits, and only
        then the full values. */
    method CheckTag(tag: nat) returns (found: bool)
      requires Described() && Positioned()
      modifies this`loaded
      ensures found <==> Matches(fields[index], tag)
      ensures found ==> Valid()
    {
      AtField();
      found := false;
      if TagBits(words[fieldInfoIndex]) == tag % 64 {
        var ok := LoadDescriptorValues();
        found := loaded.tag == tag && !IsExtension(loaded.kind);
      }
    }

    /** `pb_field_iter_find`. Unless it stands on a field with that tag already, it agrees with a
        linear search for a field that is not an extension range, takes at most `fieldCount`
        steps, and is back where it was when there is none. */
    method Find(tag: nat) returns (found: bool, ghost steps: nat)
      requires Valid()
      modifies this
      ensures Valid() && steps <= fieldCount
      ensures old(loaded.tag) == tag ==> found && index == old(index)
      ensures old(loaded.tag) != tag ==> (found <==> exists i :: 0 <= i < |fields| && Matches(fields[i], tag))
      ensures old(loaded.tag) != tag && found ==> Matches(fields[index], tag)
      ensures !found ==> index == old(index) && loaded == old(loaded)
    {
      steps := 0;
      if loaded.tag == tag {
        return true, steps;
      }
      if tag > largestTag {
        return false, steps;
      }
      var start := index;
      ghost var reset := tag < loaded.tag;
      if tag < loaded.tag {
        index := fieldCount;
      }
      var more := true;
      while more
        invariant start < fieldCount && Described() && (index < fieldCount ==> Positioned())
        invariant Searched(fields, start, reset, steps, index, tag)
        invariant more <==> steps == 0 || index != start
        decreases more, fieldCount - steps
      {
        ghost var before := index;
        AdvanceIterator();
        found := CheckTag(tag);
        steps := steps + 1;
        if found {
          return;
        }
        SearchedMore(fields, start, reset, steps - 1, before, index, tag);
        more := index != start;
      }
      NothingElse(fields, start, reset, steps, tag);
      var ok := LoadDescriptorValues();
      return false, steps;
    }

    /** `pb_field_iter_find_extension`. */
    method FindExtension() returns (found: bool)
      requires Valid()
      modifies this
      ensures Valid()
      ensures found <==> exists i :: 0 <= i < |fields| && IsExtension(fields[i].info.kind)
      ensures found ==> IsExtension(fields[index].info.kind)
      ensures !found ==> index == old(index) && loaded == old(loaded)
    {
      if IsExtension(loaded.kind) {
        return true;
      }
      var start := index;
      ghost var steps := 0;
      var more := true;
      while more
        invariant start < fieldCount && Described() && Positioned() && 0 <= steps <= fieldCount
        invariant index == if start + steps < fieldCount then start + steps else start + steps - fieldCount
        invariant forall i :: start < i < fieldCount && i <= start + steps ==> !IsExtension(fields[i].info.kind)
        invariant forall i :: 0 <= i <= start + steps - fieldCount ==> !IsExtension(fields[i].info.kind)
        invariant more <==> steps == 0 || index != start
        decreases more, fieldCount - steps
      {
        AdvanceIterator();
        AtField();
        steps := steps + 1;
        if IsExtension(Kind(words[fieldInfoIndex])) {
          found := LoadDescriptorValues();
          return;
        }
        more := index != start;
      }
      var ok := LoadDescriptorValues();
      return false;
    }
  }

  /** Standing on an extension range, a search for its tag ends there at once although no field
      matches. */
  method FindOnExtension(it: Iterator) returns (found: bool)
    requires it.Valid() && IsExtension(it.loaded.kind)
    modifies it
    ensures found && it.Valid() && it.index == old(it.index)
    ensures forall i :: 0 <= i < |it.fields| ==> !Matches(it.fields[i], old(it.loaded.tag))
  {
    var tag := it.loaded.tag;
    ghost var steps;
    found, steps := it.Find(tag);
    forall i | 0 <= i < |it.fields| ensures !Matches(it.fields[i], tag) {
      if i < it.index {
        assert it.fields[i].info.tag < it.fields[it.index].info.tag;
      } else if it.index < i {
        assert it.fields[it.index].info.tag < it.fields[i].info.tag;
      }
    }
  }
}
