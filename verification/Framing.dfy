/** The wire format can be cut into fields without a descriptor, and the decoder respects
    those cuts: this gives forward compatibility and the meaning of the required-field check. */
module Framing {
  import opened Wire
  import opened Varint
  import opened Schema
  import opened Encoding
  import opened Decoding

  /** Length of the field at the front of `s`, tag included. */
  function FieldLen(s: seq<byte>): (n: Option<nat>)
    ensures n.Some? ==> 1 <= n.value <= |s|
  {
    match Parse32(s)
    case Bad => None
    case Got(key, n) =>
      if key < 8 then None
      else
        match Skip(key % 8, s[n..])
        case None => None
        case Some(k) => Some(n + k)
  }

  /** `s` is a sequence of whole fields. */
  predicate Framed(s: seq<byte>)
    decreases |s|
  {
    s == [] || (FieldLen(s).Some? && Framed(s[FieldLen(s).value..]))
  }

  function TagOf(s: seq<byte>): nat
    requires FieldLen(s).Some?
  {
    Parse32(s).value / 8
  }

  /** Tags of the fields of `s`, at this level. */
  function Tags(s: seq<byte>): set<nat>
    requires Framed(s)
    decreases |s|
  {
    if s == [] then {} else {TagOf(s)} + Tags(s[FieldLen(s).value..])
  }

  /** A single well-formed field. */
  predicate OneField(s: seq<byte>) {
    FieldLen(s) == Some(|s|)
  }

  predicate UnknownField(d: Desc, s: seq<byte>) {
    OneField(s) && FindField(d, TagOf(s)) < 0
  }

  // ------------------------------------------------------------------
  // Reading looks at no byte past the field
  // ------------------------------------------------------------------

  lemma {:induction false} Parse64Local(p: seq<byte>, x: seq<byte>, k: nat)
    requires k <= 9 && SkipVarint(p) == Some(|p|)
    ensures Parse64From(p + x, k) == Parse64From(p, k)
    decreases |p|
  {
    if p[0] >= 128 && k < 9 {
      Parse64Local(p[1..], x, k + 1);
      assert (p + x)[1..] == p[1..] + x;
    }
  }

  lemma {:induction false} Parse32FromLocal(p: seq<byte>, x: seq<byte>, k: nat, r: nat)
    requires k >= 1 && SkipVarint(p) == Some(|p|)
    ensures Parse32From(p + x, k, r) == Parse32From(p, k, r)
    decreases |p|
  {
    if p[0] >= 128 && Next32(p[0], k, r).Some? {
      Parse32FromLocal(p[1..], x, k + 1, Next32(p[0], k, r).value);
      assert (p + x)[1..] == p[1..] + x;
    }
  }

  lemma {:induction false} Parse32Local(p: seq<byte>, x: seq<byte>)
    requires SkipVarint(p) == Some(|p|)
    ensures Parse32(p + x) == Parse32(p)
  {
    if p[0] >= 128 {
      assert SkipVarint(p[1..]) == Some(|p[1..]|);
      Parse32FromLocal(p[1..], x, 1, p[0] - 128);
      assert (p + x)[1..] == p[1..] + x;
    }
  }

  lemma {:induction false} SkipVarintLocal(p: seq<byte>, x: seq<byte>)
    requires SkipVarint(p).Some?
    ensures SkipVarint(p + x) == SkipVarint(p)
  {
    if p[0] >= 128 {
      SkipVarintLocal(p[1..], x);
      assert (p + x)[1..] == p[1..] + x;
    }
  }

  /** A value that reads takes exactly the bytes up to its terminating group. */
  lemma {:induction false} Parse64Frame(s: seq<byte>, k: nat)
    requires k <= 9 && Parse64From(s, k).Got?
    ensures SkipVarint(s) == Some(Parse64From(s, k).used)
    decreases |s|
  {
    if s[0] >= 128 {
      Parse64Frame(s[1..], k + 1);
    }
  }

  lemma {:induction false} Parse32Frame(s: seq<byte>)
    requires Parse32(s).Got?
    ensures SkipVarint(s) == Some(Parse32(s).used)
  {
    Parse32RefinesParse64(s);
    Parse64Frame(s, 0);
  }

  lemma {:induction false} SkipVarintPrefix(s: seq<byte>, n: nat)
    requires SkipVarint(s) == Some(n)
    ensures SkipVarint(s[..n]) == Some(n)
    decreases |s|
  {
    if s[0] >= 128 {
      SkipVarintPrefix(s[1..], n - 1);
      assert s[..n][1..] == s[1..][..n - 1];
    }
  }

  lemma {:induction false} Parse32Extend(s: seq<byte>, x: seq<byte>)
    requires Parse32(s).Got?
    ensures Parse32(s + x) == Parse32(s)
  {
    Parse32Frame(s);
    var n := Parse32(s).used;
    SkipVarintPrefix(s, n);
    Parse32Local(s[..n], s[n..]);
    Parse32Local(s[..n], s[n..] + x);
    assert s[..n] + s[n..] == s;
    assert s[..n] + (s[n..] + x) == s + x;
  }

  lemma {:induction false} DelimitedExtend(s: seq<byte>, x: seq<byte>)
    requires Delimited(s).Extent?
    ensures Delimited(s + x) == Delimited(s)
  {
    Parse32Extend(s, x);
  }

  lemma {:induction false} SkipExtend(wt: nat, s: seq<byte>, x: seq<byte>)
    requires Skip(wt, s).Some?
    ensures Skip(wt, s + x) == Skip(wt, s)
  {
    if wt == WT_VARINT {
      SkipVarintLocal(s, x);
    } else if wt == WT_STRING {
      DelimitedExtend(s, x);
    }
  }

  lemma {:induction false} LittleEndianLocal(p: seq<byte>, x: seq<byte>, n: nat)
    requires n <= |p|
    ensures FromLittleEndian(p + x, n) == FromLittleEndian(p, n)
  {
    if n > 0 {
      LittleEndianLocal(p[1..], x, n - 1);
      assert (p + x)[1..] == p[1..] + x;
    }
  }

  lemma {:induction false} ValueLocal(t: LType, base: Value, p: seq<byte>, x: seq<byte>)
    requires WellFormedType(t) && GoodBase(t, base) && Skip(WireType(t), p) == Some(|p|)
    ensures DecodeValue(t, base, p + x) == DecodeValue(t, base, p)
  {
    if WireType(t) == WT_VARINT {
      Parse64Local(p, x, 0);
      Parse32Local(p, x);
    } else if WireType(t) == WT_STRING {
      DelimitedExtend(p, x);
      var e := Delimited(p);
      assert (p + x)[e.start..e.end] == p[e.start..e.end];
    } else {
      LittleEndianLocal(p, x, |p|);
    }
  }

  lemma {:induction false} FieldLocal(d: Desc, i: nat, wt: nat, p: seq<byte>, x: seq<byte>, st: State)
    requires GoodState(d, st) && i < |d.fields| && Skip(wt, p) == Some(|p|)
    ensures DecodeField(d, i, wt, p + x, st) == DecodeField(d, i, wt, p, st)
  {
    var f := d.fields[i];
    assert WellFormedField(f, d.unions) && FitsSlot(f, st.slots[i]) && FitsUnion(f, st.unions);
    if f.htype.IsArray() {
      var vs := st.slots[i].vs;
      if wt == WT_STRING && f.ltype.Packable() {
        DelimitedExtend(p, x);
        var e := Delimited(p);
        assert (p + x)[e.start..e.end] == p[e.start..e.end];
      } else if wt == WireType(f.ltype) && ArraySize(d, i, st).Some? {
        ValueLocal(f.ltype, EntryBase(f.ltype, vs, ArraySize(d, i, st).value), p, x);
      }
    } else if wt == WireType(f.ltype) {
      if f.htype.Oneof? {
        ValueLocal(f.ltype, MemberBase(f, st.unions[f.htype.union]), p, x);
      } else {
        assert FitsType(f.ltype, st.slots[i].v);
        ValueLocal(f.ltype, st.slots[i].v, p, x);
      }
    }
  }

  lemma {:induction false} StepLocal(d: Desc, u: seq<byte>, x: seq<byte>, st: State)
    requires GoodState(d, st) && OneField(u)
    ensures Step(d, u + x, st) == Step(d, u, st)
  {
    var Got(key, n) := Parse32(u);
    Parse32Extend(u, x);
    assert (u + x)[n..] == u[n..] + x;
    SkipExtend(key % 8, u[n..], x);
    var i := FindField(d, key / 8);
    if i >= 0 {
      FieldLocal(d, i, key % 8, u[n..], x, st);
    }
  }

  // ------------------------------------------------------------------
  // A field the decoder takes is a field of the wire format
  // ------------------------------------------------------------------

  lemma {:induction false} ValueFrame(t: LType, base: Value, s: seq<byte>)
    requires WellFormedType(t) && GoodBase(t, base) && DecodeValue(t, base, s).Ok?
    ensures Skip(WireType(t), s) == Some(DecodeValue(t, base, s).used)
  {
    if t.Bool? {
      Parse32Frame(s);
    } else if WireType(t) == WT_VARINT {
      Parse64Frame(s, 0);
    }
  }

  lemma {:induction false} FieldFrame(d: Desc, i: nat, wt: nat, s: seq<byte>, st: State)
    requires GoodState(d, st) && i < |d.fields| && DecodeField(d, i, wt, s, st).Next?
    ensures Skip(wt, s) == Some(DecodeField(d, i, wt, s, st).used)
  {
    var f := d.fields[i];
    assert WellFormedField(f, d.unions) && FitsSlot(f, st.slots[i]) && FitsUnion(f, st.unions);
    if f.htype.IsArray() {
      if !(wt == WT_STRING && f.ltype.Packable()) {
        ValueFrame(f.ltype, EntryBase(f.ltype, st.slots[i].vs, ArraySize(d, i, st).value), s);
      }
    } else if f.htype.Oneof? {
      ValueFrame(f.ltype, MemberBase(f, st.unions[f.htype.union]), s);
    } else {
      assert FitsType(f.ltype, st.slots[i].v);
      ValueFrame(f.ltype, st.slots[i].v, s);
    }
  }

  /** Known or unknown, a field advances the stream by its wire-format length. */
  lemma {:induction false} StepFrame(d: Desc, s: seq<byte>, st: State)
    requires GoodState(d, st) && Step(d, s, st).Next?
    ensures FieldLen(s) == Some(Step(d, s, st).used)
  {
    var Got(key, n) := Parse32(s);
    var i := FindField(d, key / 8);
    if i >= 0 {
      FieldFrame(d, i, key % 8, s[n..], st);
    }
  }

  lemma {:induction false} RunFramed(d: Desc, s: seq<byte>, st: State)
    requires GoodState(d, st) && Run(d, s, st).Some?
    ensures Framed(s)
    decreases |s|
  {
    if s != [] {
      StepFrame(d, s, st);
      var Next(st', n) := Step(d, s, st);
      RunFramed(d, s[n..], st');
    }
  }

  /** Every accepted message is a sequence of whole fields. */
  lemma {:induction false} AcceptedIsFramed(d: Desc, s: seq<byte>, mem: Value)
    requires WellFormed(d) && Shaped(d, mem) && Decode(d, s, mem).Some?
    ensures Framed(s)
  {
    ToDefaultsShaped(d, mem);
    var base := ToDefaults(d, mem);
    StartGood(d, base);
    RunFramed(d, s, Start(base));
  }

  /** A varint is read alike from every beginning of the bytes that holds it. */
  lemma {:induction false} Parse32Prefix(s: seq<byte>, n: nat)
    requires Parse32(s).Got? && Parse32(s).used <= n <= |s|
    ensures Parse32(s[..n]) == Parse32(s)
  {
    var k := Parse32(s).used;
    Parse32Frame(s);
    SkipVarintPrefix(s, k);
    Parse32Local(s[..k], s[k..]);
    Parse32Local(s[..k], s[k..n]);
    assert s[..k] + s[k..] == s;
    assert s[..k] + s[k..n] == s[..n];
  }

  lemma {:induction false} DelimitedPrefix(s: seq<byte>, n: nat)
    requires Delimited(s).Extent? && Delimited(s).end == n
    ensures Delimited(s[..n]) == Delimited(s)
  {
    Parse32Prefix(s, n);
  }

  lemma {:induction false} PayloadPrefix(wt: nat, s: seq<byte>, n: nat)
    requires Skip(wt, s) == Some(n)
    ensures Skip(wt, s[..n]) == Some(n)
  {
    if wt == WT_VARINT {
      SkipVarintPrefix(s, n);
    } else if wt == WT_STRING {
      DelimitedPrefix(s, n);
    }
  }

  lemma {:induction false} FieldLenPrefix(s: seq<byte>, n: nat)
    requires FieldLen(s) == Some(n)
    ensures OneField(s[..n])
  {
    var Got(key, k) := Parse32(s);
    Parse32Prefix(s, n);
    PayloadPrefix(key % 8, s[k..], n - k);
    assert s[k..][..n - k] == s[..n][k..];
  }

  /** The decoder is a fold over the fields: whole fields can be split off. */
  lemma {:induction false} RunConcat(d: Desc, a: seq<byte>, x: seq<byte>, st: State)
    requires GoodState(d, st) && Framed(a)
    ensures Run(d, a + x, st) == match Run(d, a, st) case None => None case Some(st') => Run(d, x, st')
    decreases |a|
  {
    if a == [] {
      assert a + x == x;
    } else {
      var n := FieldLen(a).value;
      FieldLenPrefix(a, n);
      var u, a' := a[..n], a[n..];
      assert a == u + a' && a + x == u + (a' + x);
      StepLocal(d, u, a', st);
      StepLocal(d, u, a' + x, st);
      match Step(d, a, st) {
        case Stuck =>
        case Next(st', k) =>
          StepFrame(d, a, st);
          RunConcat(d, a', x, st');
          assert (a + x)[n..] == a' + x;
      }
    }
  }

  lemma {:induction false} UnknownFieldSkipped(d: Desc, u: seq<byte>, x: seq<byte>, st: State)
    requires GoodState(d, st) && UnknownField(d, u)
    ensures Run(d, u + x, st) == Run(d, x, st)
  {
    StepLocal(d, u, x, st);
    assert (u + x)[|u|..] == x;
  }

  /** Forward compatibility. Put any well-formed field with a tag the descriptor does not know
      at any field boundary: between any two fields, between entries of an unpacked array of
      fixed count too. Whatever memory it goes to, what decodes, decodes to the same struct; what
      fails, still fails. */
  lemma {:induction false} InsertUnknown(d: Desc, a: seq<byte>, u: seq<byte>, b: seq<byte>, base: Value)
    requires WellFormed(d) && Shaped(d, base)
    requires Framed(a) && UnknownField(d, u)
    ensures DecodeMsg(d, a + u + b, base) == DecodeMsg(d, a + b, base)
  {
    StartGood(d, base);
    var st := Start(base);
    assert a + u + b == a + (u + b);
    RunConcat(d, a, u + b, st);
    RunConcat(d, a, b, st);
    if Run(d, a, st).Some? {
      UnknownFieldSkipped(d, u, b, Run(d, a, st).value);
    }
  }

  lemma {:induction false} ForwardCompatible(d: Desc, a: seq<byte>, u: seq<byte>, b: seq<byte>, mem: Value)
    requires WellFormed(d) && Shaped(d, mem)
    requires Framed(a) && UnknownField(d, u)
    ensures Decode(d, a + u + b, mem) == Decode(d, a + b, mem)
  {
    ToDefaultsShaped(d, mem);
    InsertUnknown(d, a, u, b, ToDefaults(d, mem));
  }

  // ------------------------------------------------------------------
  // Required fields
  // ------------------------------------------------------------------

  /** Indices of the required fields whose tag is in `ts`. */
  function RequiredAmong(d: Desc, ts: set<nat>): set<nat> {
    set i | 0 <= i < |d.fields| && d.fields[i].htype.Required? && d.fields[i].tag in ts
  }

  lemma {:induction false} StepSees(d: Desc, s: seq<byte>, st: State)
    requires GoodState(d, st) && Step(d, s, st).Next?
    ensures FieldLen(s).Some? && Step(d, s, st).st.seen == st.seen + RequiredAmong(d, {TagOf(s)})
  {
    StepFrame(d, s, st);
    var Got(key, n) := Parse32(s);
    var i := FindField(d, key / 8);
    if i >= 0 {
      FieldSees(d, i, key % 8, s[n..], st);
      assert forall j :: 0 <= j < |d.fields| && d.fields[j].tag == key / 8 ==> j == i;
      assert RequiredAmong(d, {TagOf(s)}) == if d.fields[i].htype.Required? then {i} else {};
    } else {
      assert RequiredAmong(d, {TagOf(s)}) == {};
    }
  }

  lemma {:induction false} FieldSees(d: Desc, i: nat, wt: nat, s: seq<byte>, st: State)
    requires GoodState(d, st) && i < |d.fields| && DecodeField(d, i, wt, s, st).Next?
    ensures DecodeField(d, i, wt, s, st).st.seen == if d.fields[i].htype.Required? then st.seen + {i} else st.seen
  {
    var f := d.fields[i];
    assert WellFormedField(f, d.unions) && FitsSlot(f, st.slots[i]) && FitsUnion(f, st.unions);
  }

  lemma {:induction false} RunSees(d: Desc, s: seq<byte>, st: State)
    requires GoodState(d, st) && Run(d, s, st).Some?
    ensures Framed(s) && Run(d, s, st).value.seen == st.seen + RequiredAmong(d, Tags(s))
    decreases |s|
  {
    RunFramed(d, s, st);
    if s != [] {
      StepSees(d, s, st);
      StepFrame(d, s, st);
      var Next(st', n) := Step(d, s, st);
      RunSees(d, s[n..], st');
    }
  }

  /** Every tracked required field has its tag in `ts`. */
  predicate RequiredPresent(d: Desc, ts: set<nat>) {
    forall i :: 0 <= i < |d.fields| && d.fields[i].htype.Required? && RequiredIndex(d, i) < MAX_REQUIRED_FIELDS ==> d.fields[i].tag in ts
  }

  /** Of an input the loop gets through with its arrays complete, the required-field check
      accepts exactly those in which every tracked required tag occurs at this level. */
  lemma {:induction false} RequiredCheckExact(d: Desc, s: seq<byte>, base: Value)
    requires WellFormed(d) && Shaped(d, base)
    ensures GoodState(d, Start(base))
    ensures Run(d, s, Start(base)).Some? && FixComplete(d, Run(d, s, Start(base)).value) ==>
              Framed(s) && (DecodeMsg(d, s, base).Some? <==> RequiredPresent(d, Tags(s)))
  {
    StartGood(d, base);
    if Run(d, s, Start(base)).Some? {
      RunSees(d, s, Start(base));
      assert RequiredSeen(d, {} + RequiredAmong(d, Tags(s))) <==> RequiredPresent(d, Tags(s));
    }
  }

  lemma {:induction false} RequiredIndexBound(d: Desc, i: nat)
    requires i <= |d.fields|
    ensures RequiredIndex(d, i) <= RequiredIndex(d, |d.fields|)
    decreases |d.fields| - i
  {
    if i < |d.fields| {
      RequiredIndexBound(d, i + 1);
    }
  }

  /** With at most 64 required fields none is untracked. */
  lemma {:induction false} AllRequiredTracked(d: Desc, ts: set<nat>)
    requires RequiredIndex(d, |d.fields|) <= MAX_REQUIRED_FIELDS
    ensures RequiredPresent(d, ts) <==> forall i :: 0 <= i < |d.fields| && d.fields[i].htype.Required? ==> d.fields[i].tag in ts
  {
    forall i | 0 <= i < |d.fields| && d.fields[i].htype.Required? ensures RequiredIndex(d, i) < MAX_REQUIRED_FIELDS {
      RequiredIndexBound(d, i + 1);
    }
  }
}
