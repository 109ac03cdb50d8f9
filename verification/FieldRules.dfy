/** What the decoder makes of one field, whoever wrote it: the memory it changes, and what it
    refuses. */
module FieldRules {
  import opened Wire
  import opened Varint
  import opened Schema
  import opened Encoding
  import opened ProtoWire
  import opened Decoding
  import opened Framing
  import opened RoundTrip

  // ------------------------------------------------------------------
  // A key and what is behind it
  // ------------------------------------------------------------------

  lemma {:induction false} KeyRead(tag: nat, wt: nat, rest: seq<byte>)
    requires wt < 8 && 8 * tag + wt < TWO32
    ensures var s := Tag(tag, wt) + rest;
            Parse32(s) == Got(8 * tag + wt, |Tag(tag, wt)|) && s[|Tag(tag, wt)|..] == rest
            && (8 * tag + wt) / 8 == tag && (8 * tag + wt) % 8 == wt
  {
    Parse32Base128(8 * tag + wt, rest);
  }

  lemma {:induction false} KnownStep(d: Desc, i: nat, wt: nat, rest: seq<byte>, st: State)
    requires GoodState(d, st) && i < |d.fields| && wt < 8
    ensures Step(d, Tag(d.fields[i].tag, wt) + rest, st)
         == match DecodeField(d, i, wt, rest, st)
            case Stuck => Stuck
            case Next(st', n) => Next(st', |Tag(d.fields[i].tag, wt)| + n)
  {
    assert WellFormedField(d.fields[i], d.unions);
    KeyRead(d.fields[i].tag, wt, rest);
    assert FindField(d, d.fields[i].tag) == i;
  }

  lemma {:induction false} Behind(a: seq<byte>, b: seq<byte>, n: nat)
    requires n <= |b|
    ensures (a + b)[|a| + n..] == b[n..]
  {
  }

  lemma {:induction false} RunStep(d: Desc, a: seq<byte>, b: seq<byte>, n: nat, st: State, st': State)
    requires GoodState(d, st) && n <= |b| && Step(d, a + b, st) == Next(st', |a| + n)
    ensures Run(d, a + b, st) == Run(d, b[n..], st')
  {
    Behind(a, b, n);
  }

  lemma {:induction false} KnownKey(d: Desc, i: nat, wt: nat, rest: seq<byte>, st: State)
    requires GoodState(d, st) && i < |d.fields| && wt < 8
    ensures Run(d, Tag(d.fields[i].tag, wt) + rest, st)
         == match DecodeField(d, i, wt, rest, st)
            case Stuck => None
            case Next(st', n) => Run(d, rest[n..], st')
  {
    KnownStep(d, i, wt, rest, st);
    var r := DecodeField(d, i, wt, rest, st);
    if r.Next? {
      RunStep(d, Tag(d.fields[i].tag, wt), rest, r.used, st, r.st);
    }
  }

  // ------------------------------------------------------------------
  // Single fields and members of oneofs
  // ------------------------------------------------------------------

  /** The field's value replaces what was there, or is merged into it if it is a message; its flag
      is set if it has one, and it counts as seen if it is required. Nothing else changes. */
  lemma {:induction false} SingleField(d: Desc, i: nat, payload: seq<byte>, v: Value, rest: seq<byte>, st: State)
    requires GoodState(d, st) && i < |d.fields| && FitsSlot(d.fields[i], st.slots[i])
    requires var h := d.fields[i].htype; h.Required? || h.Optional? || h.Singular?
    requires FitsType(d.fields[i].ltype, st.slots[i].v) && WellFormedType(d.fields[i].ltype)
    requires DecodeValue(d.fields[i].ltype, st.slots[i].v, payload + rest) == Ok(v, |payload|)
    ensures var f := d.fields[i];
            var st' := st.(slots := st.slots[i := Single(f.htype == Optional, v)], seen := st.seen + if f.htype == Required then {i} else {});
            GoodState(d, st') && Run(d, Tag(f.tag, WireNumber(f.ltype)) + (payload + rest), st) == Run(d, rest, st')
  {
    var f := d.fields[i];
    SingleStored(d, i, payload + rest, |payload|, v, st);
    KnownKey(d, i, WireNumber(f.ltype), payload + rest, st);
    assert (payload + rest)[|payload|..] == rest;
  }

  lemma {:induction false} SingleStored(d: Desc, i: nat, s: seq<byte>, n: nat, v: Value, st: State)
    requires GoodState(d, st) && i < |d.fields| && FitsSlot(d.fields[i], st.slots[i])
    requires var h := d.fields[i].htype; h.Required? || h.Optional? || h.Singular?
    requires FitsType(d.fields[i].ltype, st.slots[i].v) && WellFormedType(d.fields[i].ltype)
    requires DecodeValue(d.fields[i].ltype, st.slots[i].v, s) == Ok(v, n)
    ensures var f := d.fields[i];
            var st' := st.(slots := st.slots[i := Single(f.htype == Optional, v)], seen := st.seen + if f.htype == Required then {i} else {});
            GoodState(d, st') && DecodeField(d, i, WireNumber(f.ltype), s, st) == Next(st', n)
  {
    assert WellFormedField(d.fields[i], d.unions);
    SlotUpdateGood(d, st, i, Single(d.fields[i].htype.Optional?, v));
    assert st.seen + {} == st.seen;
  }

  /** A member of a oneof sets the tag and the data of its union. A message is merged if the member
      was set before; otherwise it begins in fresh memory. */
  lemma {:induction false} MemberField(d: Desc, i: nat, g: nat, payload: seq<byte>, v: Value, rest: seq<byte>, st: State, mem: Value)
    requires GoodState(d, st) && i < |d.fields| && d.fields[i].htype == Oneof(g) && g < |st.unions|
    requires WellFormedType(d.fields[i].ltype) && GoodBase(d.fields[i].ltype, mem)
    requires d.fields[i].ltype.Submsg? ==>
               WellFormed(d.fields[i].ltype.desc)
               && mem == if st.unions[g].which == d.fields[i].tag then st.unions[g].v else FreshMsg(d.fields[i].ltype.desc)
    requires DecodeValue(d.fields[i].ltype, mem, payload + rest) == Ok(v, |payload|)
    ensures var f := d.fields[i];
            var st' := st.(unions := st.unions[g := Union(f.tag, v)]);
            GoodState(d, st') && Run(d, Tag(f.tag, WireNumber(f.ltype)) + (payload + rest), st) == Run(d, rest, st')
  {
    var f := d.fields[i];
    assert WellFormedField(f, d.unions) && FitsUnion(f, st.unions);
    ScalarMemory(f.ltype, mem, MemberBase(f, st.unions[g]), payload + rest);
    KnownKey(d, i, WireNumber(f.ltype), payload + rest, st);
    UnionUpdateGood(d, st, i, v);
    assert (payload + rest)[|payload|..] == rest;
  }

  /** What is in memory matters to messages only. */
  lemma {:induction false} ScalarMemory(t: LType, a: Value, b: Value, s: seq<byte>)
    requires WellFormedType(t) && GoodBase(t, a) && GoodBase(t, b) && (t.Submsg? ==> a == b)
    ensures DecodeValue(t, a, s) == DecodeValue(t, b, s)
  {
  }

  // ------------------------------------------------------------------
  // Fresh memory
  // ------------------------------------------------------------------

  /** Every flag is off, every repeated field empty, every oneof unset, and every single value is
      the declared default, or zero where there is none, at every depth. */
  ghost predicate AllDefault(d: Desc, m: Value)
    decreases d, 0
  {
    && m.Msg? && |m.slots| == |d.fields|
    && (forall i :: 0 <= i < |d.fields| ==> SlotDefault(d.fields[i], m.slots[i]))
    && (forall g :: 0 <= g < |m.unions| ==> m.unions[g].which == 0)
  }

  ghost predicate SlotDefault(f: Field, s: Slot)
    decreases f, 0
  {
    match f.htype
    case Repeated(_) => s == Many([])
    case FixArray(_) => s.Many?
    case Oneof(_) => s.InUnion?
    case _ => s.Single? && !s.has
              && if f.dflt.Some? then s.v == f.dflt.value
                 else if f.ltype.Submsg? then AllDefault(f.ltype.desc, s.v)
                 else s.v == Zero(f.ltype)
  }

  /** What numbers, strings and bytes are when they are zero. */
  lemma {:induction false} ZeroIs(t: LType)
    ensures match t
            case Bytes(_) => Zero(t) == Raw([])
            case String(_) => Zero(t) == Raw([])
            case FixedBytes(n) => Zero(t).Raw? && |Zero(t).b| == n && forall k :: 0 <= k < n ==> Zero(t).b[k] == 0
            case Submsg(d) => Zero(t) == ZeroMsg(d)
            case _ => Zero(t) == Num(0)
  {
  }

  /** Zeroed memory is the default where nothing in the message declares another. */
  lemma {:induction false} ZeroedDefault(d: Desc)
    requires !NeedsInit(d)
    ensures AllDefault(d, ZeroMsg(d))
  {
    var m := ZeroMsg(d);
    forall i | 0 <= i < |d.fields| ensures SlotDefault(d.fields[i], m.slots[i]) {
      assert d.fields[i].dflt.None? && !d.fields[i].ltype.Submsg?;
      assert m.slots[i] == ZeroSlot(d.fields[i]);
    }
  }

  lemma {:induction false} SetToDefault(d: Desc, m: Value)
    requires WellFormed(d) && Shaped(d, m)
    ensures Shaped(d, ToDefaults(d, m)) && AllDefault(d, ToDefaults(d, m))
    decreases d, 1
  {
    ToDefaultsShaped(d, m);
    forall i | 0 <= i < |d.fields| ensures SlotDefault(d.fields[i], ToDefaults(d, m).slots[i]) {
      assert WellFormedField(d.fields[i], d.unions) && FitsSlot(d.fields[i], m.slots[i]);
      SlotSetToDefault(d.fields[i], m.slots[i], d.unions);
    }
  }

  lemma {:induction false} SlotSetToDefault(f: Field, s: Slot, unions: nat)
    requires WellFormedField(f, unions) && FitsSlot(f, s)
    ensures SlotDefault(f, DefaultSlot(f, s))
    decreases f, 1
  {
    if s.Single? && f.ltype.Submsg? && f.dflt.None? {
      assert FitsType(f.ltype, s.v) && WellFormedType(f.ltype);
      if NeedsInit(f.ltype.desc) {
        SetToDefault(f.ltype.desc, s.v);
      } else {
        ZeroedDefault(f.ltype.desc);
      }
    }
  }

  /** A message begins in default memory when it is decoded as a whole, as a new entry of an array,
      or as a member of a oneof that was not set. */
  lemma {:induction false} FreshMemory(t: LType, vs: seq<Value>, k: nat)
    requires t.Submsg? && WellFormed(t.desc) && AllFit(t, vs)
    ensures AllDefault(t.desc, EntryBase(t, vs, k)) && AllDefault(t.desc, FreshMsg(t.desc))
  {
    ZeroMsgShaped(t.desc);
    var old' := if k < |vs| then vs[k] else ZeroMsg(t.desc);
    assert Shaped(t.desc, old') by { if k < |vs| { assert FitsType(t, vs[k]); } }
    SetToDefault(t.desc, old');
    if NeedsInit(t.desc) {
      SetToDefault(t.desc, ZeroMsg(t.desc));
    } else {
      ZeroedDefault(t.desc);
    }
  }

  // ------------------------------------------------------------------
  // What is refused
  // ------------------------------------------------------------------

  /** A known field with another wire type than its own, unless it is a packed array. */
  lemma {:induction false} WrongWireTypeRefused(d: Desc, i: nat, wt: nat, rest: seq<byte>, st: State)
    requires GoodState(d, st) && i < |d.fields| && wt < 8 && wt != WireNumber(d.fields[i].ltype)
    requires !(wt == 2 && d.fields[i].htype.IsArray() && WireNumber(d.fields[i].ltype) != 2)
    ensures Run(d, Tag(d.fields[i].tag, wt) + rest, st).None?
  {
    KnownKey(d, i, wt, rest, st);
    assert WellFormedField(d.fields[i], d.unions) && FitsSlot(d.fields[i], st.slots[i]);
  }

  /** Field number 0. */
  lemma {:induction false} ZeroTagRefused(d: Desc, wt: nat, rest: seq<byte>, st: State)
    requires GoodState(d, st) && wt < 8
    ensures Run(d, Tag(0, wt) + rest, st).None?
  {
    KeyRead(0, wt, rest);
  }

  /** Payloads of a field, by wire type: a varint, eight bytes, a length and as many bytes, four
      bytes. */
  ghost predicate IsPayload(wt: nat, s: seq<byte>) {
    || (wt == 0 && exists u: nat :: u < TWO64 && s == Base128(u))
    || (wt == 1 && |s| == 8)
    || (wt == 2 && exists body: seq<byte> :: |body| < TWO32 && s == Base128(|body|) + body)
    || (wt == 5 && |s| == 4)
  }

  lemma {:induction false} PayloadSkipped(wt: nat, s: seq<byte>, rest: seq<byte>)
    requires IsPayload(wt, s)
    ensures Skip(wt, s + rest) == Some(|s|)
  {
    if wt == 0 {
      var u: nat :| u < TWO64 && s == Base128(u);
      Parse64Base128(u, rest);
      Parse64Frame(s + rest, 0);
    } else if wt == 2 {
      var body: seq<byte> :| |body| < TWO32 && s == Base128(|body|) + body;
      PrefixedRoundTrip(body, rest);
    }
  }

  lemma {:induction false} UnknownStep(d: Desc, tag: nat, wt: nat, rest: seq<byte>, st: State)
    requires GoodState(d, st) && 1 <= tag < 0x2000_0000 && wt < 8
    requires forall i :: 0 <= i < |d.fields| ==> d.fields[i].tag != tag
    ensures Step(d, Tag(tag, wt) + rest, st)
         == match Skip(wt, rest)
            case None => Stuck
            case Some(n) => Next(st, |Tag(tag, wt)| + n)
  {
    KeyRead(tag, wt, rest);
    NotFound(d, tag);
  }

  lemma {:induction false} NotFound(d: Desc, tag: nat)
    requires forall i :: 0 <= i < |d.fields| ==> d.fields[i].tag != tag
    ensures FindField(d, tag) < 0
  {
  }

  /** A field the message does not know is passed over, whatever its wire type of the four. */
  lemma {:induction false} UnknownIgnored(d: Desc, tag: nat, wt: nat, payload: seq<byte>, rest: seq<byte>, st: State)
    requires GoodState(d, st) && 1 <= tag < 0x2000_0000 && wt < 8 && IsPayload(wt, payload)
    requires forall i :: 0 <= i < |d.fields| ==> d.fields[i].tag != tag
    ensures Run(d, Tag(tag, wt) + (payload + rest), st) == Run(d, rest, st)
  {
    UnknownStep(d, tag, wt, payload + rest, st);
    PayloadSkipped(wt, payload, rest);
    RunStep(d, Tag(tag, wt), payload + rest, |payload|, st, st);
    assert (payload + rest)[|payload|..] == rest;
  }

  /** One of the other four wire types, which are not in use, is refused. */
  lemma {:induction false} UnusedWireTypeRefused(d: Desc, tag: nat, wt: nat, rest: seq<byte>, st: State)
    requires GoodState(d, st) && 1 <= tag < 0x2000_0000 && wt in {3, 4, 6, 7}
    requires forall i :: 0 <= i < |d.fields| ==> d.fields[i].tag != tag
    ensures Run(d, Tag(tag, wt) + rest, st).None?
  {
    UnknownStep(d, tag, wt, rest, st);
  }

  /** At the end of the input the message is accepted exactly when the fixed-count array begun last
      is full and all required fields among the first 64 have been seen. */
  lemma {:induction false} AcceptedAtEnd(d: Desc, s: seq<byte>, base: Value)
    requires WellFormed(d) && Shaped(d, base)
    ensures GoodState(d, Start(base))
    ensures var end := Run(d, s, Start(base));
            DecodeMsg(d, s, base) ==
            if end.None? then None
            else if end.value.fixField >= 0 && d.fields[end.value.fixField].htype != FixArray(end.value.fixDone) then None
            else if exists i :: 0 <= i < |d.fields| && d.fields[i].htype == Required && RequiredIndex(d, i) < 64 && i !in end.value.seen then None
            else Some(Msg(end.value.slots, end.value.unions))
  {
    StartGood(d, base);
  }
}
