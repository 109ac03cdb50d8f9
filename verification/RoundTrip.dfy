/** Decoding undoes encoding, for every descriptor tree and every struct the encoder accepts. */
module RoundTrip {
  import opened Wire
  import opened Varint
  import opened Schema
  import opened Encoding
  import opened Decoding
  import opened Framing

  // ------------------------------------------------------------------
  // What comes back
  // ------------------------------------------------------------------

  const NO_ENTRIES: seq<Value> := []

  /** `v` as the decoder restores it into `base`: absent fields take what `base` has, strings
      end at their first NUL. */
  function Restored(t: LType, v: Value, base: Value): Value
    requires WellFormedType(t) && FitsType(t, v) && GoodBase(t, base)
    decreases t, 0
  {
    match t
    case String(_) => Raw(v.b[..StrLen(v.b)])
    case Submsg(d) => assert Shaped(d, v); RestoredMsg(d, v, base)
    case _ => v
  }

  function RestoredSlot(f: Field, s: Slot, us: seq<Union>, hasDefaults: bool, base: Slot, unions: nat): Slot
    requires WellFormedField(f, unions) && FitsSlot(f, s) && FitsSlot(f, base)
    decreases f, 1
  {
    if !Present(f, s, us, hasDefaults) then base
    else
      match f.htype
      case Repeated(_) => Many(RestoredArray(f.ltype, s.vs, NO_ENTRIES, |s.vs|))
      case FixArray(_) => Many(RestoredArray(f.ltype, s.vs, base.vs, |s.vs|))
      case Oneof(_) => InUnion
      case _ =>
        assert FitsType(f.ltype, s.v) && FitsType(f.ltype, base.v);
        Single(f.htype.Optional?, Restored(f.ltype, s.v, base.v))
  }

  /** An array whose first `k` entries have been received. */
  function RestoredArray(t: LType, vs: seq<Value>, base: seq<Value>, k: nat): (r: seq<Value>)
    requires WellFormedType(t) && k <= |vs| && (base == [] || |base| == |vs|)
    requires forall j :: 0 <= j < |vs| ==> FitsType(t, vs[j])
    requires forall j :: 0 <= j < |base| ==> FitsType(t, base[j])
    ensures |r| == if base == [] then k else |base|
    decreases t, 1
  {
    seq(k, j requires 0 <= j < k => Restored(t, vs[j], EntryBase(t, base, j))) + if base == [] then [] else base[k..]
  }

  /** A union once fields below `i` have been received. */
  function RestoredUnion(d: Desc, m: Value, base: Value, g: nat, i: nat): Union
    requires WellFormed(d) && Shaped(d, m) && Shaped(d, base) && g < d.unions && i <= |d.fields|
    decreases d, 0, i
  {
    if i == 0 then base.unions[g]
    else
      var f := d.fields[i - 1];
      assert WellFormedField(f, d.unions) && FitsUnion(f, m.unions);
      if f.htype == Oneof(g) && m.unions[g].which == f.tag then
        Union(f.tag, Restored(f.ltype, m.unions[g].v, MemberBase(f, Union(0, Num(0)))))
      else RestoredUnion(d, m, base, g, i - 1)
  }

  function RestoredMsg(d: Desc, m: Value, base: Value): Value
    requires WellFormed(d) && Shaped(d, m) && Shaped(d, base)
    decreases d, 1
  {
    Msg(seq(|d.fields|, i requires 0 <= i < |d.fields| =>
              RestoredSlot(d.fields[i], m.slots[i], m.unions, HasDefaults(d), base.slots[i], d.unions)),
        seq(d.unions, g requires 0 <= g < d.unions => RestoredUnion(d, m, base, g, |d.fields|)))
  }

  // ------------------------------------------------------------------
  // Restored structs keep their shape
  // ------------------------------------------------------------------

  lemma {:induction false} RestoredFits(t: LType, v: Value, base: Value)
    requires WellFormedType(t) && FitsType(t, v) && GoodBase(t, base)
    ensures FitsType(t, Restored(t, v, base))
    decreases t, 0
  {
    if t.Submsg? {
      assert Shaped(t.desc, v);
      RestoredMsgShaped(t.desc, v, base);
    }
  }

  /** What an array of kind `f` may hold before any entry is received. */
  predicate ArrayStart(f: Field, vs: seq<Value>, base: seq<Value>) {
    && f.htype.IsArray()
    && FitsSlot(f, Many(vs))
    && (if f.htype.Repeated? then base == [] else FitsSlot(f, Many(base)))
  }

  lemma {:induction false} RestoredArrayFits(f: Field, vs: seq<Value>, base: seq<Value>, k: nat)
    requires WellFormedType(f.ltype) && ArrayStart(f, vs, base) && k <= |vs|
    ensures FitsSlot(f, Many(RestoredArray(f.ltype, vs, base, k)))
    decreases f, 0
  {
    var r := RestoredArray(f.ltype, vs, base, k);
    forall j | 0 <= j < |r| ensures FitsType(f.ltype, r[j]) {
      if j < k {
        RestoredFits(f.ltype, vs[j], EntryBase(f.ltype, base, j));
      } else {
        assert r[j] == base[j];
      }
    }
  }

  lemma {:induction false} RestoredSlotFits(f: Field, s: Slot, us: seq<Union>, hasDefaults: bool, base: Slot, unions: nat)
    requires WellFormedField(f, unions) && FitsSlot(f, s) && FitsSlot(f, base)
    ensures FitsSlot(f, RestoredSlot(f, s, us, hasDefaults, base, unions))
    decreases f, 1
  {
    if f.htype.IsArray() {
      RestoredArrayFits(f, s.vs, if f.htype.Repeated? then NO_ENTRIES else base.vs, |s.vs|);
    } else if !f.htype.Oneof? {
      assert FitsType(f.ltype, s.v) && FitsType(f.ltype, base.v);
      RestoredFits(f.ltype, s.v, base.v);
    }
  }

  lemma {:induction false} RestoredUnionFits(d: Desc, m: Value, base: Value, i: nat, j: nat)
    requires WellFormed(d) && Shaped(d, m) && Shaped(d, base) && i <= |d.fields| && j < |d.fields|
    ensures var us := seq(d.unions, g requires 0 <= g < d.unions => RestoredUnion(d, m, base, g, i)); FitsUnion(d.fields[j], us)
    decreases d, 0, i
  {
    var f := d.fields[j];
    assert WellFormedField(f, d.unions);
    if f.htype.Oneof? {
      var g := f.htype.union;
      if i == 0 {
        assert FitsUnion(f, base.unions);
      } else {
        var h := d.fields[i - 1];
        assert WellFormedField(h, d.unions) && FitsUnion(h, m.unions);
        if h.htype == Oneof(g) && m.unions[g].which == h.tag {
          RestoredFits(h.ltype, m.unions[g].v, MemberBase(h, Union(0, Num(0))));
          assert h.tag == f.tag ==> j == i - 1;
        } else {
          RestoredUnionFits(d, m, base, i - 1, j);
        }
      }
    }
  }

  lemma {:induction false} RestoredMsgShaped(d: Desc, m: Value, base: Value)
    requires WellFormed(d) && Shaped(d, m) && Shaped(d, base)
    ensures Shaped(d, RestoredMsg(d, m, base))
    decreases d, 1
  {
    var r := RestoredMsg(d, m, base);
    forall i | 0 <= i < |d.fields| ensures FitsSlot(d.fields[i], r.slots[i]) && FitsUnion(d.fields[i], r.unions) {
      assert WellFormedField(d.fields[i], d.unions);
      RestoredSlotFits(d.fields[i], m.slots[i], m.unions, HasDefaults(d), base.slots[i], d.unions);
      RestoredUnionFits(d, m, base, |d.fields|, i);
    }
  }

  // ------------------------------------------------------------------
  // Memory set to defaults is clean
  // ------------------------------------------------------------------

  /** No repeated entries and no oneof member, here and in every nested submessage. */
  predicate Clean(d: Desc, m: Value)
    requires Shaped(d, m)
    decreases d
  {
    && (forall i :: 0 <= i < |d.fields| ==> CleanSlot(d.fields[i], m.slots[i]))
    && (forall g :: 0 <= g < |m.unions| ==> m.unions[g].which == 0)
  }

  predicate CleanSlot(f: Field, s: Slot)
    requires FitsSlot(f, s)
    decreases f
  {
    match f.htype
    case Repeated(_) => s.vs == []
    case FixArray(_) => true
    case Oneof(_) => true
    case _ => assert FitsType(f.ltype, s.v); f.ltype.Submsg? ==> Clean(f.ltype.desc, s.v)
  }

  predicate CleanBase(t: LType, base: Value)
    requires GoodBase(t, base)
  {
    t.Submsg? ==> Clean(t.desc, base)
  }

  lemma {:induction false} ZeroMsgClean(d: Desc)
    requires WellFormed(d)
    ensures Shaped(d, ZeroMsg(d)) && Clean(d, ZeroMsg(d))
    decreases d, 0
  {
    ZeroMsgShaped(d);
    forall i | 0 <= i < |d.fields| ensures CleanSlot(d.fields[i], ZeroMsg(d).slots[i]) {
      assert WellFormedField(d.fields[i], d.unions);
      ZeroSlotClean(d.fields[i], d.unions);
    }
  }

  lemma {:induction false} ZeroSlotClean(f: Field, unions: nat)
    requires WellFormedField(f, unions)
    ensures FitsSlot(f, ZeroSlot(f)) && CleanSlot(f, ZeroSlot(f))
    decreases f, 0
  {
    assert WellFormedType(f.ltype);
    ZeroFits(f.ltype);
    if f.ltype.Submsg? {
      ZeroMsgClean(f.ltype.desc);
    }
  }

  lemma {:induction false} DefaultSlotClean(f: Field, s: Slot, unions: nat)
    requires WellFormedField(f, unions) && FitsSlot(f, s)
    ensures FitsSlot(f, DefaultSlot(f, s)) && CleanSlot(f, DefaultSlot(f, s))
    decreases f, 0
  {
    DefaultSlotFits(f, s, unions);
    assert WellFormedType(f.ltype);
    if f.ltype.Submsg? && s.Single? {
      assert FitsType(f.ltype, s.v);
      ZeroMsgClean(f.ltype.desc);
      ToDefaultsClean(f.ltype.desc, s.v);
    }
  }

  lemma {:induction false} ToDefaultsClean(d: Desc, m: Value)
    requires WellFormed(d) && Shaped(d, m)
    ensures Shaped(d, ToDefaults(d, m)) && Clean(d, ToDefaults(d, m))
    decreases d, 0
  {
    ToDefaultsShaped(d, m);
    forall i | 0 <= i < |d.fields| ensures CleanSlot(d.fields[i], ToDefaults(d, m).slots[i]) {
      assert WellFormedField(d.fields[i], d.unions);
      DefaultSlotClean(d.fields[i], m.slots[i], d.unions);
    }
  }

  lemma {:induction false} EntryBaseClean(t: LType, vs: seq<Value>, k: nat)
    requires WellFormedType(t) && forall j :: 0 <= j < |vs| ==> FitsType(t, vs[j])
    ensures CleanBase(t, EntryBase(t, vs, k))
  {
    if t.Submsg? {
      ZeroMsgShaped(t.desc);
      var old' := if k < |vs| then vs[k] else ZeroMsg(t.desc);
      assert Shaped(t.desc, old') by { if k < |vs| { assert FitsType(t, vs[k]); } }
      ToDefaultsClean(t.desc, old');
    }
  }

  lemma {:induction false} MemberBaseClean(f: Field)
    requires WellFormedType(f.ltype) && f.tag != 0
    ensures CleanBase(f.ltype, MemberBase(f, Union(0, Num(0))))
  {
    if f.ltype.Submsg? {
      ZeroMsgClean(f.ltype.desc);
      ToDefaultsClean(f.ltype.desc, ZeroMsg(f.ltype.desc));
    }
  }

  // ------------------------------------------------------------------
  // Scalars
  // ------------------------------------------------------------------

  lemma {:induction false} SignedRoundTrip(i: int)
    requires -TWO63 <= i < TWO63
    ensures ToS64(ToU64(i)) == i && (-TWO31 <= i < TWO31 ==> ToS32(ToU64(i)) == i)
  {
    if i < 0 {
      assert TWO64 == TWO32 * TWO32;
      assert (i + TWO64) % TWO32 == i % TWO32;
    }
  }

  lemma {:induction false} CodeRoundTrip(t: LType, i: int)
    requires (t.Varint? || t.UVarint? || t.SVarint?) && WellFormedType(t) && FitsType(t, Num(i))
    ensures FromCode(t, Code(t, i)) == Some(i)
  {
    if t.SVarint? {
      ZigZagBijective(i, 0);
    } else if t.Varint? {
      SignedRoundTrip(i);
    }
  }

  lemma {:induction false} LittleEndianRoundTrip(v: nat, n: nat, rest: seq<byte>)
    requires v < Pow256(n)
    ensures FromLittleEndian(LittleEndian(v, n) + rest, n) == v
    decreases n
  {
    if n > 0 {
      LittleEndianRoundTrip(v / 256, n - 1, rest);
      assert (LittleEndian(v, n) + rest)[1..] == LittleEndian(v / 256, n - 1) + rest;
    }
  }

  lemma {:induction false} PrefixedRoundTrip(body: seq<byte>, rest: seq<byte>)
    requires |body| < TWO32
    ensures Delimited(Prefixed(body) + rest) == Extent(|Base128(|body|)|, |Prefixed(body)|)
    ensures (Prefixed(body) + rest)[|Base128(|body|)|..|Prefixed(body)|] == body
  {
    assert Prefixed(body) + rest == Base128(|body|) + (body + rest);
    Parse32Base128(|body|, body + rest);
  }

  lemma {:induction false} PackableRoundTrip(t: LType, v: Value, rest: seq<byte>)
    requires t.Packable() && WellFormedType(t) && FitsType(t, v)
    ensures DecodeValue(t, Num(0), EncodeValue(t, v) + rest) == Ok(v, |EncodeValue(t, v)|)
  {
    if t.Fixed32? {
      assert Pow256(4) == TWO32;
      LittleEndianRoundTrip(v.i, 4, rest);
    } else if t.Fixed64? {
      assert Pow256(4) == TWO32 && Pow256(8) == 256 * 256 * 256 * 256 * Pow256(4);
      LittleEndianRoundTrip(v.i, 8, rest);
    } else if t.Bool? {
      Parse32Base128(v.i, rest);
    } else {
      Parse64Base128(Code(t, v.i), rest);
      CodeRoundTrip(t, v.i);
    }
  }

  lemma {:induction false} PackedTail(t: LType, vs: seq<Value>, k: nat)
    requires t.Packable() && AllFit(t, vs) && k < |vs|
    ensures EncodePacked(t, vs[k..]) == EncodeValue(t, vs[k]) + EncodePacked(t, vs[k + 1..])
    ensures EncodePacked(t, vs[k..])[|EncodeValue(t, vs[k])|..] == EncodePacked(t, vs[k + 1..])
  {
    assert vs[k..][1..] == vs[k + 1..];
  }

  /** Putting entry `k` where the first `k` are right. */
  lemma {:induction false} PutNext(vs: seq<Value>, cur: seq<Value>, k: nat)
    requires k < |vs| && k <= |cur| && cur[..k] == vs[..k] && (|cur| == k || |cur| == |vs|)
    ensures var next := Put(cur, k, vs[k]);
            k + 1 <= |next| && next[..k + 1] == vs[..k + 1] && (|next| == k + 1 || |next| == |vs|)
  {
    var next := Put(cur, k, vs[k]);
    assert next[..k] == cur[..k];
  }

  lemma {:induction false} PackedRoundTrip(t: LType, vs: seq<Value>, k: nat, cur: seq<Value>, limit: nat)
    requires t.Packable() && WellFormedType(t) && k <= |vs| <= limit && AllFit(t, vs) && AllFit(t, cur)
    requires k <= |cur| && cur[..k] == vs[..k] && (|cur| == k || |cur| == |vs|)
    ensures DecodePacked(t, EncodePacked(t, vs[k..]), cur, k, limit) == Filled(vs, |vs|)
    decreases |vs| - k
  {
    if k == |vs| {
      assert cur == vs;
    } else {
      PackedNext(t, vs, k, cur, limit);
      PutNext(vs, cur, k);
      PackedRoundTrip(t, vs, k + 1, Put(cur, k, vs[k]), limit);
    }
  }

  /** One round of the packed loop. */
  lemma {:induction false} PackedNext(t: LType, vs: seq<Value>, k: nat, cur: seq<Value>, limit: nat)
    requires t.Packable() && WellFormedType(t) && k < |vs| <= limit && AllFit(t, vs) && AllFit(t, cur) && k <= |cur|
    ensures AllFit(t, Put(cur, k, vs[k]))
    ensures DecodePacked(t, EncodePacked(t, vs[k..]), cur, k, limit)
         == DecodePacked(t, EncodePacked(t, vs[k + 1..]), Put(cur, k, vs[k]), k + 1, limit)
  {
    PackedTail(t, vs, k);
    PackableRoundTrip(t, vs[k], EncodePacked(t, vs[k + 1..]));
    assert FitsType(t, vs[k]);
  }

  // ------------------------------------------------------------------
  // The decoder's state between fields
  // ------------------------------------------------------------------

  /** The last fixed-count array before field `i`, or -1. */
  function LastFix(d: Desc, i: nat): (j: int)
    requires i <= |d.fields|
    ensures -1 <= j < i && (j >= 0 ==> d.fields[j].htype.FixArray?)
  {
    if i == 0 then -1 else if d.fields[i - 1].htype.FixArray? then i - 1 else LastFix(d, i - 1)
  }

  function SlotAt(d: Desc, m: Value, base: Value, i: nat): Slot
    requires WellFormed(d) && Shaped(d, m) && Shaped(d, base) && i < |d.fields|
  {
    RestoredSlot(d.fields[i], m.slots[i], m.unions, HasDefaults(d), base.slots[i], d.unions)
  }

  /** The decoder's state once all fields below `i` have been received. */
  function StateAt(d: Desc, m: Value, base: Value, i: nat): State
    requires WellFormed(d) && Shaped(d, m) && Shaped(d, base) && i <= |d.fields|
  {
    State(seq(|d.fields|, j requires 0 <= j < |d.fields| => if j < i then SlotAt(d, m, base, j) else base.slots[j]),
          seq(d.unions, g requires 0 <= g < d.unions => RestoredUnion(d, m, base, g, i)),
          LastFix(d, i),
          if LastFix(d, i) < 0 then 0 else d.fields[LastFix(d, i)].htype.count,
          set j | 0 <= j < i && d.fields[j].htype.Required?)
  }

  lemma {:induction false} StateAtGood(d: Desc, m: Value, base: Value, i: nat)
    requires WellFormed(d) && Shaped(d, m) && Shaped(d, base) && i <= |d.fields|
    ensures GoodState(d, StateAt(d, m, base, i)) && FixComplete(d, StateAt(d, m, base, i))
  {
    var st := StateAt(d, m, base, i);
    forall j | 0 <= j < |d.fields| ensures FitsSlot(d.fields[j], st.slots[j]) && FitsUnion(d.fields[j], st.unions) {
      assert WellFormedField(d.fields[j], d.unions);
      RestoredSlotFits(d.fields[j], m.slots[j], m.unions, HasDefaults(d), base.slots[j], d.unions);
      RestoredUnionFits(d, m, base, i, j);
    }
  }

  lemma {:induction false} StateAtAbsent(d: Desc, m: Value, base: Value, i: nat)
    requires WellFormed(d) && Shaped(d, m) && Shaped(d, base) && i < |d.fields|
    requires !Present(d.fields[i], m.slots[i], m.unions, HasDefaults(d))
    ensures StateAt(d, m, base, i + 1) == StateAt(d, m, base, i)
  {
    assert WellFormedField(d.fields[i], d.unions);
    var a, b := StateAt(d, m, base, i), StateAt(d, m, base, i + 1);
    assert a.slots == b.slots;
    assert a.unions == b.unions;
    assert a.seen == b.seen;
  }

  lemma {:induction false} StateAtSingle(d: Desc, m: Value, base: Value, i: nat)
    requires WellFormed(d) && Shaped(d, m) && Shaped(d, base) && i < |d.fields|
    requires !d.fields[i].htype.IsArray() && !d.fields[i].htype.Oneof?
    ensures var st := StateAt(d, m, base, i);
            StateAt(d, m, base, i + 1) ==
              st.(slots := st.slots[i := SlotAt(d, m, base, i)],
                  seen := if d.fields[i].htype.Required? then st.seen + {i} else st.seen)
  {
    var a, b := StateAt(d, m, base, i), StateAt(d, m, base, i + 1);
    assert a.slots[i := SlotAt(d, m, base, i)] == b.slots;
    assert a.unions == b.unions;
    assert b.seen == if d.fields[i].htype.Required? then a.seen + {i} else a.seen;
  }

  lemma {:induction false} StateAtMember(d: Desc, m: Value, base: Value, i: nat)
    requires WellFormed(d) && Shaped(d, m) && Shaped(d, base) && i < |d.fields| && d.fields[i].htype.Oneof?
    requires Present(d.fields[i], m.slots[i], m.unions, HasDefaults(d))
    ensures var f := d.fields[i]; var st := StateAt(d, m, base, i); var g := f.htype.union;
            && g < d.unions && f.tag != 0 && WellFormedType(f.ltype) && FitsType(f.ltype, m.unions[g].v)
            && StateAt(d, m, base, i + 1) ==
                 st.(unions := st.unions[g := Union(f.tag, Restored(f.ltype, m.unions[g].v, MemberBase(f, Union(0, Num(0)))))])
  {
    var f := d.fields[i];
    assert WellFormedField(f, d.unions) && FitsUnion(f, m.unions) && FitsSlot(f, m.slots[i]) && FitsSlot(f, base.slots[i]);
    var a, b := StateAt(d, m, base, i), StateAt(d, m, base, i + 1);
    assert a.slots == b.slots;
    var g := f.htype.union;
    assert a.unions[g := Union(f.tag, Restored(f.ltype, m.unions[g].v, MemberBase(f, Union(0, Num(0)))))] == b.unions;
    assert a.seen == b.seen;
  }

  /** Before its member comes, a union is still unset. */
  lemma {:induction false} UnionUnset(d: Desc, m: Value, base: Value, g: nat, i: nat, j: nat)
    requires WellFormed(d) && Shaped(d, m) && Shaped(d, base) && Clean(d, base)
    requires g < d.unions && j <= i < |d.fields| && d.fields[i].htype == Oneof(g) && m.unions[g].which == d.fields[i].tag
    ensures RestoredUnion(d, m, base, g, j).which == 0
    decreases j
  {
    if j > 0 {
      UnionUnset(d, m, base, g, i, j - 1);
      assert d.fields[j - 1].tag < d.fields[i].tag;
    }
  }

  /** Entries an array of field `i` starts from. */
  function ArrayBase(d: Desc, base: Value, i: nat): seq<Value>
    requires Shaped(d, base) && i < |d.fields| && d.fields[i].htype.IsArray()
  {
    assert FitsSlot(d.fields[i], base.slots[i]);
    if d.fields[i].htype.Repeated? then NO_ENTRIES else base.slots[i].vs
  }

  /** The decoder's state once `k` entries of the array at field `i` have been received. */
  function ArrayStateAt(d: Desc, m: Value, base: Value, i: nat, k: nat): State
    requires WellFormed(d) && Shaped(d, m) && Shaped(d, base) && i < |d.fields| && d.fields[i].htype.IsArray()
    requires FitsSlot(d.fields[i], m.slots[i]) && k <= |m.slots[i].vs|
  {
    var f := d.fields[i];
    assert WellFormedField(f, d.unions) && FitsSlot(f, base.slots[i]);
    var st := StateAt(d, m, base, i);
    if k == 0 then st
    else
      var st' := st.(slots := st.slots[i := Many(RestoredArray(f.ltype, m.slots[i].vs, ArrayBase(d, base, i), k))]);
      if f.htype.FixArray? then st'.(fixField := i, fixDone := k) else st'
  }

  lemma {:induction false} ArrayStateAtEnd(d: Desc, m: Value, base: Value, i: nat)
    requires WellFormed(d) && Shaped(d, m) && Shaped(d, base) && Clean(d, base)
    requires i < |d.fields| && d.fields[i].htype.IsArray() && FitsSlot(d.fields[i], m.slots[i])
    ensures ArrayStateAt(d, m, base, i, |m.slots[i].vs|) == StateAt(d, m, base, i + 1)
  {
    var f := d.fields[i];
    assert WellFormedField(f, d.unions) && FitsSlot(f, base.slots[i]) && CleanSlot(f, base.slots[i]);
    var vs := m.slots[i].vs;
    var a, b := ArrayStateAt(d, m, base, i, |vs|), StateAt(d, m, base, i + 1);
    assert SlotAt(d, m, base, i) == Many(RestoredArray(f.ltype, vs, ArrayBase(d, base, i), |vs|));
    if |vs| == 0 {
      assert RestoredArray(f.ltype, vs, ArrayBase(d, base, i), 0) == [];
    }
    assert a.slots == b.slots;
    assert a.unions == b.unions;
    assert a.seen == b.seen;
  }

  lemma {:induction false} ArrayStateAtGood(d: Desc, m: Value, base: Value, i: nat, k: nat)
    requires WellFormed(d) && Shaped(d, m) && Shaped(d, base) && Clean(d, base)
    requires i < |d.fields| && d.fields[i].htype.IsArray() && FitsSlot(d.fields[i], m.slots[i]) && k <= |m.slots[i].vs|
    ensures var st := ArrayStateAt(d, m, base, i, k);
            && GoodState(d, st)
            && ArraySize(d, i, st) == Some(k)
            && FitsSlot(d.fields[i], base.slots[i]) && WellFormedType(d.fields[i].ltype)
            && st.slots[i] == Many(RestoredArray(d.fields[i].ltype, m.slots[i].vs, ArrayBase(d, base, i), k))
  {
    var f := d.fields[i];
    assert WellFormedField(f, d.unions) && FitsSlot(f, base.slots[i]) && CleanSlot(f, base.slots[i]);
    StateAtGood(d, m, base, i);
    var st := StateAt(d, m, base, i);
    var bs := ArrayBase(d, base, i);
    RestoredArrayFits(f, m.slots[i].vs, bs, k);
    SlotUpdateGood(d, st, i, Many(RestoredArray(f.ltype, m.slots[i].vs, bs, k)));
    if k == 0 {
      assert RestoredArray(f.ltype, m.slots[i].vs, bs, 0) == bs;
    }
  }

  // ------------------------------------------------------------------
  // The theorem
  // ------------------------------------------------------------------

  lemma {:induction false} TaggedRun(d: Desc, i: nat, wt: nat, payload: seq<byte>, rest: seq<byte>, st: State, st': State)
    requires GoodState(d, st) && i < |d.fields| && wt < 8
    requires DecodeField(d, i, wt, payload + rest, st) == Next(st', |payload|)
    ensures GoodState(d, st')
    ensures Run(d, Tag(d.fields[i].tag, wt) + payload + rest, st) == Run(d, rest, st')
  {
    var f := d.fields[i];
    assert WellFormedField(f, d.unions);
    var key := 8 * f.tag + wt;
    var s := Tag(f.tag, wt) + payload + rest;
    assert s == Base128(key) + (payload + rest);
    Parse32Base128(key, payload + rest);
    assert s[|Base128(key)|..] == payload + rest;
    assert FindField(d, f.tag) == i;
    assert Step(d, s, st) == Next(st', |Base128(key)| + |payload|);
    assert s[|Base128(key)| + |payload|..] == rest;
  }

  lemma {:induction false} ValueRoundTrip(t: LType, v: Value, base: Value, rest: seq<byte>)
    requires WellFormedType(t) && FitsType(t, v) && GoodBase(t, base) && CleanBase(t, base)
    requires ValueEncodable(t, v) && |EncodeValue(t, v)| < TWO32
    ensures DecodeValue(t, base, EncodeValue(t, v) + rest) == Ok(Restored(t, v, base), |EncodeValue(t, v)|)
    decreases t, 0, 0
  {
    if t.Packable() {
      PackableRoundTrip(t, v, rest);
      assert DecodeValue(t, base, EncodeValue(t, v) + rest) == DecodeValue(t, Num(0), EncodeValue(t, v) + rest);
    } else if t.Submsg? {
      assert Shaped(t.desc, v);
      MsgRoundTrip(t.desc, v, base);
      PrefixedRoundTrip(Encode(t.desc, v), rest);
    } else {
      PrefixedRoundTrip(if t.String? then v.b[..StrLen(v.b)] else v.b, rest);
    }
  }

  lemma {:induction false} EntryStep(d: Desc, i: nat, k: nat, cur: seq<Value>, s: seq<byte>, st: State)
    requires GoodState(d, st) && i < |d.fields| && d.fields[i].htype.IsArray() && !d.fields[i].ltype.Packable()
    requires st.slots[i] == Many(cur) && ArraySize(d, i, st) == Some(k) && k < d.fields[i].htype.Limit()
    requires WellFormedType(d.fields[i].ltype) && FitsSlot(d.fields[i], Many(cur))
    requires DecodeValue(d.fields[i].ltype, EntryBase(d.fields[i].ltype, cur, k), s).Ok?
    ensures var r := DecodeValue(d.fields[i].ltype, EntryBase(d.fields[i].ltype, cur, k), s);
            && FitsSlot(d.fields[i], Many(Put(cur, k, r.v)))
            && DecodeField(d, i, WireType(d.fields[i].ltype), s, st)
                 == Next(StoreArray(d, i, st, Put(cur, k, r.v), k + 1), r.used)
  {
    assert WellFormedField(d.fields[i], d.unions);
  }

  lemma {:induction false} RestoredArrayNext(f: Field, vs: seq<Value>, base: seq<Value>, k: nat)
    requires WellFormedType(f.ltype) && ArrayStart(f, vs, base) && k < |vs|
    ensures var cur, next := RestoredArray(f.ltype, vs, base, k), RestoredArray(f.ltype, vs, base, k + 1);
            && FitsSlot(f, Many(cur)) && FitsSlot(f, Many(next)) && k < |next|
            && EntryBase(f.ltype, cur, k) == EntryBase(f.ltype, base, k)
            && Put(cur, k, Restored(f.ltype, vs[k], EntryBase(f.ltype, base, k))) == next
  {
    RestoredArrayFits(f, vs, base, k);
    RestoredArrayFits(f, vs, base, k + 1);
    RestoredPut(f.ltype, vs, base, k);
  }

  lemma {:induction false} RestoredPut(t: LType, vs: seq<Value>, base: seq<Value>, k: nat)
    requires WellFormedType(t) && k < |vs| && AllFit(t, vs) && AllFit(t, base) && (base == [] || |base| == |vs|)
    ensures Put(RestoredArray(t, vs, base, k), k, Restored(t, vs[k], EntryBase(t, base, k))) == RestoredArray(t, vs, base, k + 1)
  {
    var r, next := Put(RestoredArray(t, vs, base, k), k, Restored(t, vs[k], EntryBase(t, base, k))), RestoredArray(t, vs, base, k + 1);
    assert |r| == |next|;
    forall j | 0 <= j < |next| ensures r[j] == next[j] {
    }
  }

  /** Receiving entry `k` leads from one array state to the next. */
  lemma {:induction false} EntryStored(d: Desc, m: Value, base: Value, i: nat, k: nat, next: seq<Value>)
    requires WellFormed(d) && Shaped(d, m) && Shaped(d, base)
    requires i < |d.fields| && d.fields[i].htype.IsArray() && WellFormedType(d.fields[i].ltype)
    requires FitsSlot(d.fields[i], m.slots[i]) && FitsSlot(d.fields[i], base.slots[i]) && k < |m.slots[i].vs|
    requires next == RestoredArray(d.fields[i].ltype, m.slots[i].vs, ArrayBase(d, base, i), k + 1)
    requires GoodState(d, ArrayStateAt(d, m, base, i, k)) && FitsSlot(d.fields[i], Many(next)) && k < |next|
    ensures StoreArray(d, i, ArrayStateAt(d, m, base, i, k), next, k + 1) == ArrayStateAt(d, m, base, i, k + 1)
  {
    var slots := StateAt(d, m, base, i).slots;
    assert ArrayStateAt(d, m, base, i, k).slots[i := Many(next)] == slots[i := Many(next)];
  }

  /** One entry of an array that is written entry by entry. */
  lemma {:induction false} EntryRoundTrip(d: Desc, m: Value, base: Value, i: nat, k: nat, rest: seq<byte>)
    requires WellFormed(d) && Shaped(d, m) && Shaped(d, base) && Clean(d, base)
    requires i < |d.fields| && d.fields[i].htype.IsArray() && !d.fields[i].ltype.Packable()
    requires FitsSlot(d.fields[i], m.slots[i]) && k < |m.slots[i].vs| <= d.fields[i].htype.Limit()
    requires ValueEncodable(d.fields[i].ltype, m.slots[i].vs[k])
    requires |EncodeValue(d.fields[i].ltype, m.slots[i].vs[k])| < TWO32
    ensures GoodState(d, ArrayStateAt(d, m, base, i, k)) && GoodState(d, ArrayStateAt(d, m, base, i, k + 1))
    ensures Run(d, EncodeTagged(d.fields[i].tag, d.fields[i].ltype, m.slots[i].vs[k]) + rest, ArrayStateAt(d, m, base, i, k))
         == Run(d, rest, ArrayStateAt(d, m, base, i, k + 1))
    decreases d, 0, 0
  {
    var f, vs, bs := d.fields[i], m.slots[i].vs, ArrayBase(d, base, i);
    ArrayStateAtGood(d, m, base, i, k);
    ArrayStateAtGood(d, m, base, i, k + 1);
    RestoredArrayNext(f, vs, bs, k);
    EntryStored(d, m, base, i, k, RestoredArray(f.ltype, vs, bs, k + 1));
    EntryBaseClean(f.ltype, bs, k);
    var payload := EncodeValue(f.ltype, vs[k]);
    ValueRoundTrip(f.ltype, vs[k], EntryBase(f.ltype, bs, k), rest);
    var st, st' := ArrayStateAt(d, m, base, i, k), ArrayStateAt(d, m, base, i, k + 1);
    EntryStep(d, i, k, RestoredArray(f.ltype, vs, bs, k), payload + rest, st);
    TaggedRun(d, i, WireType(f.ltype), payload, rest, st, st');
  }

  lemma {:induction false} UnpackedHead(tag: nat, t: LType, vs: seq<Value>, k: nat, rest: seq<byte>)
    requires k < |vs| && forall j :: 0 <= j < |vs| ==> FitsType(t, vs[j])
    ensures EncodeUnpacked(tag, t, vs[k..]) + rest == EncodeTagged(tag, t, vs[k]) + (EncodeUnpacked(tag, t, vs[k + 1..]) + rest)
    ensures |EncodeValue(t, vs[k])| + |EncodeUnpacked(tag, t, vs[k + 1..])| <= |EncodeUnpacked(tag, t, vs[k..])|
  {
    assert vs[k..][1..] == vs[k + 1..];
  }

  /** The array at `i` has non-packable entries that can all be encoded. */
  ghost predicate UnpackedArray(d: Desc, m: Value, base: Value, i: nat) {
    && WellFormed(d) && Shaped(d, m) && Shaped(d, base) && Clean(d, base)
    && i < |d.fields| && d.fields[i].htype.IsArray() && !d.fields[i].ltype.Packable()
    && FitsSlot(d.fields[i], m.slots[i]) && |m.slots[i].vs| <= d.fields[i].htype.Limit()
    && forall j :: 0 <= j < |m.slots[i].vs| ==> ValueEncodable(d.fields[i].ltype, m.slots[i].vs[j])
  }

  /** Entries `k` and up of that array. */
  ghost function UnpackedTail(d: Desc, m: Value, base: Value, i: nat, k: nat): seq<byte>
    requires UnpackedArray(d, m, base, i) && k <= |m.slots[i].vs|
  {
    EncodeUnpacked(d.fields[i].tag, d.fields[i].ltype, m.slots[i].vs[k..])
  }

  lemma {:induction false} UnpackedNext(d: Desc, m: Value, base: Value, i: nat, k: nat, rest: seq<byte>)
    requires UnpackedArray(d, m, base, i) && k < |m.slots[i].vs| && |UnpackedTail(d, m, base, i, k)| < TWO32
    ensures |UnpackedTail(d, m, base, i, k + 1)| < TWO32
    ensures GoodState(d, ArrayStateAt(d, m, base, i, k)) && GoodState(d, ArrayStateAt(d, m, base, i, k + 1))
    ensures Run(d, UnpackedTail(d, m, base, i, k) + rest, ArrayStateAt(d, m, base, i, k))
         == Run(d, UnpackedTail(d, m, base, i, k + 1) + rest, ArrayStateAt(d, m, base, i, k + 1))
    decreases d, 0, 1
  {
    var f, vs := d.fields[i], m.slots[i].vs;
    UnpackedHead(f.tag, f.ltype, vs, k, rest);
    EntryRoundTrip(d, m, base, i, k, UnpackedTail(d, m, base, i, k + 1) + rest);
  }

  lemma {:induction false} UnpackedEnd(d: Desc, m: Value, base: Value, i: nat, rest: seq<byte>)
    requires UnpackedArray(d, m, base, i)
    ensures var k := |m.slots[i].vs|;
            && GoodState(d, StateAt(d, m, base, i + 1)) && ArrayStateAt(d, m, base, i, k) == StateAt(d, m, base, i + 1)
            && UnpackedTail(d, m, base, i, k) + rest == rest
  {
    StateAtGood(d, m, base, i + 1);
    ArrayStateAtEnd(d, m, base, i);
  }

  lemma {:induction false} UnpackedRoundTrip(d: Desc, m: Value, base: Value, i: nat, k: nat, rest: seq<byte>)
    requires UnpackedArray(d, m, base, i) && k <= |m.slots[i].vs| && |UnpackedTail(d, m, base, i, k)| < TWO32
    ensures GoodState(d, ArrayStateAt(d, m, base, i, k)) && GoodState(d, StateAt(d, m, base, i + 1))
    ensures Run(d, UnpackedTail(d, m, base, i, k) + rest, ArrayStateAt(d, m, base, i, k))
         == Run(d, rest, StateAt(d, m, base, i + 1))
    decreases d, 1, |m.slots[i].vs| - k
  {
    if k == |m.slots[i].vs| {
      UnpackedEnd(d, m, base, i, rest);
    } else {
      UnpackedNext(d, m, base, i, k, rest);
      UnpackedRoundTrip(d, m, base, i, k + 1, rest);
    }
  }

  lemma {:induction false} PackedStep(d: Desc, i: nat, cur: seq<Value>, vs: seq<Value>, s: seq<byte>, st: State, a: nat, b: nat)
    requires GoodState(d, st) && i < |d.fields| && d.fields[i].htype.IsArray() && d.fields[i].ltype.Packable()
    requires st.slots[i] == Many(cur) && ArraySize(d, i, st) == Some(0)
    requires WellFormedType(d.fields[i].ltype) && FitsSlot(d.fields[i], Many(cur)) && FitsSlot(d.fields[i], Many(vs))
    requires Delimited(s) == Extent(a, b)
    requires DecodePacked(d.fields[i].ltype, s[a..b], cur, 0, d.fields[i].htype.Limit()) == Filled(vs, |vs|)
    ensures DecodeField(d, i, WT_STRING, s, st) == Next(StoreArray(d, i, st, vs, |vs|), b)
  {
    assert WellFormedField(d.fields[i], d.unions);
  }

  lemma {:induction false} PackedArrayRoundTrip(d: Desc, m: Value, base: Value, i: nat, rest: seq<byte>)
    requires WellFormed(d) && Shaped(d, m) && Shaped(d, base) && Clean(d, base)
    requires i < |d.fields| && d.fields[i].htype.IsArray() && d.fields[i].ltype.Packable()
    requires FitsSlot(d.fields[i], m.slots[i]) && 0 < |m.slots[i].vs| <= d.fields[i].htype.Limit()
    requires |EncodePacked(d.fields[i].ltype, m.slots[i].vs)| < TWO32
    ensures GoodState(d, StateAt(d, m, base, i)) && GoodState(d, StateAt(d, m, base, i + 1))
    ensures Run(d, Tag(d.fields[i].tag, WT_STRING) + Prefixed(EncodePacked(d.fields[i].ltype, m.slots[i].vs)) + rest, StateAt(d, m, base, i))
         == Run(d, rest, StateAt(d, m, base, i + 1))
  {
    StateAtGood(d, m, base, i);
    StateAtGood(d, m, base, i + 1);
    PackedDecodes(d, m, base, i, rest);
    TaggedRun(d, i, WT_STRING, Prefixed(EncodePacked(d.fields[i].ltype, m.slots[i].vs)), rest, StateAt(d, m, base, i), StateAt(d, m, base, i + 1));
  }

  /** Scalars replace what was there. */
  lemma {:induction false} RestoredScalars(t: LType, vs: seq<Value>, base: seq<Value>)
    requires t.Packable() && WellFormedType(t) && AllFit(t, vs) && AllFit(t, base) && (base == [] || |base| == |vs|)
    ensures RestoredArray(t, vs, base, 0) == base && RestoredArray(t, vs, base, |vs|) == vs
  {
  }

  /** The array before and after it is decoded. */
  lemma {:induction false} PackedStates(d: Desc, m: Value, base: Value, i: nat)
    requires WellFormed(d) && Shaped(d, m) && Shaped(d, base) && Clean(d, base)
    requires i < |d.fields| && d.fields[i].htype.IsArray() && d.fields[i].ltype.Packable()
    requires FitsSlot(d.fields[i], m.slots[i]) && 0 < |m.slots[i].vs| <= d.fields[i].htype.Limit()
    ensures GoodState(d, StateAt(d, m, base, i)) && GoodState(d, StateAt(d, m, base, i + 1))
    ensures FitsSlot(d.fields[i], Many(ArrayBase(d, base, i))) && FitsSlot(d.fields[i], Many(m.slots[i].vs))
    ensures StateAt(d, m, base, i).slots[i] == Many(ArrayBase(d, base, i)) && ArraySize(d, i, StateAt(d, m, base, i)) == Some(0)
    ensures StoreArray(d, i, StateAt(d, m, base, i), m.slots[i].vs, |m.slots[i].vs|) == StateAt(d, m, base, i + 1)
  {
    var f, vs, bs := d.fields[i], m.slots[i].vs, ArrayBase(d, base, i);
    StateAtGood(d, m, base, i);
    StateAtGood(d, m, base, i + 1);
    ArrayStateAtGood(d, m, base, i, 0);
    ArrayStateAtEnd(d, m, base, i);
    assert FitsSlot(f, Many(vs)) && FitsSlot(f, base.slots[i]);
    RestoredScalars(f.ltype, vs, bs);
  }

  lemma {:induction false} PackedDecodes(d: Desc, m: Value, base: Value, i: nat, rest: seq<byte>)
    requires WellFormed(d) && Shaped(d, m) && Shaped(d, base) && Clean(d, base)
    requires i < |d.fields| && d.fields[i].htype.IsArray() && d.fields[i].ltype.Packable()
    requires FitsSlot(d.fields[i], m.slots[i]) && 0 < |m.slots[i].vs| <= d.fields[i].htype.Limit()
    requires |EncodePacked(d.fields[i].ltype, m.slots[i].vs)| < TWO32
    ensures GoodState(d, StateAt(d, m, base, i))
    ensures var s := Prefixed(EncodePacked(d.fields[i].ltype, m.slots[i].vs));
            DecodeField(d, i, WT_STRING, s + rest, StateAt(d, m, base, i)) == Next(StateAt(d, m, base, i + 1), |s|)
  {
    var f, vs, bs := d.fields[i], m.slots[i].vs, ArrayBase(d, base, i);
    PackedStates(d, m, base, i);
    assert vs[0..] == vs;
    assert WellFormedField(f, d.unions);
    PackedRoundTrip(f.ltype, vs, 0, bs, f.htype.Limit());
    var body := EncodePacked(f.ltype, vs);
    PrefixedRoundTrip(body, rest);
    PackedStep(d, i, bs, vs, Prefixed(body) + rest, StateAt(d, m, base, i), |Base128(|body|)|, |Prefixed(body)|);
  }

  lemma {:induction false} ArrayRoundTrip(d: Desc, m: Value, base: Value, i: nat, rest: seq<byte>)
    requires WellFormed(d) && Shaped(d, m) && Shaped(d, base) && Clean(d, base)
    requires i < |d.fields| && d.fields[i].htype.IsArray()
    requires FitsSlot(d.fields[i], m.slots[i]) && |m.slots[i].vs| <= d.fields[i].htype.Limit()
    requires forall j :: 0 <= j < |m.slots[i].vs| ==> ValueEncodable(d.fields[i].ltype, m.slots[i].vs[j])
    requires |EncodeArray(d.fields[i].tag, d.fields[i].ltype, m.slots[i].vs)| < TWO32
    ensures GoodState(d, StateAt(d, m, base, i)) && GoodState(d, StateAt(d, m, base, i + 1))
    ensures Run(d, EncodeArray(d.fields[i].tag, d.fields[i].ltype, m.slots[i].vs) + rest, StateAt(d, m, base, i))
         == Run(d, rest, StateAt(d, m, base, i + 1))
    decreases d, 2, 0
  {
    var f, vs := d.fields[i], m.slots[i].vs;
    StateAtGood(d, m, base, i);
    StateAtGood(d, m, base, i + 1);
    if vs == [] {
      ArrayStateAtEnd(d, m, base, i);
      assert [] + rest == rest;
    } else if f.ltype.Packable() {
      PackedArrayRoundTrip(d, m, base, i, rest);
    } else {
      assert vs[0..] == vs;
      UnpackedRoundTrip(d, m, base, i, 0, rest);
    }
  }

  /** A struct that can be encoded, and clean memory to decode it into. */
  ghost predicate Trip(d: Desc, m: Value, base: Value) {
    WellFormed(d) && Shaped(d, m) && Shaped(d, base) && Clean(d, base)
  }

  lemma {:induction false} MemberRoundTrip(d: Desc, m: Value, base: Value, i: nat, rest: seq<byte>)
    requires Trip(d, m, base) && i < |d.fields| && d.fields[i].htype.Oneof?
    requires FitsUnion(d.fields[i], m.unions) && Present(d.fields[i], m.slots[i], m.unions, HasDefaults(d))
    requires FieldEncodable(d.fields[i], m.slots[i], m.unions, HasDefaults(d))
    requires |EncodeField(d.fields[i], m.slots[i], m.unions, HasDefaults(d))| < TWO32
    ensures GoodState(d, StateAt(d, m, base, i)) && GoodState(d, StateAt(d, m, base, i + 1))
    ensures Run(d, EncodeField(d.fields[i], m.slots[i], m.unions, HasDefaults(d)) + rest, StateAt(d, m, base, i))
         == Run(d, rest, StateAt(d, m, base, i + 1))
    decreases d, 2, 1
  {
    var f := d.fields[i];
    assert WellFormedField(f, d.unions) && FitsSlot(f, m.slots[i]);
    StateAtGood(d, m, base, i);
    StateAtGood(d, m, base, i + 1);
    var st, st' := StateAt(d, m, base, i), StateAt(d, m, base, i + 1);
    var g := f.htype.union;
    StateAtMember(d, m, base, i);
    UnionUnset(d, m, base, g, i, i);
    MemberBaseClean(f);
    assert MemberBase(f, st.unions[g]) == MemberBase(f, Union(0, Num(0)));
    ValueRoundTrip(f.ltype, m.unions[g].v, MemberBase(f, Union(0, Num(0))), rest);
    TaggedRun(d, i, WireType(f.ltype), EncodeValue(f.ltype, m.unions[g].v), rest, st, st');
  }

  lemma {:induction false} SingleRoundTrip(d: Desc, m: Value, base: Value, i: nat, rest: seq<byte>)
    requires Trip(d, m, base) && i < |d.fields| && !d.fields[i].htype.Oneof? && !d.fields[i].htype.IsArray()
    requires FitsUnion(d.fields[i], m.unions) && Present(d.fields[i], m.slots[i], m.unions, HasDefaults(d))
    requires FieldEncodable(d.fields[i], m.slots[i], m.unions, HasDefaults(d))
    requires |EncodeField(d.fields[i], m.slots[i], m.unions, HasDefaults(d))| < TWO32
    ensures GoodState(d, StateAt(d, m, base, i)) && GoodState(d, StateAt(d, m, base, i + 1))
    ensures Run(d, EncodeField(d.fields[i], m.slots[i], m.unions, HasDefaults(d)) + rest, StateAt(d, m, base, i))
         == Run(d, rest, StateAt(d, m, base, i + 1))
    decreases d, 2, 1
  {
    var f, s := d.fields[i], m.slots[i];
    assert WellFormedField(f, d.unions) && FitsSlot(f, s) && FitsSlot(f, base.slots[i]);
    assert CleanSlot(f, base.slots[i]);
    StateAtGood(d, m, base, i);
    StateAtGood(d, m, base, i + 1);
    var st, st' := StateAt(d, m, base, i), StateAt(d, m, base, i + 1);
    assert FitsType(f.ltype, s.v) && FitsType(f.ltype, base.slots[i].v);
    StateAtSingle(d, m, base, i);
    ValueRoundTrip(f.ltype, s.v, base.slots[i].v, rest);
    assert st.slots[i] == base.slots[i];
    TaggedRun(d, i, WireType(f.ltype), EncodeValue(f.ltype, s.v), rest, st, st');
  }

  lemma {:induction false} AbsentRoundTrip(d: Desc, m: Value, base: Value, i: nat, rest: seq<byte>)
    requires Trip(d, m, base) && i < |d.fields|
    requires FitsUnion(d.fields[i], m.unions) && !Present(d.fields[i], m.slots[i], m.unions, HasDefaults(d))
    ensures GoodState(d, StateAt(d, m, base, i)) && StateAt(d, m, base, i) == StateAt(d, m, base, i + 1)
    ensures EncodeField(d.fields[i], m.slots[i], m.unions, HasDefaults(d)) + rest == rest
  {
    StateAtGood(d, m, base, i);
    StateAtAbsent(d, m, base, i);
    assert [] + rest == rest;
  }

  lemma {:induction false} FieldRoundTrip(d: Desc, m: Value, base: Value, i: nat, rest: seq<byte>)
    requires Trip(d, m, base) && i < |d.fields|
    requires FieldEncodable(d.fields[i], m.slots[i], m.unions, HasDefaults(d))
    requires |EncodeField(d.fields[i], m.slots[i], m.unions, HasDefaults(d))| < TWO32
    ensures GoodState(d, StateAt(d, m, base, i)) && GoodState(d, StateAt(d, m, base, i + 1))
    ensures Run(d, EncodeField(d.fields[i], m.slots[i], m.unions, HasDefaults(d)) + rest, StateAt(d, m, base, i))
         == Run(d, rest, StateAt(d, m, base, i + 1))
    decreases d, 3, 0
  {
    var f := d.fields[i];
    assert WellFormedField(f, d.unions) && FitsSlot(f, m.slots[i]) && FitsUnion(f, m.unions);
    if !Present(f, m.slots[i], m.unions, HasDefaults(d)) {
      AbsentRoundTrip(d, m, base, i, rest);
    } else if f.htype.IsArray() {
      ArrayRoundTrip(d, m, base, i, rest);
    } else if f.htype.Oneof? {
      MemberRoundTrip(d, m, base, i, rest);
    } else {
      SingleRoundTrip(d, m, base, i, rest);
    }
  }

  /** One field, with the fields behind it. */
  lemma {:induction false} FieldThenRest(d: Desc, m: Value, base: Value, i: nat)
    requires WellFormed(d) && Shaped(d, m) && Shaped(d, base) && Clean(d, base) && Encodable(d, m)
    requires i < |d.fields| && |EncodeFields(d, m, i)| < TWO32
    ensures |EncodeFields(d, m, i + 1)| < TWO32
    ensures GoodState(d, StateAt(d, m, base, i)) && GoodState(d, StateAt(d, m, base, i + 1))
    ensures Run(d, EncodeFields(d, m, i), StateAt(d, m, base, i)) == Run(d, EncodeFields(d, m, i + 1), StateAt(d, m, base, i + 1))
    decreases d, 3, 1
  {
    var head := EncodeField(d.fields[i], m.slots[i], m.unions, HasDefaults(d));
    assert EncodeFields(d, m, i) == head + EncodeFields(d, m, i + 1);
    FieldRoundTrip(d, m, base, i, EncodeFields(d, m, i + 1));
  }

  lemma {:induction false} RunNothing(d: Desc, s: seq<byte>, st: State)
    requires GoodState(d, st) && s == []
    ensures Run(d, s, st) == Some(st)
  {
  }

  lemma {:induction false} ConstantChain(rs: seq<Option<State>>)
    requires rs != [] && forall k :: 0 <= k < |rs| - 1 ==> rs[k] == rs[k + 1]
    ensures rs[0] == rs[|rs| - 1]
  {
    if |rs| > 1 {
      ConstantChain(rs[..|rs| - 1]);
    }
  }

  lemma {:induction false} TailWithin(d: Desc, m: Value, i: nat)
    requires Shaped(d, m) && i <= |d.fields|
    ensures |EncodeFields(d, m, i)| <= |Encode(d, m)|
  {
    if i > 0 {
      TailWithin(d, m, i - 1);
    }
  }

  /** What decoding comes to when the first `i` fields are done. */
  ghost function Outcome(d: Desc, m: Value, base: Value, i: nat): Option<State>
    requires Trip(d, m, base) && i <= |d.fields|
  {
    StateAtGood(d, m, base, i);
    Run(d, EncodeFields(d, m, i), StateAt(d, m, base, i))
  }

  lemma {:induction false} OutcomeStays(d: Desc, m: Value, base: Value, i: nat)
    requires Trip(d, m, base) && Encodable(d, m) && i < |d.fields| && |Encode(d, m)| < TWO32
    ensures Outcome(d, m, base, i) == Outcome(d, m, base, i + 1)
    decreases d, 3, 2
  {
    TailWithin(d, m, i);
    FieldThenRest(d, m, base, i);
  }

  lemma {:induction false} OutcomeEnd(d: Desc, m: Value, base: Value)
    requires Trip(d, m, base)
    ensures Outcome(d, m, base, |d.fields|) == Some(StateAt(d, m, base, |d.fields|))
  {
    StateAtGood(d, m, base, |d.fields|);
    RunNothing(d, EncodeFields(d, m, |d.fields|), StateAt(d, m, base, |d.fields|));
  }

  lemma {:induction false} FieldsRoundTrip(d: Desc, m: Value, base: Value)
    requires Trip(d, m, base) && Encodable(d, m) && |Encode(d, m)| < TWO32
    ensures Outcome(d, m, base, 0) == Some(StateAt(d, m, base, |d.fields|))
    decreases d, 4, 0
  {
    var rs := seq(|d.fields| + 1, i requires 0 <= i <= |d.fields| => Outcome(d, m, base, i));
    forall k | 0 <= k < |d.fields| ensures rs[k] == rs[k + 1] {
      OutcomeStays(d, m, base, k);
    }
    ConstantChain(rs);
    OutcomeEnd(d, m, base);
  }

  lemma {:induction false} MsgRoundTrip(d: Desc, m: Value, base: Value)
    requires WellFormed(d) && Shaped(d, m) && Shaped(d, base) && Clean(d, base)
    requires Encodable(d, m) && |Encode(d, m)| < TWO32
    ensures DecodeMsg(d, Encode(d, m), base) == Some(RestoredMsg(d, m, base))
    decreases d, 5, 0
  {
    FieldsRoundTrip(d, m, base);
    StateAtGood(d, m, base, |d.fields|);
    var st := StateAt(d, m, base, |d.fields|);
    assert StateAt(d, m, base, 0) == Start(base) by {
      assert StateAt(d, m, base, 0).slots == base.slots;
      assert StateAt(d, m, base, 0).unions == base.unions;
    }
    assert Msg(st.slots, st.unions) == RestoredMsg(d, m, base) by {
      assert st.slots == RestoredMsg(d, m, base).slots;
      assert st.unions == RestoredMsg(d, m, base).unions;
    }
  }

  /** Round trip: whatever struct the encoder accepts, decoding what it wrote succeeds, into
      whatever memory, and yields that struct with absent fields at their defaults. */
  lemma {:induction false} DecodeUndoesEncode(d: Desc, m: Value, mem: Value)
    requires WellFormed(d) && Shaped(d, m) && Shaped(d, mem)
    requires Encodable(d, m) && |Encode(d, m)| < TWO32
    ensures Shaped(d, ToDefaults(d, mem))
    ensures Decode(d, Encode(d, m), mem) == Some(RestoredMsg(d, m, ToDefaults(d, mem)))
  {
    ToDefaultsClean(d, mem);
    MsgRoundTrip(d, m, ToDefaults(d, mem));
  }

  // ------------------------------------------------------------------
  // When the very same struct comes back
  // ------------------------------------------------------------------

  /** Strings without NUL, and submessages whose absent fields hold what `base` has. */
  predicate Canonical(t: LType, v: Value, base: Value)
    requires WellFormedType(t) && FitsType(t, v) && GoodBase(t, base)
    decreases t, 0
  {
    match t
    case String(_) => forall k :: 0 <= k < |v.b| ==> v.b[k] != 0
    case Submsg(d) => assert Shaped(d, v); CanonicalMsg(d, v, base)
    case _ => true
  }

  predicate CanonicalSlot(f: Field, s: Slot, us: seq<Union>, hasDefaults: bool, base: Slot, unions: nat)
    requires WellFormedField(f, unions) && FitsSlot(f, s) && FitsSlot(f, base)
    decreases f, 1
  {
    if !Present(f, s, us, hasDefaults) then s == base
    else
      match f.htype
      case Repeated(_) => forall k :: 0 <= k < |s.vs| ==> Canonical(f.ltype, s.vs[k], EntryBase(f.ltype, NO_ENTRIES, k))
      case FixArray(_) => forall k :: 0 <= k < |s.vs| ==> Canonical(f.ltype, s.vs[k], EntryBase(f.ltype, base.vs, k))
      case Oneof(_) => true
      case _ =>
        assert FitsType(f.ltype, s.v) && FitsType(f.ltype, base.v);
        Canonical(f.ltype, s.v, base.v)
  }

  predicate Names(d: Desc, i: nat, g: nat, which: nat)
    requires i < |d.fields|
  {
    d.fields[i].htype == Oneof(g) && which == d.fields[i].tag
  }

  predicate CanonicalMsg(d: Desc, m: Value, base: Value)
    requires WellFormed(d) && Shaped(d, m) && Shaped(d, base)
    decreases d, 1
  {
    && (forall i :: 0 <= i < |d.fields| ==>
          assert WellFormedField(d.fields[i], d.unions);
          CanonicalSlot(d.fields[i], m.slots[i], m.unions, HasDefaults(d), base.slots[i], d.unions))
    && (forall g, i :: 0 <= g < d.unions && 0 <= i < |d.fields| && Names(d, i, g, m.unions[g].which) ==>
          assert WellFormedField(d.fields[i], d.unions) && FitsUnion(d.fields[i], m.unions);
          Canonical(d.fields[i].ltype, m.unions[g].v, MemberBase(d.fields[i], Union(0, Num(0)))))
    && (forall g :: 0 <= g < d.unions && (forall i :: 0 <= i < |d.fields| ==> !Names(d, i, g, m.unions[g].which)) ==>
          m.unions[g] == base.unions[g])
  }

  lemma {:induction false} NoNul(b: seq<byte>)
    requires forall k :: 0 <= k < |b| ==> b[k] != 0
    ensures b[..StrLen(b)] == b
  {
    assert StrLen(b) == |b|;
  }

  lemma {:induction false} CanonicalRestored(t: LType, v: Value, base: Value)
    requires WellFormedType(t) && FitsType(t, v) && GoodBase(t, base) && Canonical(t, v, base)
    ensures Restored(t, v, base) == v
    decreases t, 0
  {
    if t.String? {
      NoNul(v.b);
    } else if t.Submsg? {
      assert Shaped(t.desc, v);
      CanonicalMsgRestored(t.desc, v, base);
    }
  }

  lemma {:induction false} CanonicalSlotRestored(f: Field, s: Slot, us: seq<Union>, hasDefaults: bool, base: Slot, unions: nat)
    requires WellFormedField(f, unions) && FitsSlot(f, s) && FitsSlot(f, base)
    requires CanonicalSlot(f, s, us, hasDefaults, base, unions)
    ensures RestoredSlot(f, s, us, hasDefaults, base, unions) == s
    decreases f, 1
  {
    if Present(f, s, us, hasDefaults) && !f.htype.Oneof? {
      if f.htype.IsArray() {
        var bs := if f.htype.Repeated? then NO_ENTRIES else base.vs;
        forall k | 0 <= k < |s.vs| ensures Restored(f.ltype, s.vs[k], EntryBase(f.ltype, bs, k)) == s.vs[k] {
          CanonicalRestored(f.ltype, s.vs[k], EntryBase(f.ltype, bs, k));
        }
        assert RestoredArray(f.ltype, s.vs, bs, |s.vs|) == s.vs;
      } else {
        assert FitsType(f.ltype, s.v) && FitsType(f.ltype, base.v);
        CanonicalRestored(f.ltype, s.v, base.v);
      }
    }
  }

  lemma {:induction false} CanonicalUnionRestored(d: Desc, m: Value, base: Value, g: nat, i: nat)
    requires WellFormed(d) && Shaped(d, m) && Shaped(d, base) && CanonicalMsg(d, m, base)
    requires g < d.unions && i <= |d.fields|
    ensures RestoredUnion(d, m, base, g, i)
         == if exists j :: 0 <= j < i && Names(d, j, g, m.unions[g].which) then m.unions[g] else base.unions[g]
    decreases d, 0, i
  {
    if i > 0 {
      CanonicalUnionRestored(d, m, base, g, i - 1);
      var f := d.fields[i - 1];
      if Names(d, i - 1, g, m.unions[g].which) {
        assert WellFormedField(f, d.unions) && FitsUnion(f, m.unions);
        CanonicalRestored(f.ltype, m.unions[g].v, MemberBase(f, Union(0, Num(0))));
      }
    }
  }

  lemma {:induction false} CanonicalMsgRestored(d: Desc, m: Value, base: Value)
    requires WellFormed(d) && Shaped(d, m) && Shaped(d, base) && CanonicalMsg(d, m, base)
    ensures RestoredMsg(d, m, base) == m
    decreases d, 1
  {
    forall i | 0 <= i < |d.fields| ensures SlotAt(d, m, base, i) == m.slots[i] {
      assert WellFormedField(d.fields[i], d.unions);
      CanonicalSlotRestored(d.fields[i], m.slots[i], m.unions, HasDefaults(d), base.slots[i], d.unions);
    }
    forall g | 0 <= g < d.unions ensures RestoredUnion(d, m, base, g, |d.fields|) == m.unions[g] {
      CanonicalUnionRestored(d, m, base, g, |d.fields|);
    }
    assert RestoredMsg(d, m, base).slots == m.slots;
    assert RestoredMsg(d, m, base).unions == m.unions;
  }

  /** A struct whose absent fields are at their defaults comes back exactly. */
  lemma {:induction false} RoundTripIdentity(d: Desc, m: Value, mem: Value)
    requires WellFormed(d) && Shaped(d, m) && Shaped(d, mem)
    requires Encodable(d, m) && |Encode(d, m)| < TWO32
    requires Shaped(d, ToDefaults(d, mem)) && CanonicalMsg(d, m, ToDefaults(d, mem))
    ensures Decode(d, Encode(d, m), mem) == Some(m)
  {
    DecodeUndoesEncode(d, m, mem);
    CanonicalMsgRestored(d, m, ToDefaults(d, mem));
  }
}
