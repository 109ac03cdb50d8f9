/** What `pb_decode` makes of a byte string, as a function of descriptor, bytes and the
    struct decoded into. */
module Decoding {
  import opened Wire
  import opened Varint
  import opened Schema
  import opened Encoding

  datatype Read = Fail | Ok(v: Value, used: nat)

  /** State of `pb_decode_inner`: the struct, the fixed-count array being filled (or -1) with
      the number of entries received, and the required fields seen, by field index. */
  datatype State = State(slots: seq<Slot>, unions: seq<Union>, fixField: int, fixDone: nat, seen: set<nat>)

  datatype Stepped = Stuck | Next(st: State, used: nat)

  datatype Filled = Overfull | Filled(vs: seq<Value>, size: nat)

  const MAX_REQUIRED_FIELDS := 64

  // ------------------------------------------------------------------
  // Helpers on bytes
  // ------------------------------------------------------------------

  function FromLittleEndian(s: seq<byte>, n: nat): (v: nat)
    requires n <= |s|
  {
    if n == 0 then 0 else s[0] + 256 * FromLittleEndian(s[1..], n - 1)
  }

  /** Extent of a length-delimited payload: where it starts after its prefix, where it ends. */
  datatype Extent = NoExtent | Extent(start: nat, end: nat)

  function Delimited(s: seq<byte>): (e: Extent)
    ensures e.Extent? ==> 1 <= e.start <= e.end <= |s|
  {
    match Parse32(s)
    case Bad => NoExtent
    case Got(n, used) => if |s| - used < n then NoExtent else Extent(used, used + n)
  }

  function SkipVarint(s: seq<byte>): (n: Option<nat>)
    ensures n.Some? ==> 1 <= n.value <= |s|
  {
    if s == [] then None
    else if s[0] < 128 then Some(1)
    else
      match SkipVarint(s[1..])
      case None => None
      case Some(n) => Some(n + 1)
  }

  /** `pb_skip_field`: how many bytes a field payload of this wire type takes. */
  function Skip(wt: nat, s: seq<byte>): (n: Option<nat>)
    ensures n.Some? ==> 1 <= n.value <= |s|
  {
    if wt == WT_VARINT then SkipVarint(s)
    else if wt == WT_64BIT then if |s| < 8 then None else Some(8)
    else if wt == WT_STRING then (match Delimited(s) case NoExtent => None case Extent(_, end) => Some(end))
    else if wt == WT_32BIT then if |s| < 4 then None else Some(4)
    else None
  }

  /** Index of the field with this tag, or -1. */
  function FindField(d: Desc, tag: nat, from: nat := 0): (i: int)
    requires from <= |d.fields|
    ensures -1 <= i < |d.fields|
    ensures i >= 0 ==> from <= i && d.fields[i].tag == tag
    ensures i < 0 ==> forall j :: from <= j < |d.fields| ==> d.fields[j].tag != tag
    decreases |d.fields| - from
  {
    if from == |d.fields| then -1
    else if d.fields[from].tag == tag then from
    else FindField(d, tag, from + 1)
  }

  // ------------------------------------------------------------------
  // Values
  // ------------------------------------------------------------------

  function ToS32(u: nat): (x: int)
  {
    if u % TWO32 < TWO31 then u % TWO32 else u % TWO32 - TWO32
  }

  /** `pb_dec_varint`: cast to the field's size, refusing what does not fit. */
  function FromCode(t: LType, u: nat): (i: Option<int>)
    requires (t.Varint? || t.UVarint? || t.SVarint?) && u < TWO64
    ensures i.Some? ==> FitsType(t, Num(i.value))
  {
    if t.UVarint? then
      if u < 2 * IntLimit(t.size) then Some(u) else None
    else
      var x :=
        if t.SVarint? then UnZigZag(u)
        else if t.size == 8 then ToS64(u)
        else ToS32(u);
      if -IntLimit(t.size) <= x < IntLimit(t.size) then Some(x) else None
  }

  ghost predicate GoodBase(t: LType, base: Value) {
    t.Submsg? ==> Shaped(t.desc, base)
  }

  /** `decode_basic_field` behind its wire type check. A submessage is merged into `base`. */
  function DecodeValue(t: LType, base: Value, s: seq<byte>): (r: Read)
    requires WellFormedType(t) && GoodBase(t, base)
    ensures r.Ok? ==> 1 <= r.used <= |s| && FitsType(t, r.v)
    decreases |s|, 0
  {
    match t
    case Bool =>
      (match Parse32(s)
       case Bad => Fail
       case Got(u, n) => Ok(Num(if u != 0 then 1 else 0), n))
    case Fixed32 => if |s| < 4 then Fail else FromLittleEndianBound(s, 4); Ok(Num(FromLittleEndian(s, 4)), 4)
    case Fixed64 => if |s| < 8 then Fail else FromLittleEndianBound(s, 8); Ok(Num(FromLittleEndian(s, 8)), 8)
    case Bytes(_) =>
      (match Delimited(s)
       case NoExtent => Fail
       case Extent(a, b) => if b - a > PB_SIZE_MAX || b - a > t.Capacity() then Fail else Ok(Raw(s[a..b]), b))
    case String(n) =>
      (match Delimited(s)
       case NoExtent => Fail
       case Extent(a, b) => if b - a + 1 > n then Fail else Ok(Raw(s[a..b]), b))
    case FixedBytes(n) =>
      (match Delimited(s)
       case NoExtent => Fail
       case Extent(a, b) =>
         if b == a then Ok(Raw(seq(n, _ => 0)), b) else if b - a != n then Fail else Ok(Raw(s[a..b]), b))
    case Submsg(d) =>
      (match Delimited(s)
       case NoExtent => Fail
       case Extent(a, b) =>
         match DecodeMsg(d, s[a..b], base)
         case None => Fail
         case Some(m) => Ok(m, b))
    case Varint(_, _) => DecodeVarint(t, s)
    case UVarint(_, _) => DecodeVarint(t, s)
    case SVarint(_) => DecodeVarint(t, s)
  }

  function DecodeVarint(t: LType, s: seq<byte>): (r: Read)
    requires t.Varint? || t.UVarint? || t.SVarint?
    ensures r.Ok? ==> 1 <= r.used <= |s| && FitsType(t, r.v)
  {
    match Parse64(s)
    case Bad => Fail
    case Got(u, n) =>
      match FromCode(t, u)
      case None => Fail
      case Some(i) => Ok(Num(i), n)
  }

  lemma {:induction false} FromLittleEndianBound(s: seq<byte>, n: nat)
    requires n <= |s| && n <= 8
    ensures n == 4 ==> FromLittleEndian(s, n) < TWO32
    ensures n == 8 ==> FromLittleEndian(s, n) < TWO64
  {
    FromLittleEndianBelow(s, n);
    assert Pow256(4) == TWO32;
    assert Pow256(8) == 256 * 256 * 256 * 256 * Pow256(4);
  }

  function Pow256(n: nat): nat {
    if n == 0 then 1 else 256 * Pow256(n - 1)
  }

  lemma {:induction false} FromLittleEndianBelow(s: seq<byte>, n: nat)
    requires n <= |s|
    ensures FromLittleEndian(s, n) < Pow256(n)
  {
    if n > 0 {
      FromLittleEndianBelow(s[1..], n - 1);
    }
  }

  // ------------------------------------------------------------------
  // Fields
  // ------------------------------------------------------------------

  /** Memory a submessage entry of an array is decoded into: defaults over what was there,
      or over zeroed memory for an entry not in use. */
  function EntryBase(t: LType, vs: seq<Value>, k: nat): (v: Value)
    requires WellFormedType(t) && forall j :: 0 <= j < |vs| ==> FitsType(t, vs[j])
    ensures GoodBase(t, v)
  {
    if !t.Submsg? then Num(0)
    else
      ZeroMsgShaped(t.desc);
      var old' := if k < |vs| then vs[k] else ZeroMsg(t.desc);
      assert Shaped(t.desc, old') by { if k < |vs| { assert FitsType(t, vs[k]); } }
      ToDefaultsShaped(t.desc, old');
      ToDefaults(t.desc, old')
  }

  /** Memory a oneof submessage is decoded into when another member was set. */
  function FreshMsg(d: Desc): (v: Value)
    requires WellFormed(d)
    ensures Shaped(d, v)
  {
    ZeroMsgShaped(d);
    ToDefaultsShaped(d, ZeroMsg(d));
    if NeedsInit(d) then ToDefaults(d, ZeroMsg(d)) else ZeroMsg(d)
  }

  /** Memory the oneof member `f` is decoded into. */
  function MemberBase(f: Field, u: Union): (v: Value)
    requires WellFormedType(f.ltype) && (u.which == f.tag ==> FitsType(f.ltype, u.v))
    ensures GoodBase(f.ltype, v)
  {
    if !f.ltype.Submsg? then Num(0)
    else
      assert WellFormed(f.ltype.desc);
      if u.which == f.tag then u.v else FreshMsg(f.ltype.desc)
  }

  function Put(vs: seq<Value>, k: nat, v: Value): (r: seq<Value>)
    requires k <= |vs|
  {
    if k < |vs| then vs[k := v] else vs + [v]
  }

  /** Fill an array from a packed payload until the payload is used up. */
  function DecodePacked(t: LType, s: seq<byte>, vs: seq<Value>, size: nat, limit: nat): (r: Filled)
    requires t.Packable() && WellFormedType(t) && size <= |vs|
    requires forall k :: 0 <= k < |vs| ==> FitsType(t, vs[k])
    ensures r.Filled? ==> size <= r.size <= |r.vs| && (r.size == size || r.size <= limit)
    ensures r.Filled? ==> |r.vs| == if r.size > |vs| then r.size else |vs|
    ensures r.Filled? ==> forall k :: 0 <= k < |r.vs| ==> FitsType(t, r.vs[k])
    decreases |s|, 1
  {
    if s == [] then Filled(vs, size)
    else if size >= limit then Overfull
    else
      match DecodeValue(t, Num(0), s)
      case Fail => Overfull
      case Ok(v, n) => DecodePacked(t, s[n..], Put(vs, size, v), size + 1, limit)
  }

  /** Count of required fields before field `i`. */
  function RequiredIndex(d: Desc, i: nat): (n: nat)
    requires i <= |d.fields|
  {
    if i == 0 then 0 else RequiredIndex(d, i - 1) + if d.fields[i - 1].htype.Required? then 1 else 0
  }

  /** The fixed-count array begun last has all its entries. */
  predicate FixComplete(d: Desc, st: State)
    requires st.fixField < |d.fields|
    requires st.fixField >= 0 ==> d.fields[st.fixField].htype.FixArray?
  {
    st.fixField >= 0 ==> st.fixDone == d.fields[st.fixField].htype.count
  }

  ghost predicate GoodState(d: Desc, st: State) {
    && WellFormed(d)
    && Shaped(d, Msg(st.slots, st.unions))
    && -1 <= st.fixField < |d.fields|
    && (st.fixField >= 0 ==> d.fields[st.fixField].htype.FixArray? && st.fixDone <= d.fields[st.fixField].htype.count)
    && (forall i :: i in st.seen ==> i < |d.fields| && d.fields[i].htype.Required?)
  }

  /** Replacing one slot by one that fits keeps the state good. */
  lemma {:induction false} SlotUpdateGood(d: Desc, st: State, i: nat, s: Slot)
    requires GoodState(d, st) && i < |d.fields| && FitsSlot(d.fields[i], s)
    ensures GoodState(d, st.(slots := st.slots[i := s]))
  {
    var m := Msg(st.slots[i := s], st.unions);
    assert Shaped(d, m) by {
      forall j | 0 <= j < |d.fields| ensures FitsSlot(d.fields[j], m.slots[j]) && FitsUnion(d.fields[j], m.unions) {
        assert FitsSlot(d.fields[j], st.slots[j]) && FitsUnion(d.fields[j], st.unions);
      }
    }
  }

  lemma {:induction false} UnionUpdateGood(d: Desc, st: State, i: nat, v: Value)
    requires GoodState(d, st) && i < |d.fields| && d.fields[i].htype.Oneof? && FitsType(d.fields[i].ltype, v)
    ensures d.fields[i].htype.union < |st.unions|
    ensures GoodState(d, st.(unions := st.unions[d.fields[i].htype.union := Union(d.fields[i].tag, v)]))
  {
    var f := d.fields[i];
    assert WellFormedField(f, d.unions);
    var m := Msg(st.slots, st.unions[f.htype.union := Union(f.tag, v)]);
    forall j | 0 <= j < |d.fields| ensures FitsSlot(d.fields[j], m.slots[j]) && FitsUnion(d.fields[j], m.unions) {
      assert FitsSlot(d.fields[j], st.slots[j]) && FitsUnion(d.fields[j], st.unions);
    }
  }

  /** Entries the array at `i` has so far; a fixed-count array can only be begun when the one
      before it is complete. */
  function ArraySize(d: Desc, i: nat, st: State): (n: Option<nat>)
    requires GoodState(d, st) && i < |d.fields| && d.fields[i].htype.IsArray()
    ensures n.Some? ==> st.slots[i].Many? && n.value <= |st.slots[i].vs|
    ensures n.Some? && d.fields[i].htype.Repeated? ==> n.value == |st.slots[i].vs|
  {
    assert FitsSlot(d.fields[i], st.slots[i]);
    if d.fields[i].htype.Repeated? then Some(|st.slots[i].vs|)
    else if st.fixField == i then Some(st.fixDone)
    else if FixComplete(d, st) then Some(0)
    else None
  }

  /** The state after the array at `i` has been filled up to `size` entries. */
  function StoreArray(d: Desc, i: nat, st: State, vs: seq<Value>, size: nat): (r: State)
    requires GoodState(d, st) && i < |d.fields| && d.fields[i].htype.IsArray()
    requires FitsSlot(d.fields[i], Many(vs)) && size <= |vs|
    ensures GoodState(d, r)
  {
    SlotUpdateGood(d, st, i, Many(vs));
    var st' := st.(slots := st.slots[i := Many(vs)]);
    if d.fields[i].htype.FixArray? then st'.(fixField := i, fixDone := size) else st'
  }

  /** `decode_static_field` for repeated fields. */
  function DecodeArray(d: Desc, i: nat, wt: nat, s: seq<byte>, st: State): (r: Stepped)
    requires GoodState(d, st) && i < |d.fields| && d.fields[i].htype.IsArray()
    ensures r.Next? ==> 1 <= r.used <= |s| && GoodState(d, r.st)
    decreases |s|, 2
  {
    var f := d.fields[i];
    assert WellFormedField(f, d.unions) && FitsSlot(f, st.slots[i]);
    match ArraySize(d, i, st)
    case None => Stuck
    case Some(size) =>
      var vs := st.slots[i].vs;
      if wt == WT_STRING && f.ltype.Packable() then
        match Delimited(s)
        case NoExtent => Stuck
        case Extent(a, b) =>
          (match DecodePacked(f.ltype, s[a..b], vs, size, f.htype.Limit())
           case Overfull => Stuck
           case Filled(vs', size') => Next(StoreArray(d, i, st, vs', size'), b))
      else if size >= f.htype.Limit() || wt != WireType(f.ltype) then Stuck
      else
        match DecodeValue(f.ltype, EntryBase(f.ltype, vs, size), s)
        case Fail => Stuck
        case Ok(v, n) => Next(StoreArray(d, i, st, Put(vs, size, v), size + 1), n)
  }

  /** `decode_static_field`. */
  function DecodeField(d: Desc, i: nat, wt: nat, s: seq<byte>, st: State): (r: Stepped)
    requires GoodState(d, st) && i < |d.fields|
    ensures r.Next? ==> 1 <= r.used <= |s| && GoodState(d, r.st)
    decreases |s|, 3
  {
    var f := d.fields[i];
    assert WellFormedField(f, d.unions) && FitsSlot(f, st.slots[i]) && FitsUnion(f, st.unions);
    if f.htype.IsArray() then DecodeArray(d, i, wt, s, st)
    else if wt != WireType(f.ltype) then Stuck
    else if f.htype.Oneof? then
      match DecodeValue(f.ltype, MemberBase(f, st.unions[f.htype.union]), s)
      case Fail => Stuck
      case Ok(v, n) =>
        UnionUpdateGood(d, st, i, v);
        Next(st.(unions := st.unions[f.htype.union := Union(f.tag, v)]), n)
    else
      assert FitsType(f.ltype, st.slots[i].v);
      match DecodeValue(f.ltype, st.slots[i].v, s)
      case Fail => Stuck
      case Ok(v, n) =>
        SlotUpdateGood(d, st, i, Single(f.htype.Optional?, v));
        Next(st.(slots := st.slots[i := Single(f.htype.Optional?, v)],
                 seen := if f.htype.Required? then st.seen + {i} else st.seen), n)
  }

  /** One round of the loop in `pb_decode_inner`: a tag, then a field or a skip. */
  function Step(d: Desc, s: seq<byte>, st: State): (r: Stepped)
    requires GoodState(d, st)
    ensures r.Next? ==> 1 <= r.used <= |s| && GoodState(d, r.st)
    decreases |s|, 4
  {
    match Parse32(s)
    case Bad => Stuck
    case Got(key, n) =>
      var tag, wt, rest := key / 8, key % 8, s[n..];
      if tag == 0 then Stuck
      else
        var i := FindField(d, tag);
        if i < 0 then
          match Skip(wt, rest)
          case None => Stuck
          case Some(k) => Next(st, n + k)
        else
          match DecodeField(d, i, wt, rest, st)
          case Stuck => Stuck
          case Next(st', k) => Next(st', n + k)
  }

  function Run(d: Desc, s: seq<byte>, st: State): (r: Option<State>)
    requires GoodState(d, st)
    ensures r.Some? ==> GoodState(d, r.value)
    decreases |s|, 5
  {
    if s == [] then Some(st)
    else
      match Step(d, s, st)
      case Stuck => None
      case Next(st', n) => Run(d, s[n..], st')
  }

  /** All required fields are among `seen`, as far as they are tracked: past the 64th they
      are not. */
  predicate RequiredSeen(d: Desc, seen: set<nat>) {
    forall i :: 0 <= i < |d.fields| && d.fields[i].htype.Required? && RequiredIndex(d, i) < MAX_REQUIRED_FIELDS ==> i in seen
  }

  /** The checks after the loop. */
  predicate Complete(d: Desc, st: State)
    requires GoodState(d, st)
  {
    FixComplete(d, st) && RequiredSeen(d, st.seen)
  }

  function Start(m: Value): State
    requires m.Msg?
  {
    State(m.slots, m.unions, -1, 0, {})
  }

  lemma {:induction false} StartGood(d: Desc, m: Value)
    requires WellFormed(d) && Shaped(d, m)
    ensures GoodState(d, Start(m))
  {
    assert Msg(m.slots, m.unions) == m;
  }

  /** `pb_decode_inner` without initialisation. */
  function DecodeMsg(d: Desc, s: seq<byte>, base: Value): (r: Option<Value>)
    requires WellFormed(d) && Shaped(d, base)
    ensures r.Some? ==> Shaped(d, r.value)
    decreases |s|, 6
  {
    StartGood(d, base);
    match Run(d, s, Start(base))
    case None => None
    case Some(st) => if Complete(d, st) then Some(Msg(st.slots, st.unions)) else None
  }

  /** `pb_decode` into memory holding `mem`. */
  function Decode(d: Desc, s: seq<byte>, mem: Value): (r: Option<Value>)
    requires WellFormed(d) && Shaped(d, mem)
    ensures r.Some? ==> Shaped(d, r.value)
  {
    ToDefaultsShaped(d, mem);
    DecodeMsg(d, s, ToDefaults(d, mem))
  }
}
