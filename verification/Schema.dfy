/** Message descriptors and the C structs they describe.

    Only static allocation is modelled. A descriptor is a finite tree, so everything below
    is defined by recursion on it. A struct is a value of `Value.Msg`: one slot per field in
    descriptor order, and one entry per oneof union. */
module Schema {
  import opened Wire

  /** The low nibble of a field's type byte with the sizes that go with it. `declared` lists
      the declared values of an enum field and is empty for a plain integer; only the
      generator's size bound looks at it. */
  datatype LType =
    | Bool
    | Varint(size: nat, declared: seq<int>)
    | UVarint(size: nat, declared: seq<int>)
    | SVarint(size: nat)
    | Fixed32
    | Fixed64
    | Bytes(maxSize: nat)
    | String(dataSize: nat)
    | FixedBytes(length: nat)
    | Submsg(desc: Desc)
  {
    /** `PB_LTYPE(type) <= PB_LTYPE_LAST_PACKABLE`. */
    predicate Packable() {
      Bool? || Varint? || UVarint? || SVarint? || Fixed32? || Fixed64?
    }

    /** `data_size - offsetof(pb_bytes_array_t, bytes)`: the struct is padded to an even size. */
    function Capacity(): nat
      requires Bytes?
    {
      maxSize + maxSize % 2
    }
  }

  /** Repetition rule. `Singular` is an optional field without a `has_` flag (proto3), and
      `FixArray` a repeated field without a count. */
  datatype HType =
    | Required
    | Optional
    | Singular
    | Repeated(max: nat)
    | FixArray(count: nat)
    | Oneof(union: nat)
  {
    predicate IsArray() { Repeated? || FixArray? }

    function Limit(): nat
      requires IsArray()
    {
      if Repeated? then max else count
    }
  }

  datatype Field = Field(tag: nat, htype: HType, ltype: LType, dflt: Option<Value>)

  /** `unions` is the number of oneofs of the message. */
  datatype Desc = Desc(fields: seq<Field>, unions: nat)

  datatype Value =
    | Num(i: int)
    | Raw(b: seq<byte>)
    | Msg(slots: seq<Slot>, unions: seq<Union>)

  /** `Single` holds `has` and the data; `has` is false where the struct has no such flag.
      `Many` holds the entries in use, and all entries of a fixed-count array. */
  datatype Slot = Single(has: bool, v: Value) | Many(vs: seq<Value>) | InUnion

  datatype Union = Union(which: nat, v: Value)

  const PB_SIZE_MAX := 65535

  // ------------------------------------------------------------------
  // Well-formed descriptors
  // ------------------------------------------------------------------

  predicate IntSize(n: nat) {
    n == 1 || n == 2 || n == 4 || n == 8
  }

  predicate WellFormedType(t: LType)
    decreases t
  {
    match t
    case Varint(n, _) => IntSize(n)
    case UVarint(n, _) => IntSize(n)
    case SVarint(n) => IntSize(n)
    case Bytes(n) => n + 3 <= PB_SIZE_MAX
    case String(n) => n <= PB_SIZE_MAX
    case FixedBytes(n) => 1 <= n <= PB_SIZE_MAX
    case Submsg(d) => WellFormed(d)
    case _ => true
  }

  predicate WellFormedField(f: Field, unions: nat)
    decreases f
  {
    && 1 <= f.tag <= PB_SIZE_MAX
    && WellFormedType(f.ltype)
    && (f.htype.IsArray() ==> 1 <= f.htype.Limit() < PB_SIZE_MAX)
    && (f.htype.Oneof? ==> f.htype.union < unions)
    && (f.dflt.Some? ==>
          && (f.htype.Required? || f.htype.Optional? || f.htype.Singular?)
          && !f.ltype.Submsg?
          && FitsType(f.ltype, f.dflt.value))
  }

  /** Tags are strictly increasing, as the generator emits them. */
  predicate WellFormed(d: Desc)
    decreases d
  {
    && (forall i :: 0 <= i < |d.fields| ==> WellFormedField(d.fields[i], d.unions))
    && (forall i, j :: 0 <= i < j < |d.fields| ==> d.fields[i].tag < d.fields[j].tag)
  }

  // ------------------------------------------------------------------
  // Structs of the described shape
  // ------------------------------------------------------------------

  function IntLimit(n: nat): (m: int)
    ensures 128 <= m <= TWO63
  {
    if n == 1 then 0x80 else if n == 2 then 0x8000 else if n == 4 then TWO31 else TWO63
  }

  /** What the C type of the data can hold. Raw memory of a string ends where its terminator
      is, or is too long when it has none. */
  predicate FitsType(t: LType, v: Value)
    decreases t
  {
    match t
    case Bool => v.Num? && 0 <= v.i <= 1
    case Varint(n, _) => v.Num? && -IntLimit(n) <= v.i < IntLimit(n)
    case UVarint(n, _) => v.Num? && 0 <= v.i < 2 * IntLimit(n)
    case SVarint(n) => v.Num? && -IntLimit(n) <= v.i < IntLimit(n)
    case Fixed32 => v.Num? && 0 <= v.i < TWO32
    case Fixed64 => v.Num? && 0 <= v.i < TWO64
    case Bytes(_) => v.Raw? && |v.b| <= PB_SIZE_MAX
    case String(n) => v.Raw? && |v.b| <= n
    case FixedBytes(n) => v.Raw? && |v.b| == n
    case Submsg(d) => Shaped(d, v)
  }

  ghost predicate AllFit(t: LType, vs: seq<Value>) {
    forall k :: 0 <= k < |vs| ==> FitsType(t, vs[k])
  }

  predicate FitsSlot(f: Field, s: Slot)
    decreases f
  {
    match f.htype
    case Required => s.Single? && !s.has && FitsType(f.ltype, s.v)
    case Optional => s.Single? && FitsType(f.ltype, s.v)
    case Singular => s.Single? && !s.has && FitsType(f.ltype, s.v)
    case Repeated(_) => s.Many? && |s.vs| <= PB_SIZE_MAX && forall k :: 0 <= k < |s.vs| ==> FitsType(f.ltype, s.vs[k])
    case FixArray(n) => s.Many? && |s.vs| == n && forall k :: 0 <= k < |s.vs| ==> FitsType(f.ltype, s.vs[k])
    case Oneof(_) => s.InUnion?
  }

  /** A union holds data of the member its `which` names. */
  predicate FitsUnion(f: Field, us: seq<Union>)
    decreases f
  {
    (f.htype.Oneof? && f.htype.union < |us| && us[f.htype.union].which == f.tag) ==>
      FitsType(f.ltype, us[f.htype.union].v)
  }

  predicate Shaped(d: Desc, m: Value)
    decreases d
  {
    && m.Msg?
    && |m.slots| == |d.fields|
    && |m.unions| == d.unions
    && (forall i :: 0 <= i < |d.fields| ==> FitsSlot(d.fields[i], m.slots[i]))
    && (forall i :: 0 <= i < |d.fields| ==> FitsUnion(d.fields[i], m.unions))
  }

  // ------------------------------------------------------------------
  // Zeroed memory and default values
  // ------------------------------------------------------------------

  function Zero(t: LType): Value
    decreases t, 0
  {
    match t
    case Bytes(_) => Raw([])
    case String(_) => Raw([])
    case FixedBytes(n) => Raw(seq(n, _ => 0))
    case Submsg(d) => ZeroMsg(d)
    case _ => Num(0)
  }

  function ZeroSlot(f: Field): Slot
    decreases f, 0
  {
    match f.htype
    case Repeated(_) => Many([])
    case FixArray(n) => Many(seq(n, _ => Zero(f.ltype)))
    case Oneof(_) => InUnion
    case _ => Single(false, Zero(f.ltype))
  }

  function ZeroMsg(d: Desc): Value
    decreases d, 0
  {
    Msg(seq(|d.fields|, i requires 0 <= i < |d.fields| => ZeroSlot(d.fields[i])),
        seq(d.unions, _ => Union(0, Num(0))))
  }

  /** `descriptor->default_value != NULL`. */
  predicate HasDefaults(d: Desc) {
    exists i :: 0 <= i < |d.fields| && d.fields[i].dflt.Some?
  }

  /** The submessage is walked field by field only when it has default values or submessages
      of its own; otherwise it is cleared in one go. */
  predicate NeedsInit(d: Desc) {
    HasDefaults(d) || exists i :: 0 <= i < |d.fields| && d.fields[i].ltype.Submsg?
  }

  /** One field of `pb_message_set_to_defaults`. Array contents are left alone. */
  function DefaultSlot(f: Field, s: Slot): Slot
    requires FitsSlot(f, s)
    decreases f, 0
  {
    match f.htype
    case Repeated(_) => Many([])
    case FixArray(_) => s
    case Oneof(_) => s
    case _ =>
      assert FitsType(f.ltype, s.v);
      Single(false,
             if f.dflt.Some? then f.dflt.value
             else if f.ltype.Submsg? && NeedsInit(f.ltype.desc) then ToDefaults(f.ltype.desc, s.v)
             else Zero(f.ltype))
  }

  function ToDefaults(d: Desc, m: Value): Value
    requires Shaped(d, m)
    decreases d, 0
  {
    Msg(seq(|d.fields|, i requires 0 <= i < |d.fields| => DefaultSlot(d.fields[i], m.slots[i])),
        seq(|m.unions|, g requires 0 <= g < |m.unions| => Union(0, m.unions[g].v)))
  }

  lemma {:induction false} ZeroFits(t: LType)
    requires WellFormedType(t)
    ensures FitsType(t, Zero(t))
    decreases t, 1
  {
    if t.Submsg? {
      ZeroMsgShaped(t.desc);
    }
  }

  lemma {:induction false} ZeroMsgShaped(d: Desc)
    requires WellFormed(d)
    ensures Shaped(d, ZeroMsg(d))
    decreases d, 1
  {
    forall i | 0 <= i < |d.fields|
      ensures FitsSlot(d.fields[i], ZeroSlot(d.fields[i])) && FitsUnion(d.fields[i], ZeroMsg(d).unions)
    {
      assert WellFormedField(d.fields[i], d.unions);
      ZeroFits(d.fields[i].ltype);
    }
  }

  /** What one field holds once defaults are set: the has flag is off, the count 0, and the data
      the declared default, or zero where there is none and nothing further down to set. */
  ghost predicate ResetSlot(f: Field, before: Slot, after: Slot)
    decreases f, 0
  {
    match f.htype
    case Repeated(_) => after == Many([])
    case FixArray(_) => after == before
    case Oneof(_) => after.InUnion?
    case _ =>
      && after.Single? && before.Single? && !after.has
      && (f.dflt.Some? ==> after.v == f.dflt.value)
      && (f.dflt.None? && !f.ltype.Submsg? ==> after.v == Zero(f.ltype))
      && (f.dflt.None? && f.ltype.Submsg? ==> if NeedsInit(f.ltype.desc) then ResetMsg(f.ltype.desc, before.v, after.v) else after.v == ZeroMsg(f.ltype.desc))
  }

  /** Every field is reset, at every depth, and no oneof has a member set. */
  ghost predicate ResetMsg(d: Desc, before: Value, after: Value)
    decreases d, 0
  {
    && before.Msg? && after.Msg? && |before.slots| == |after.slots| == |d.fields|
    && (forall i :: 0 <= i < |d.fields| ==> ResetSlot(d.fields[i], before.slots[i], after.slots[i]))
    && (forall g :: 0 <= g < |after.unions| ==> after.unions[g].which == 0)
  }

  lemma {:induction false} DefaultSlotFits(f: Field, s: Slot, unions: nat)
    requires WellFormedField(f, unions) && FitsSlot(f, s)
    ensures FitsSlot(f, DefaultSlot(f, s)) && ResetSlot(f, s, DefaultSlot(f, s))
    decreases f, 1
  {
    ZeroFits(f.ltype);
    if s.Single? {
      assert FitsType(f.ltype, s.v);
      if f.ltype.Submsg? {
        ToDefaultsShaped(f.ltype.desc, s.v);
      }
    }
  }

  /** Setting defaults yields a struct of the same shape, with every optional absent, every
      array empty, every oneof unset and every other value the default. */
  lemma {:induction false} ToDefaultsShaped(d: Desc, m: Value)
    requires WellFormed(d) && Shaped(d, m)
    ensures Shaped(d, ToDefaults(d, m)) && ResetMsg(d, m, ToDefaults(d, m))
    decreases d, 1
  {
    var r := ToDefaults(d, m);
    forall i | 0 <= i < |d.fields|
      ensures FitsSlot(d.fields[i], r.slots[i]) && FitsUnion(d.fields[i], r.unions)
      ensures ResetSlot(d.fields[i], m.slots[i], r.slots[i])
    {
      assert WellFormedField(d.fields[i], d.unions);
      DefaultSlotFits(d.fields[i], m.slots[i], d.unions);
    }
  }
}
