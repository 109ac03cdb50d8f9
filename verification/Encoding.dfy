/** What `pb_encode` writes, as a function of descriptor and struct. */
module Encoding {
  import opened Wire
  import opened Varint
  import opened Schema

  const WT_VARINT := 0
  const WT_64BIT := 1
  const WT_STRING := 2
  const WT_32BIT := 5

  function WireType(t: LType): (wt: nat)
    ensures wt < 8
  {
    match t
    case Fixed32 => WT_32BIT
    case Fixed64 => WT_64BIT
    case Bytes(_) => WT_STRING
    case String(_) => WT_STRING
    case FixedBytes(_) => WT_STRING
    case Submsg(_) => WT_STRING
    case _ => WT_VARINT
  }

  function Tag(tag: nat, wt: nat): (s: seq<byte>)
    requires wt < 8
    ensures |s| >= 1
  {
    Base128(8 * tag + wt)
  }

  function LittleEndian(v: nat, n: nat): (s: seq<byte>)
    ensures |s| == n
  {
    if n == 0 then [] else [v % 256] + LittleEndian(v / 256, n - 1)
  }

  /** The unsigned 64-bit number a varint field is written as. */
  function Code(t: LType, i: int): (u: nat)
    requires (t.Bool? || t.Varint? || t.UVarint? || t.SVarint?) && FitsType(t, Num(i))
    ensures u < TWO64
  {
    if t.Varint? then ToU64(i) else if t.SVarint? then ZigZag(i) else i
  }

  function Prefixed(body: seq<byte>): (s: seq<byte>)
    ensures |s| > |body|
  {
    Base128(|body|) + body
  }

  /** A value without its tag, but with its length prefix if it has one. */
  function EncodeValue(t: LType, v: Value): (s: seq<byte>)
    requires FitsType(t, v)
    ensures |s| >= 1
    decreases t, 0
  {
    match t
    case Fixed32 => LittleEndian(v.i, 4)
    case Fixed64 => LittleEndian(v.i, 8)
    case Bytes(_) => Prefixed(v.b)
    case String(_) => Prefixed(v.b[..StrLen(v.b)])
    case FixedBytes(_) => Prefixed(v.b)
    case Submsg(d) => Prefixed(EncodeFields(d, v, 0))
    case _ => Base128(Code(t, v.i))
  }

  function EncodeTagged(tag: nat, t: LType, v: Value): (s: seq<byte>)
    requires FitsType(t, v)
    decreases t, 1
  {
    Tag(tag, WireType(t)) + EncodeValue(t, v)
  }

  function EncodeUnpacked(tag: nat, t: LType, vs: seq<Value>): (s: seq<byte>)
    requires forall k :: 0 <= k < |vs| ==> FitsType(t, vs[k])
    decreases t, 2, |vs|
  {
    if vs == [] then [] else EncodeTagged(tag, t, vs[0]) + EncodeUnpacked(tag, t, vs[1..])
  }

  function EncodePacked(t: LType, vs: seq<Value>): (s: seq<byte>)
    requires t.Packable() && forall k :: 0 <= k < |vs| ==> FitsType(t, vs[k])
    decreases t, 2, |vs|
  {
    if vs == [] then [] else EncodeValue(t, vs[0]) + EncodePacked(t, vs[1..])
  }

  function EncodeArray(tag: nat, t: LType, vs: seq<Value>): (s: seq<byte>)
    requires forall k :: 0 <= k < |vs| ==> FitsType(t, vs[k])
    decreases t, 3
  {
    if vs == [] then []
    else if t.Packable() then Tag(tag, WT_STRING) + Prefixed(EncodePacked(t, vs))
    else EncodeUnpacked(tag, t, vs)
  }

  /** `pb_check_proto3_default_value`: the field need not be written. */
  predicate IsDefault(f: Field, s: Slot, us: seq<Union>, hasDefaults: bool)
    requires FitsSlot(f, s)
    decreases f, 1
  {
    match f.htype
    case Required => false
    case Repeated(_) => s.vs == []
    case FixArray(_) => s.vs == []
    case Oneof(g) => g < |us| && us[g].which == 0
    case Optional => !s.has
    case Singular => assert FitsType(f.ltype, s.v); !hasDefaults && IsZero(f.ltype, s.v)
  }

  predicate IsZero(t: LType, v: Value)
    requires FitsType(t, v)
    decreases t, 0
  {
    match t
    case Bytes(_) => v.b == []
    case String(_) => v.b == [] || v.b[0] == 0
    case FixedBytes(n) => n == 0
    case Submsg(d) =>
      assert Shaped(d, v);
      forall i :: 0 <= i < |d.fields| ==> IsDefault(d.fields[i], v.slots[i], v.unions, HasDefaults(d))
    case _ => v.i == 0
  }

  /** Whether `encode_field` writes the field at all. */
  predicate Present(f: Field, s: Slot, us: seq<Union>, hasDefaults: bool)
    requires FitsSlot(f, s)
  {
    match f.htype
    case Optional => s.has
    case Singular => !IsDefault(f, s, us, hasDefaults)
    case Oneof(g) => g < |us| && us[g].which == f.tag
    case _ => true
  }

  function EncodeField(f: Field, s: Slot, us: seq<Union>, hasDefaults: bool): (r: seq<byte>)
    requires FitsSlot(f, s) && FitsUnion(f, us)
    decreases f, 2
  {
    if !Present(f, s, us, hasDefaults) then []
    else
      match f.htype
      case Repeated(_) => EncodeArray(f.tag, f.ltype, s.vs)
      case FixArray(_) => EncodeArray(f.tag, f.ltype, s.vs)
      case Oneof(g) => EncodeTagged(f.tag, f.ltype, us[g].v)
      case _ => EncodeTagged(f.tag, f.ltype, s.v)
  }

  /** Fields `i` and up, in descriptor order. */
  function EncodeFields(d: Desc, m: Value, i: nat): (s: seq<byte>)
    requires Shaped(d, m) && i <= |d.fields|
    decreases d, 0, |d.fields| - i
  {
    if i == |d.fields| then []
    else EncodeField(d.fields[i], m.slots[i], m.unions, HasDefaults(d)) + EncodeFields(d, m, i + 1)
  }

  function Encode(d: Desc, m: Value): (s: seq<byte>)
    requires Shaped(d, m)
  {
    EncodeFields(d, m, 0)
  }

  // ------------------------------------------------------------------
  // When the encoder accepts the struct
  // ------------------------------------------------------------------

  predicate ValueEncodable(t: LType, v: Value)
    requires FitsType(t, v)
    decreases t, 0
  {
    match t
    case Bytes(_) => |v.b| <= t.Capacity()
    case String(n) => StrLen(v.b) < n
    case Submsg(d) =>
      assert Shaped(d, v);
      forall i :: 0 <= i < |d.fields| ==> FieldEncodable(d.fields[i], v.slots[i], v.unions, HasDefaults(d))
    case _ => true
  }

  /** Arrays within their limit, byte strings within their buffer, strings terminated; only
      fields that are written are looked at. */
  predicate FieldEncodable(f: Field, s: Slot, us: seq<Union>, hasDefaults: bool)
    requires FitsSlot(f, s) && FitsUnion(f, us)
    decreases f, 1
  {
    Present(f, s, us, hasDefaults) ==>
      match f.htype
      case Repeated(n) => |s.vs| <= n && forall k :: 0 <= k < |s.vs| ==> ValueEncodable(f.ltype, s.vs[k])
      case FixArray(_) => forall k :: 0 <= k < |s.vs| ==> ValueEncodable(f.ltype, s.vs[k])
      case Oneof(g) => ValueEncodable(f.ltype, us[g].v)
      case _ => assert FitsType(f.ltype, s.v); ValueEncodable(f.ltype, s.v)
  }

  predicate Encodable(d: Desc, m: Value)
    requires Shaped(d, m)
  {
    forall i :: 0 <= i < |d.fields| ==> FieldEncodable(d.fields[i], m.slots[i], m.unions, HasDefaults(d))
  }
}
