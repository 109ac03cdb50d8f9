/** The generator's maximum encoded size, and the proof that `pb_encode` never writes more. */
module SizeBound {
  import opened Wire
  import opened Varint
  import opened Schema
  import opened Encoding

  // ------------------------------------------------------------------
  // The generator's arithmetic; `None` is the ValueError of varint_max_size
  // ------------------------------------------------------------------

  function Plus(a: Option<nat>, b: Option<nat>): Option<nat> {
    if a.None? || b.None? then None else Some(a.value + b.value)
  }

  function Max(a: Option<nat>, b: Option<nat>): Option<nat> {
    if a.None? || b.None? then None else if a.value < b.value then b else a
  }

  /** The loop of `varint_max_size`, with `v` shifted by `7 * (i - 1)` bits so far. */
  function GroupCount(v: nat, i: nat): (n: Option<nat>)
    requires 1 <= i <= 11
    ensures n.Some? ==> i <= n.value <= 10
    decreases 11 - i
  {
    if i == 11 then None else if v / 128 == 0 then Some(i) else GroupCount(v / 128, i + 1)
  }

  /** `varint_max_size`. For a negative value it takes `2**64 - max_value`. */
  function VarintMaxSize(v: int): (n: Option<nat>)
    ensures n.Some? ==> 1 <= n.value <= 10
  {
    GroupCount(if v < 0 then TWO64 - v else v, 1)
  }

  /** `Enum.encoded_size`. */
  function EnumBound(values: seq<int>): (n: Option<nat>)
    requires values != []
    ensures n.Some? ==> 1 <= n.value <= 10
  {
    if |values| == 1 then VarintMaxSize(values[0]) else Max(VarintMaxSize(values[0]), EnumBound(values[1..]))
  }

  /** Encoded size column of the `datatypes` table for sint and uint of `n` bytes. */
  function IntBound(n: nat): nat {
    if n == 1 then 2 else if n == 2 then 3 else if n == 4 then 5 else 10
  }

  /** Size of one value with its length prefix. */
  function TypeBound(t: LType): (n: Option<nat>)
    decreases t, 0
  {
    match t
    case Bool => Some(1)
    case Varint(_, declared) => if declared == [] then Some(10) else EnumBound(declared)
    case UVarint(size, declared) => if declared == [] then Some(IntBound(size)) else EnumBound(declared)
    case SVarint(size) => Some(IntBound(size))
    case Fixed32 => Some(4)
    case Fixed64 => Some(8)
    case Bytes(max) => Plus(VarintMaxSize(max), Some(max))
    case String(max) =>
      (match VarintMaxSize(max)
       case None => None
       case Some(k) => Some(k + max - 1))
    case FixedBytes(max) => Plus(VarintMaxSize(max), Some(max))
    case Submsg(d) =>
      match MsgBound(d)
      case None => None
      case Some(size) => Plus(Some(size), VarintMaxSize(size))
  }

  /** `Field.encoded_size`. */
  function FieldBound(f: Field): (n: Option<nat>)
    decreases f, 0
  {
    match Plus(TypeBound(f.ltype), VarintMaxSize(8 * f.tag))
    case None => None
    case Some(one) =>
      if f.htype.IsArray() then Some(f.htype.Limit() * one + if f.htype.Limit() == 1 then 1 else 0)
      else Some(one)
  }

  /** The fields outside oneofs. */
  function PlainBound(d: Desc, i: nat): (n: Option<nat>)
    requires i <= |d.fields|
    decreases d, 0, |d.fields| - i
  {
    if i == |d.fields| then Some(0)
    else if d.fields[i].htype.Oneof? then PlainBound(d, i + 1)
    else Plus(FieldBound(d.fields[i]), PlainBound(d, i + 1))
  }

  /** `OneOf.encoded_size`: the largest member of oneof `g`. */
  function LargestMember(d: Desc, g: nat, i: nat): (n: Option<nat>)
    requires i <= |d.fields|
    decreases d, 0, |d.fields| - i
  {
    if i == |d.fields| then Some(0)
    else if d.fields[i].htype == Oneof(g) then Max(FieldBound(d.fields[i]), LargestMember(d, g, i + 1))
    else LargestMember(d, g, i + 1)
  }

  function OneofsBound(d: Desc, n: nat): (r: Option<nat>)
    decreases d, 1, n
  {
    if n == 0 then Some(0) else Plus(OneofsBound(d, n - 1), LargestMember(d, n - 1, 0))
  }

  /** `Message.encoded_size`. */
  function MsgBound(d: Desc): (n: Option<nat>)
    decreases d, 2
  {
    Plus(PlainBound(d, 0), OneofsBound(d, d.unions))
  }

  // ------------------------------------------------------------------
  // Structs the bound is meant for
  // ------------------------------------------------------------------

  /** Enums hold declared values, and byte strings whose declared size is odd are no longer
      than that. */
  predicate ValueDeclared(t: LType, v: Value)
    requires FitsType(t, v)
    decreases t, 0
  {
    match t
    case Varint(_, declared) => declared == [] || v.i in declared
    case UVarint(_, declared) => declared == [] || v.i in declared
    case Bytes(max) => max % 2 == 0 || |v.b| <= max
    case Submsg(d) =>
      assert Shaped(d, v);
      forall i :: 0 <= i < |d.fields| ==> FieldDeclared(d.fields[i], v.slots[i], v.unions, HasDefaults(d))
    case _ => true
  }

  predicate FieldDeclared(f: Field, s: Slot, us: seq<Union>, hasDefaults: bool)
    requires FitsSlot(f, s) && FitsUnion(f, us)
    decreases f, 1
  {
    Present(f, s, us, hasDefaults) ==>
      match f.htype
      case Repeated(_) => forall k :: 0 <= k < |s.vs| ==> ValueDeclared(f.ltype, s.vs[k])
      case FixArray(_) => forall k :: 0 <= k < |s.vs| ==> ValueDeclared(f.ltype, s.vs[k])
      case Oneof(g) => ValueDeclared(f.ltype, us[g].v)
      case _ => assert FitsType(f.ltype, s.v); ValueDeclared(f.ltype, s.v)
  }

  predicate Declared(d: Desc, m: Value)
    requires Shaped(d, m)
  {
    forall i :: 0 <= i < |d.fields| ==> FieldDeclared(d.fields[i], m.slots[i], m.unions, HasDefaults(d))
  }

  // ------------------------------------------------------------------
  // Varints
  // ------------------------------------------------------------------

  /** `varint_max_size` is the number of bytes the encoder writes. */
  lemma {:induction false} GroupCountExact(v: nat, i: nat)
    requires 1 <= i <= 11 && GroupCount(v, i).Some?
    ensures |Base128(v)| == GroupCount(v, i).value - i + 1
    decreases 11 - i
  {
    if v / 128 != 0 {
      GroupCountExact(v / 128, i + 1);
    }
  }

  lemma {:induction false} VarintMaxSizeExact(v: int)
    requires VarintMaxSize(v).Some?
    ensures v >= 0 ==> VarintMaxSize(v).value == |Base128(v)|
    ensures -TWO63 <= v < 0 ==> |Base128(ToU64(v))| <= VarintMaxSize(v).value
  {
    if v >= 0 {
      GroupCountExact(v, 1);
    } else {
      GroupCountExact(TWO64 - v, 1);
      if v >= -TWO63 {
        Base128LengthMonotone(ToU64(v), TWO64 - v);
      }
    }
  }

  lemma {:induction false} EnumBoundHolds(values: seq<int>, v: int)
    requires values != [] && v in values && EnumBound(values).Some?
    ensures VarintMaxSize(v).Some? && VarintMaxSize(v).value <= EnumBound(values).value
  {
    if |values| > 1 && v != values[0] {
      EnumBoundHolds(values[1..], v);
    }
  }

  lemma {:induction false} HighPart(q: nat, r: nat)
    requires r < 128
    ensures |Base128(128 * q + r)| == if q == 0 then 1 else 1 + |Base128(q)|
  {
    assert (128 * q + r) / 128 == q;
  }

  /** The wire type never makes a tag longer. */
  lemma {:induction false} TagLength(tag: nat, wt: nat)
    requires wt < 8
    ensures |Tag(tag, wt)| == |Base128(8 * tag)|
  {
    var q, r := tag / 16, tag % 16;
    assert 8 * tag == 128 * q + 8 * r && 8 * r + wt < 128;
    HighPart(q, 8 * r);
    HighPart(q, 8 * r + wt);
  }

  /** A length is written in no more bytes than the largest one. */
  lemma {:induction false} PrefixedBound(body: seq<byte>, max: nat)
    requires |body| <= max && VarintMaxSize(max).Some?
    ensures |Prefixed(body)| <= VarintMaxSize(max).value + |body|
  {
    VarintMaxSizeExact(max);
    Base128LengthMonotone(|body|, max);
  }

  lemma {:induction false} CodeBound(t: LType, v: Value)
    requires (t.Bool? || t.Varint? || t.UVarint? || t.SVarint?) && WellFormedType(t) && FitsType(t, v)
    requires ValueDeclared(t, v) && TypeBound(t).Some?
    ensures |Base128(Code(t, v.i))| <= TypeBound(t).value <= 10
  {
    var u := Code(t, v.i);
    CapValues();
    Base128Length(u, 0);
    if (t.Varint? || t.UVarint?) && t.declared != [] {
      EnumBoundHolds(t.declared, v.i);
      VarintMaxSizeExact(v.i);
    } else if t.UVarint? || t.SVarint? {
      if t.SVarint? {
        ZigZagBijective(v.i, 0);
      }
      SmallLength(u, t.size);
    }
  }

  lemma {:induction false} LengthBelow(v: nat, n: nat)
    requires n >= 1 && v < Pow128(n)
    ensures |Base128(v)| <= n
  {
    if v >= 128 {
      LengthBelow(v / 128, n - 1);
    }
  }

  /** Lengths of the codes of one-, two- and four-byte integers. */
  lemma {:induction false} SmallLength(u: nat, n: nat)
    requires IntSize(n) && u < 2 * IntLimit(n)
    ensures |Base128(u)| <= IntBound(n)
  {
    assert Pow128(2) == 0x4000 && Pow128(3) == 0x20_0000 && Pow128(5) == 0x4000 * Pow128(3);
    if n == 8 {
      CapValues();
      Base128Length(u, 0);
    } else {
      LengthBelow(u, IntBound(n));
    }
  }

  // ------------------------------------------------------------------
  // Arrays
  // ------------------------------------------------------------------

  /** Every encoded entry is within `e` bytes. */
  ghost predicate EachWithin(t: LType, vs: seq<Value>, e: nat)
    requires AllFit(t, vs)
  {
    forall k :: 0 <= k < |vs| ==> |EncodeValue(t, vs[k])| <= e
  }

  lemma {:induction false} PackedLength(t: LType, vs: seq<Value>, e: nat)
    requires t.Packable() && AllFit(t, vs) && EachWithin(t, vs, e)
    ensures |EncodePacked(t, vs)| <= |vs| * e
  {
    if vs != [] {
      PackedLength(t, vs[1..], e);
      assert |vs| * e == (|vs| - 1) * e + e;
    }
  }

  lemma {:induction false} UnpackedLength(tag: nat, t: LType, vs: seq<Value>, e: nat)
    requires AllFit(t, vs) && EachWithin(t, vs, e)
    ensures |EncodeUnpacked(tag, t, vs)| <= |vs| * (e + |Base128(8 * tag)|)
  {
    if vs != [] {
      UnpackedLength(tag, t, vs[1..], e);
      TagLength(tag, WireType(t));
      var one := e + |Base128(8 * tag)|;
      assert |vs| * one == (|vs| - 1) * one + one;
    }
  }

  /** The length prefix of a packed array is paid for by the tags it saves. */
  lemma {:induction false} PrefixWithin(size: nat, n: nat)
    requires n >= 2 && size <= 10 * n
    ensures |Base128(size)| <= n - 1
    decreases n
  {
    if size >= 128 {
      PrefixWithin(size / 128, n - 1);
    }
  }

  lemma {:induction false} PackedWithin(count: nat, limit: nat, e: nat, tag: nat, size: nat)
    requires 1 <= count <= limit && e <= 10 && tag >= 1 && size <= count * e
    ensures tag + |Base128(size)| + size <= limit * (e + tag) + if limit == 1 then 1 else 0
  {
    Ordered(count, limit, e, 10);
    assert limit * (e + tag) == limit * e + limit * tag;
    if limit >= 2 {
      PrefixWithin(size, limit);
      Ordered(1, tag, limit - 1, limit - 1);
      assert limit * tag == tag * (limit - 1) + tag;
    }
  }

  lemma {:induction false} Ordered(a: nat, b: nat, x: nat, y: nat)
    requires a <= b && x <= y
    ensures a * x <= b * x <= b * y
  {
  }

  lemma {:induction false} PackedArrayBound(tag: nat, t: LType, vs: seq<Value>, limit: nat, e: nat)
    requires t.Packable() && 1 <= |vs| <= limit && AllFit(t, vs) && EachWithin(t, vs, e) && e <= 10
    ensures |EncodeArray(tag, t, vs)| <= limit * (e + |Base128(8 * tag)|) + if limit == 1 then 1 else 0
  {
    PackedLength(t, vs, e);
    TagLength(tag, WT_STRING);
    PackedWithin(|vs|, limit, e, |Base128(8 * tag)|, |EncodePacked(t, vs)|);
  }

  lemma {:induction false} UnpackedArrayBound(tag: nat, t: LType, vs: seq<Value>, limit: nat, e: nat)
    requires |vs| <= limit && AllFit(t, vs) && EachWithin(t, vs, e)
    ensures |EncodeUnpacked(tag, t, vs)| <= limit * (e + |Base128(8 * tag)|)
  {
    UnpackedLength(tag, t, vs, e);
    Ordered(|vs|, limit, e + |Base128(8 * tag)|, e + |Base128(8 * tag)|);
  }

  lemma {:induction false} ArrayBound(tag: nat, t: LType, vs: seq<Value>, limit: nat, e: nat)
    requires 1 <= limit && |vs| <= limit && AllFit(t, vs) && EachWithin(t, vs, e) && (t.Packable() ==> e <= 10)
    ensures |EncodeArray(tag, t, vs)| <= limit * (e + |Base128(8 * tag)|) + if limit == 1 then 1 else 0
  {
    if vs != [] && t.Packable() {
      PackedArrayBound(tag, t, vs, limit, e);
    } else {
      UnpackedArrayBound(tag, t, vs, limit, e);
    }
  }

  // ------------------------------------------------------------------
  // Values, fields, messages
  // ------------------------------------------------------------------

  lemma {:induction false} ValueBound(t: LType, v: Value)
    requires WellFormedType(t) && FitsType(t, v) && ValueEncodable(t, v) && ValueDeclared(t, v) && TypeBound(t).Some?
    ensures |EncodeValue(t, v)| <= TypeBound(t).value && (t.Packable() ==> TypeBound(t).value <= 10)
    decreases t, 0
  {
    if t.Bool? || t.Varint? || t.UVarint? || t.SVarint? {
      CodeBound(t, v);
    } else if t.Bytes? {
      PrefixedBound(v.b, t.maxSize);
    } else if t.String? {
      PrefixedBound(v.b[..StrLen(v.b)], t.dataSize);
    } else if t.FixedBytes? {
      PrefixedBound(v.b, t.length);
    } else if t.Submsg? {
      MsgBoundHolds(t.desc, v);
      PrefixedBound(EncodeFields(t.desc, v, 0), MsgBound(t.desc).value);
    }
  }

  lemma {:induction false} EntriesBound(t: LType, vs: seq<Value>)
    requires WellFormedType(t) && AllFit(t, vs) && TypeBound(t).Some?
    requires forall k :: 0 <= k < |vs| ==> ValueEncodable(t, vs[k]) && ValueDeclared(t, vs[k])
    ensures EachWithin(t, vs, TypeBound(t).value)
    decreases t, 1
  {
    forall k | 0 <= k < |vs| ensures |EncodeValue(t, vs[k])| <= TypeBound(t).value {
      ValueBound(t, vs[k]);
    }
  }

  lemma {:induction false} PackableBound(t: LType)
    requires t.Packable() && TypeBound(t).Some?
    ensures TypeBound(t).value <= 10
  {
  }

  lemma {:induction false} TaggedBound(f: Field, v: Value)
    requires WellFormedType(f.ltype) && FitsType(f.ltype, v) && ValueEncodable(f.ltype, v) && ValueDeclared(f.ltype, v)
    requires TypeBound(f.ltype).Some? && VarintMaxSize(8 * f.tag).Some?
    ensures |EncodeTagged(f.tag, f.ltype, v)| <= TypeBound(f.ltype).value + VarintMaxSize(8 * f.tag).value
    decreases f.ltype, 1
  {
    ValueBound(f.ltype, v);
    TagLength(f.tag, WireType(f.ltype));
    VarintMaxSizeExact(8 * f.tag);
  }

  lemma {:induction false} FieldBoundHolds(f: Field, s: Slot, us: seq<Union>, hasDefaults: bool, unions: nat)
    requires WellFormedField(f, unions) && FitsSlot(f, s) && FitsUnion(f, us)
    requires FieldEncodable(f, s, us, hasDefaults) && FieldDeclared(f, s, us, hasDefaults) && FieldBound(f).Some?
    ensures |EncodeField(f, s, us, hasDefaults)| <= FieldBound(f).value
    decreases f, 2
  {
    if Present(f, s, us, hasDefaults) {
      if f.htype.IsArray() {
        EntriesBound(f.ltype, s.vs);
        if f.ltype.Packable() {
          PackableBound(f.ltype);
        }
        VarintMaxSizeExact(8 * f.tag);
        ArrayBound(f.tag, f.ltype, s.vs, f.htype.Limit(), TypeBound(f.ltype).value);
      } else if f.htype.Oneof? {
        TaggedBound(f, us[f.htype.union].v);
      } else {
        assert FitsType(f.ltype, s.v);
        TaggedBound(f, s.v);
      }
    }
  }

  /** Some field from `i` on is the member oneof `g` has set. */
  predicate MemberAhead(d: Desc, us: seq<Union>, i: nat, g: nat)
    requires g < |us|
  {
    exists j :: i <= j < |d.fields| && d.fields[j].htype == Oneof(g) && d.fields[j].tag == us[g].which
  }

  /** What oneofs below `n` may still write from field `i` on. */
  ghost function Pending(d: Desc, us: seq<Union>, i: nat, n: nat): nat
    requires n <= |us| && i <= |d.fields| && OneofsBound(d, n).Some?
  {
    if n == 0 then 0
    else Pending(d, us, i, n - 1) + if MemberAhead(d, us, i, n - 1) then LargestMember(d, n - 1, 0).value else 0
  }

  lemma {:induction false} PendingWithin(d: Desc, us: seq<Union>, i: nat, n: nat)
    requires n <= |us| && i <= |d.fields| && OneofsBound(d, n).Some?
    ensures Pending(d, us, i, n) <= OneofsBound(d, n).value
  {
    if n > 0 {
      PendingWithin(d, us, i, n - 1);
    }
  }

  lemma {:induction false} MemberWithinLargest(d: Desc, g: nat, i: nat, j: nat)
    requires i <= j < |d.fields| && d.fields[j].htype == Oneof(g) && LargestMember(d, g, i).Some?
    ensures FieldBound(d.fields[j]).Some? && FieldBound(d.fields[j]).value <= LargestMember(d, g, i).value
    decreases j - i
  {
    if i < j {
      MemberWithinLargest(d, g, i + 1, j);
    }
  }

  /** Bytes field `i` takes out of what is pending: its own bound if it is the member set. */
  ghost function Taken(d: Desc, us: seq<Union>, i: nat, n: nat): nat
    requires i < |d.fields| && n <= |us| && OneofsBound(d, n).Some?
  {
    var f := d.fields[i];
    if f.htype.Oneof? && f.htype.union < n && us[f.htype.union].which == f.tag && FieldBound(f).Some? then FieldBound(f).value
    else 0
  }

  /** A oneof writes at most one member: once written, nothing of it is pending. */
  lemma {:induction false} PendingStep(d: Desc, us: seq<Union>, i: nat, n: nat)
    requires WellFormed(d) && i < |d.fields| && n <= |us| && OneofsBound(d, n).Some?
    ensures Taken(d, us, i, n) + Pending(d, us, i + 1, n) <= Pending(d, us, i, n)
  {
    if n > 0 {
      PendingStep(d, us, i, n - 1);
      var f := d.fields[i];
      if MemberAhead(d, us, i + 1, n - 1) {
        var j :| i + 1 <= j < |d.fields| && d.fields[j].htype == Oneof(n - 1) && d.fields[j].tag == us[n - 1].which;
        assert f.tag < d.fields[j].tag;
        assert MemberAhead(d, us, i, n - 1);
      } else if f.htype == Oneof(n - 1) && us[n - 1].which == f.tag {
        assert MemberAhead(d, us, i, n - 1);
        MemberWithinLargest(d, n - 1, 0, i);
      }
    }
  }

  /** A member is bounded when its oneof is. */
  lemma {:induction false} OneofBounded(d: Desc, g: nat, n: nat, j: nat)
    requires g < n && OneofsBound(d, n).Some? && j < |d.fields| && d.fields[j].htype == Oneof(g)
    ensures FieldBound(d.fields[j]).Some?
    decreases n
  {
    if g == n - 1 {
      MemberWithinLargest(d, g, 0, j);
    } else {
      OneofBounded(d, g, n - 1, j);
    }
  }

  lemma {:induction false} FieldsBound(d: Desc, m: Value, i: nat)
    requires WellFormed(d) && Shaped(d, m) && Encodable(d, m) && Declared(d, m) && i <= |d.fields|
    requires PlainBound(d, i).Some? && OneofsBound(d, d.unions).Some?
    ensures |EncodeFields(d, m, i)| <= PlainBound(d, i).value + Pending(d, m.unions, i, d.unions)
    decreases d, 3, |d.fields| - i
  {
    if i < |d.fields| {
      FieldsBound(d, m, i + 1);
      var f := d.fields[i];
      assert WellFormedField(f, d.unions) && FitsSlot(f, m.slots[i]) && FitsUnion(f, m.unions);
      PendingStep(d, m.unions, i, d.unions);
      if f.htype.Oneof? {
        OneofBounded(d, f.htype.union, d.unions, i);
      }
      FieldBoundHolds(f, m.slots[i], m.unions, HasDefaults(d), d.unions);
    }
  }

  /** The generated maximum size is a true bound for every struct that holds declared values. */
  lemma {:induction false} MsgBoundHolds(d: Desc, m: Value)
    requires WellFormed(d) && Shaped(d, m) && Encodable(d, m) && Declared(d, m) && MsgBound(d).Some?
    ensures |Encode(d, m)| <= MsgBound(d).value
    decreases d, 4
  {
    FieldsBound(d, m, 0);
    PendingWithin(d, m.unions, 0, d.unions);
  }

  // ------------------------------------------------------------------
  // Byte strings longer than declared
  // ------------------------------------------------------------------

  /** A bytes struct is padded to an even size and the encoder accepts what fits the padded
      struct. The bound covers every byte string the encoder accepts exactly when the
      declared size is even. */
  lemma {:induction false} BytesBoundExact(max: nat)
    requires WellFormedType(Bytes(max))
    ensures TypeBound(Bytes(max)).Some?
    ensures (forall b: seq<byte> :: FitsType(Bytes(max), Raw(b)) && ValueEncodable(Bytes(max), Raw(b)) ==>
               |EncodeValue(Bytes(max), Raw(b))| <= TypeBound(Bytes(max)).value)
            <==> max % 2 == 0
  {
    ShortVarint(max);
    if max % 2 == 0 {
      forall b: seq<byte> | FitsType(Bytes(max), Raw(b)) && ValueEncodable(Bytes(max), Raw(b))
        ensures |EncodeValue(Bytes(max), Raw(b))| <= TypeBound(Bytes(max)).value
      {
        PrefixedBound(b, max);
      }
    } else {
      var b: seq<byte> := seq(max + 1, _ => 0);
      VarintMaxSizeExact(max);
      Base128LengthMonotone(max, max + 1);
      assert FitsType(Bytes(max), Raw(b)) && ValueEncodable(Bytes(max), Raw(b));
      assert |EncodeValue(Bytes(max), Raw(b))| > TypeBound(Bytes(max)).value;
    }
  }

  /** The largest value the encoder accepts for a bytes field, and a slot or oneofs that hold as
      many of it as the field can. */
  function FullBytes(max: nat): (v: Value)
    ensures v.Raw? && |v.b| == max + max % 2
  {
    Raw(seq(max + max % 2, _ => 1))
  }

  function FullSlot(f: Field): Slot
    requires f.ltype.Bytes?
  {
    var v := FullBytes(f.ltype.maxSize);
    match f.htype
    case Optional => Single(true, v)
    case Repeated(n) => Many(seq(n, _ => v))
    case FixArray(n) => Many(seq(n, _ => v))
    case Oneof(_) => InUnion
    case _ => Single(false, v)
  }

  function FullUnions(f: Field): seq<Union>
    requires f.ltype.Bytes?
  {
    if f.htype.Oneof? then seq(f.htype.union + 1, _ => Union(f.tag, FullBytes(f.ltype.maxSize))) else []
  }

  lemma {:induction false} FullFits(f: Field, unions: nat)
    requires WellFormedField(f, unions) && f.ltype.Bytes? && f.ltype.maxSize % 2 == 1
    ensures FitsSlot(f, FullSlot(f)) && FitsUnion(f, FullUnions(f))
    ensures Present(f, FullSlot(f), FullUnions(f), false) && FieldEncodable(f, FullSlot(f), FullUnions(f), false)
  {
    var v := FullBytes(f.ltype.maxSize);
    assert FitsType(f.ltype, v) && ValueEncodable(f.ltype, v);
    assert v.b != [] && !IsZero(f.ltype, v);
  }

  /** Entries that are all alike add up. */
  lemma {:induction false} AlikeLength(tag: nat, t: LType, v: Value, vs: seq<Value>)
    requires FitsType(t, v) && AllFit(t, vs) && forall k :: 0 <= k < |vs| ==> vs[k] == v
    ensures |EncodeUnpacked(tag, t, vs)| == |vs| * |EncodeTagged(tag, t, v)|
  {
    if vs != [] {
      AlikeLength(tag, t, v, vs[1..]);
      var one := |EncodeTagged(tag, t, v)|;
      assert |vs| * one == (|vs| - 1) * one + one;
    }
  }

  /** The bound of a bytes field is never the generator's ValueError. */
  lemma {:induction false} BytesBounded(f: Field, unions: nat)
    requires WellFormedField(f, unions) && f.ltype.Bytes?
    ensures FieldBound(f).Some? && TypeBound(f.ltype).Some? && VarintMaxSize(8 * f.tag).Some?
  {
    ShortVarint(f.ltype.maxSize);
    ShortVarint(8 * f.tag);
  }

  /** Bytes over the bound of one entry when an odd bytes field is full: the padding, and one more
      when that makes the length prefix longer. */
  function Over(max: nat): (n: nat)
    ensures n >= 1
  {
    Base128LengthMonotone(max, max + 1);
    1 + |Base128(max + 1)| - |Base128(max)|
  }

  lemma {:induction false} BytesOver(f: Field, unions: nat)
    requires WellFormedField(f, unions) && f.ltype.Bytes? && f.ltype.maxSize % 2 == 1
    ensures TypeBound(f.ltype).Some? && VarintMaxSize(8 * f.tag).Some?
    ensures FitsType(f.ltype, FullBytes(f.ltype.maxSize))
    ensures |EncodeTagged(f.tag, f.ltype, FullBytes(f.ltype.maxSize))|
         == TypeBound(f.ltype).value + VarintMaxSize(8 * f.tag).value + Over(f.ltype.maxSize)
  {
    var max := f.ltype.maxSize;
    BytesBounded(f, unions);
    VarintMaxSizeExact(max);
    VarintMaxSizeExact(8 * f.tag);
    TagLength(f.tag, WT_STRING);
  }

  lemma {:induction false} FullArrayLength(f: Field, unions: nat)
    requires WellFormedField(f, unions) && f.ltype.Bytes? && f.ltype.maxSize % 2 == 1 && f.htype.IsArray()
    ensures FitsSlot(f, FullSlot(f)) && FitsUnion(f, FullUnions(f)) && FitsType(f.ltype, FullBytes(f.ltype.maxSize))
    ensures |EncodeField(f, FullSlot(f), FullUnions(f), false)| == f.htype.Limit() * |EncodeTagged(f.tag, f.ltype, FullBytes(f.ltype.maxSize))|
  {
    FullFits(f, unions);
    assert FitsType(f.ltype, FullBytes(f.ltype.maxSize));
    AlikeLength(f.tag, f.ltype, FullBytes(f.ltype.maxSize), FullSlot(f).vs);
  }

  lemma {:induction false} FullArrayOver(f: Field, unions: nat)
    requires WellFormedField(f, unions) && f.ltype.Bytes? && f.ltype.maxSize % 2 == 1 && f.htype.IsArray()
    ensures FitsSlot(f, FullSlot(f)) && FitsUnion(f, FullUnions(f)) && FieldBound(f).Some?
    ensures |EncodeField(f, FullSlot(f), FullUnions(f), false)|
         == FieldBound(f).value + f.htype.Limit() * Over(f.ltype.maxSize) - if f.htype.Limit() == 1 then 1 else 0
  {
    FullArrayLength(f, unions);
    BytesOver(f, unions);
    Distribute(f.htype.Limit(), TypeBound(f.ltype).value + VarintMaxSize(8 * f.tag).value, Over(f.ltype.maxSize));
  }

  lemma {:induction false} Distribute(n: nat, a: nat, b: nat)
    ensures n * (a + b) == n * a + n * b
  {
  }

  /** What a full field of odd declared size takes. */
  lemma {:induction false} FullOver(f: Field, unions: nat)
    requires WellFormedField(f, unions) && f.ltype.Bytes? && f.ltype.maxSize % 2 == 1
    ensures FitsSlot(f, FullSlot(f)) && FitsUnion(f, FullUnions(f)) && FieldBound(f).Some?
    ensures FieldEncodable(f, FullSlot(f), FullUnions(f), false)
    ensures !f.htype.IsArray() ==>
              |EncodeField(f, FullSlot(f), FullUnions(f), false)| == FieldBound(f).value + Over(f.ltype.maxSize)
    ensures f.htype.IsArray() ==>
              (|EncodeField(f, FullSlot(f), FullUnions(f), false)|
               == FieldBound(f).value + f.htype.Limit() * Over(f.ltype.maxSize) - if f.htype.Limit() == 1 then 1 else 0)
  {
    FullFits(f, unions);
    if f.htype.IsArray() {
      FullArrayOver(f, unions);
    } else {
      BytesOver(f, unions);
    }
  }

  /** The spare byte of a one-entry array is for the length prefix of a packed one, and a bytes
      array is not packed: it covers the padding, unless the prefix grows too. */
  predicate Covered(f: Field)
    requires f.ltype.Bytes?
  {
    f.ltype.maxSize % 2 == 0 || (f.htype.IsArray() && f.htype.Limit() == 1 && Over(f.ltype.maxSize) == 1)
  }

  lemma {:induction false} OneEntry(f: Field, v: Value, unions: nat)
    requires WellFormedField(f, unions) && f.ltype.Bytes? && FitsType(f.ltype, v) && ValueEncodable(f.ltype, v) && Over(f.ltype.maxSize) == 1
    ensures TypeBound(f.ltype).Some? && VarintMaxSize(8 * f.tag).Some?
    ensures |EncodeTagged(f.tag, f.ltype, v)| <= TypeBound(f.ltype).value + VarintMaxSize(8 * f.tag).value + 1
  {
    var max := f.ltype.maxSize;
    BytesBounded(f, unions);
    VarintMaxSizeExact(max);
    VarintMaxSizeExact(8 * f.tag);
    TagLength(f.tag, WT_STRING);
    Base128LengthMonotone(|v.b|, max + 1);
  }

  lemma {:induction false} SpareByte(f: Field, s: Slot, us: seq<Union>, unions: nat)
    requires WellFormedField(f, unions) && f.ltype.Bytes? && f.htype.IsArray() && f.htype.Limit() == 1 && Over(f.ltype.maxSize) == 1
    requires FitsSlot(f, s) && FitsUnion(f, us) && FieldEncodable(f, s, us, false) && FieldBound(f).Some?
    ensures |EncodeField(f, s, us, false)| <= FieldBound(f).value
  {
    if s.vs != [] {
      OneEntry(f, s.vs[0], unions);
      AlikeLength(f.tag, f.ltype, s.vs[0], s.vs);
    }
  }

  /** The bound of a bytes field, whatever its repetition rule, covers all the encoder accepts
      exactly when the declared size is even, or the spare byte of a one-entry array covers the
      padding. */
  lemma {:induction false} BytesFieldExact(f: Field, unions: nat)
    requires WellFormedField(f, unions) && f.ltype.Bytes?
    ensures FieldBound(f).Some?
    ensures (forall s, us :: FitsSlot(f, s) && FitsUnion(f, us) && FieldEncodable(f, s, us, false) ==>
               |EncodeField(f, s, us, false)| <= FieldBound(f).value)
            <==> Covered(f)
  {
    BytesBounded(f, unions);
    if Covered(f) {
      forall s, us | FitsSlot(f, s) && FitsUnion(f, us) && FieldEncodable(f, s, us, false)
        ensures |EncodeField(f, s, us, false)| <= FieldBound(f).value
      {
        if f.ltype.maxSize % 2 == 0 {
          FieldBoundHolds(f, s, us, false, unions);
        } else {
          SpareByte(f, s, us, unions);
        }
      }
    } else {
      FullOver(f, unions);
      if f.htype.IsArray() {
        Ordered(1, Over(f.ltype.maxSize), f.htype.Limit(), f.htype.Limit());
      }
    }
  }

  lemma {:induction false} OneFieldMessage(f: Field, m: Value)
    requires !f.htype.Oneof? && f.dflt.None?
    requires m.Msg? && |m.slots| == 1 && m.unions == [] && FitsSlot(f, m.slots[0])
    ensures var d := Desc([f], 0);
            && Shaped(d, m) && !HasDefaults(d)
            && (Encodable(d, m) <==> FieldEncodable(f, m.slots[0], [], false))
            && Encode(d, m) == EncodeField(f, m.slots[0], [], false)
            && MsgBound(d) == FieldBound(f)
  {
    var d := Desc([f], 0);
    assert d.fields[0] == f && FitsUnion(f, m.unions);
    assert Shaped(d, m);
    assert EncodeFields(d, m, 1) == [] && PlainBound(d, 1) == Some(0);
  }

  /** The same for a whole message that consists of such a field: an odd declared size breaks its
      maximum size, except where the spare byte hides it. */
  lemma {:induction false} BytesMessageExact(f: Field)
    requires WellFormedField(f, 0) && f.ltype.Bytes? && f.dflt.None?
    ensures MsgBound(Desc([f], 0)).Some?
    ensures (forall m :: Shaped(Desc([f], 0), m) && Encodable(Desc([f], 0), m) ==> |Encode(Desc([f], 0), m)| <= MsgBound(Desc([f], 0)).value)
            <==> Covered(f)
  {
    var d := Desc([f], 0);
    BytesFieldExact(f, 0);
    var full := Msg([FullSlot(f)], []);
    FullSlotFits(f);
    OneFieldMessage(f, full);
    if Covered(f) {
      forall m | Shaped(d, m) && Encodable(d, m) ensures |Encode(d, m)| <= MsgBound(d).value {
        assert FitsSlot(d.fields[0], m.slots[0]);
        OneFieldMessage(f, m);
        assert FitsUnion(f, []);
      }
    } else {
      FullOver(f, 0);
      assert FullUnions(f) == [];
      if f.htype.IsArray() {
        Ordered(1, Over(f.ltype.maxSize), f.htype.Limit(), f.htype.Limit());
      }
      assert Shaped(d, full) && Encodable(d, full) && |Encode(d, full)| > MsgBound(d).value;
    }
  }

  lemma {:induction false} FullSlotFits(f: Field)
    requires WellFormedField(f, 0) && f.ltype.Bytes?
    ensures FitsSlot(f, FullSlot(f))
  {
    assert FitsType(f.ltype, FullBytes(f.ltype.maxSize));
  }

  lemma {:induction false} ShortVarint(v: nat)
    requires v < 0x20_0000
    ensures VarintMaxSize(v).Some?
  {
    assert v / 128 < 0x4000 && v / 128 / 128 < 0x80 && v / 128 / 128 / 128 == 0;
    assert GroupCount(v / 128 / 128, 3).Some?;
    assert GroupCount(v / 128, 2).Some?;
  }

  /** A whole message over its bound: one required bytes field declared with size 1, holding
      two bytes. */
  lemma {:induction false} OddBytesExceedBound()
    ensures var d := Desc([Field(1, Required, Bytes(1), None)], 0);
            var m := Msg([Single(false, Raw([0, 0]))], []);
            WellFormed(d) && Shaped(d, m) && Encodable(d, m) && MsgBound(d) == Some(3) && |Encode(d, m)| == 4
  {
    var f := Field(1, Required, Bytes(1), None);
    var d := Desc([f], 0);
    var m := Msg([Single(false, Raw([0, 0]))], []);
    assert FitsSlot(f, m.slots[0]) && FitsUnion(f, m.unions) && Shaped(d, m);
    assert FieldBound(f) == Some(3);
    assert PlainBound(d, 1) == Some(0) && PlainBound(d, 0) == Some(3);
    assert EncodeValue(f.ltype, Raw([0, 0])) == [2] + [0, 0];
    assert |EncodeField(f, m.slots[0], m.unions, HasDefaults(d))| == 4;
    assert EncodeFields(d, m, 1) == [];
    assert EncodeFields(d, m, 0) == EncodeField(f, m.slots[0], m.unions, HasDefaults(d)) + EncodeFields(d, m, 1);
  }
}
