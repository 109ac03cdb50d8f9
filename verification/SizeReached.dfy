/** The generated maximum size is not larger than it has to be: where it is reached. */
module SizeReached {
  import opened Wire
  import opened Varint
  import opened Schema
  import opened Encoding
  import opened SizeBound

  lemma {:induction false} LengthAbove(v: nat, n: nat)
    requires v >= Pow128(n)
    ensures |Base128(v)| >= n + 1
  {
    if n > 0 {
      Divided(v, Pow128(n - 1));
      LengthAbove(v / 128, n - 1);
    }
  }

  lemma {:induction false} Divided(v: nat, p: nat)
    requires v >= 128 * p && p >= 1
    ensures v / 128 >= p && v >= 128
  {
  }

  lemma {:induction false} LengthIs(v: nat, n: nat)
    requires n >= 1 && Pow128(n - 1) <= v < Pow128(n)
    ensures |Base128(v)| == n
  {
    LengthAbove(v, n - 1);
    LengthBelow(v, n);
  }

  lemma {:induction false} Powers()
    ensures Pow128(1) == 0x80 && Pow128(2) == 0x4000 && Pow128(3) == 0x20_0000 && Pow128(4) == 0x1000_0000
    ensures Pow128(5) == 0x8_0000_0000 && Pow128(9) == TWO63 && Pow128(10) == 128 * TWO63
  {
    assert Pow128(0) == 1 && Pow128(4) == 128 * Pow128(3) && Pow128(5) == 128 * Pow128(4);
    assert Pow128(7) == 128 * Pow128(6) && Pow128(8) == 128 * Pow128(7) && Pow128(9) == 128 * Pow128(8);
  }

  /** The longest code of an integer type. */
  function TopCode(n: nat): (u: nat)
    requires IntSize(n)
  {
    2 * IntLimit(n) - 1
  }

  lemma {:induction false} TopCodeLength(n: nat)
    requires IntSize(n)
    ensures |Base128(TopCode(n))| == IntBound(n)
  {
    Powers();
    LengthIs(TopCode(n), IntBound(n));
  }

  /** A value of each type that takes as many bytes as the bound says. */
  function Longest(t: LType): Value
    requires WellFormedType(t) && !t.Submsg?
  {
    match t
    case Bool => Num(1)
    case Varint(_, _) => Num(-1)
    case UVarint(n, _) => Num(TopCode(n))
    case SVarint(n) => Num(-IntLimit(n))
    case Fixed32 => Num(0)
    case Fixed64 => Num(0)
    case Bytes(n) => Raw(seq(n, _ => 1))
    case String(n) => Raw(seq(if n == 0 then 0 else n - 1, _ => 1))
    case FixedBytes(n) => Raw(seq(n, _ => 1))
  }

  /** Integers that are no enums, and strings whose length prefix is as long as that of their
      memory. */
  predicate Plain(t: LType) {
    match t
    case Varint(_, declared) => declared == []
    case UVarint(_, declared) => declared == []
    case String(n) => n >= 1 && |Base128(n)| == |Base128(n - 1)|
    case Submsg(_) => false
    case _ => true
  }

  lemma {:induction false} StringLength(b: seq<byte>)
    requires 0 !in b
    ensures StrLen(b) == |b| && b[..StrLen(b)] == b
  {
    forall k | 0 <= k < |b| ensures b[k] != 0 {
      assert b[k] in b;
    }
  }

  /** The bound of a type is reached. */
  lemma {:induction false} TypeReached(t: LType)
    requires WellFormedType(t) && Plain(t)
    ensures FitsType(t, Longest(t)) && ValueEncodable(t, Longest(t)) && ValueDeclared(t, Longest(t))
    ensures TypeBound(t) == Some(|EncodeValue(t, Longest(t))|)
  {
    match t
    case Varint(_, _) =>
      Powers();
      LengthIs(TWO64 - 1, 10);
    case UVarint(n, _) => TopCodeLength(n);
    case SVarint(n) =>
      TopCodeLength(n);
      ZigZagBijective(-IntLimit(n), 0);
    case Bytes(n) =>
      ShortVarint(n);
      VarintMaxSizeExact(n);
    case FixedBytes(n) =>
      ShortVarint(n);
      VarintMaxSizeExact(n);
    case String(n) =>
      ShortVarint(n);
      VarintMaxSizeExact(n);
      StringLength(Longest(t).b);
    case _ =>
  }

  /** The bound of an enum without negative values is reached by a declared value. */
  lemma {:induction false} EnumReached(values: seq<int>) returns (v: int)
    requires values != [] && EnumBound(values).Some? && forall k :: 0 <= k < |values| ==> values[k] >= 0
    ensures v in values && v >= 0 && |Base128(v)| == EnumBound(values).value
  {
    VarintMaxSizeExact(values[0]);
    v := values[0];
    if |values| > 1 {
      var w := EnumReached(values[1..]);
      if |Base128(w)| > |Base128(v)| {
        v := w;
      }
    }
  }

  /** A message that reaches its bound reaches it as a submessage too. */
  lemma {:induction false} SubmessageReached(d: Desc, m: Value)
    requires Shaped(d, m) && MsgBound(d) == Some(|Encode(d, m)|) && TypeBound(Submsg(d)).Some?
    ensures TypeBound(Submsg(d)) == Some(|EncodeValue(Submsg(d), m)|)
  {
    VarintMaxSizeExact(|Encode(d, m)|);
  }

  /** A single field reaches its bound with the value that reaches its type's. */
  lemma {:induction false} FieldReached(f: Field, v: Value)
    requires FitsType(f.ltype, v) && !f.htype.IsArray() && FieldBound(f).Some? && TypeBound(f.ltype) == Some(|EncodeValue(f.ltype, v)|)
    ensures FieldBound(f) == Some(|EncodeTagged(f.tag, f.ltype, v)|)
  {
    TagLength(f.tag, WireType(f.ltype));
    VarintMaxSizeExact(8 * f.tag);
  }

  /** An array that is not packed does so with its limit of such values, and one byte is to spare
      where the limit is 1. */
  lemma {:induction false} ArrayReached(f: Field, v: Value, vs: seq<Value>)
    requires FitsType(f.ltype, v) && f.htype.IsArray() && !f.ltype.Packable() && FieldBound(f).Some?
    requires TypeBound(f.ltype) == Some(|EncodeValue(f.ltype, v)|)
    requires |vs| == f.htype.Limit() && AllFit(f.ltype, vs) && forall k :: 0 <= k < |vs| ==> vs[k] == v
    ensures FieldBound(f).value == |EncodeArray(f.tag, f.ltype, vs)| + if |vs| == 1 then 1 else 0
  {
    AlikeLength(f.tag, f.ltype, v, vs);
    TagLength(f.tag, WireType(f.ltype));
    VarintMaxSizeExact(8 * f.tag);
  }

  /** A oneof's bound is that of one of its members, and 0 if it has none. */
  lemma {:induction false} OneofReached(d: Desc, g: nat, i: nat) returns (j: int)
    requires i <= |d.fields| && LargestMember(d, g, i).Some?
    ensures j < 0 ==> LargestMember(d, g, i) == Some(0) && forall k :: i <= k < |d.fields| ==> d.fields[k].htype != Oneof(g)
    ensures j >= 0 ==> i <= j < |d.fields| && d.fields[j].htype == Oneof(g) && FieldBound(d.fields[j]) == LargestMember(d, g, i)
    decreases |d.fields| - i
  {
    j := -1;
    if i < |d.fields| {
      var k := OneofReached(d, g, i + 1);
      j := k;
      if d.fields[i].htype == Oneof(g) && (k < 0 || LargestMember(d, g, i) == FieldBound(d.fields[i])) {
        j := i;
      }
    }
  }

  /** Every field takes as many bytes as its bound says. */
  ghost predicate FieldsFull(d: Desc, m: Value)
    requires Shaped(d, m)
  {
    forall k :: 0 <= k < |d.fields| ==> FieldBound(d.fields[k]) == Some(|EncodeField(d.fields[k], m.slots[k], m.unions, HasDefaults(d))|)
  }

  lemma {:induction false} FieldsReached(d: Desc, m: Value, i: nat)
    requires Shaped(d, m) && FieldsFull(d, m) && i <= |d.fields| && forall k :: 0 <= k < |d.fields| ==> !d.fields[k].htype.Oneof?
    ensures PlainBound(d, i) == Some(|EncodeFields(d, m, i)|)
    decreases |d.fields| - i
  {
    if i < |d.fields| {
      FieldsReached(d, m, i + 1);
      var e := EncodeField(d.fields[i], m.slots[i], m.unions, HasDefaults(d));
      assert FieldBound(d.fields[i]) == Some(|e|);
      assert EncodeFields(d, m, i) == e + EncodeFields(d, m, i + 1);
    }
  }

  /** A message without oneofs reaches its bound when all its fields do. */
  lemma {:induction false} MessageReached(d: Desc, m: Value)
    requires WellFormed(d) && d.unions == 0 && Shaped(d, m) && FieldsFull(d, m)
    ensures MsgBound(d) == Some(|Encode(d, m)|)
  {
    forall k | 0 <= k < |d.fields| ensures !d.fields[k].htype.Oneof? {
      assert WellFormedField(d.fields[k], d.unions);
    }
    FieldsReached(d, m, 0);
    assert OneofsBound(d, 0) == Some(0);
  }
}
