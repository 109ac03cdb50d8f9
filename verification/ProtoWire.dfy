/** The encoding byte by byte, in the numbers of the Protocol Buffers encoding. */
module ProtoWire {
  import opened Wire
  import opened Varint
  import opened Schema
  import opened Encoding

  /** The wire type of a value: 0 for integers, 1 and 5 for eight and four bytes, 2 for what has a
      length. */
  function WireNumber(t: LType): nat {
    if t.Fixed64? then 1 else if t.Fixed32? then 5
    else if t.Bytes? || t.String? || t.FixedBytes? || t.Submsg? then 2
    else 0
  }

  /** A string of groups that stands for `n`, and nothing shorter: the last alone has no
      continuation bit, and is not empty unless it is alone. */
  ghost predicate IsGroups(s: seq<byte>, n: nat) {
    && s != [] && GroupSum(s) == n
    && (forall k :: 0 <= k < |s| ==> (s[k] >= 128 <==> k < |s| - 1))
    && (|s| > 1 ==> s[|s| - 1] > 0)
  }

  lemma {:induction false} Base128IsGroups(n: nat)
    ensures IsGroups(Base128(n), n)
  {
    Base128Groups(n);
    var s := Base128(n);
    forall k | 0 <= k < |s| ensures s[k] >= 128 <==> k < |s| - 1 {
      assert s[k] / 128 == 1 <==> k < |s| - 1;
    }
  }

  /** The integer a code stands for in each type. */
  function CodeOf(t: LType, i: int): int {
    if t.SVarint? then (if i >= 0 then 2 * i else -2 * i - 1)
    else if i < 0 then i + 0x1_0000_0000_0000_0000
    else i
  }

  /** `n` bytes, the low one first. */
  ghost predicate IsLittleEndian(s: seq<byte>, n: nat, v: nat) {
    |s| == n && (n == 0 || (s[0] == v % 256 && IsLittleEndian(s[1..], n - 1, v / 256)))
  }

  /** A length, then as many bytes. */
  ghost predicate IsDelimited(s: seq<byte>, body: seq<byte>) {
    |body| < |s| && s[|s| - |body|..] == body && IsGroups(s[..|s| - |body|], |body|)
  }

  /** The bytes of a value behind its tag. */
  ghost predicate IsValue(t: LType, v: Value, s: seq<byte>)
    requires FitsType(t, v)
  {
    match t
    case Fixed32 => IsLittleEndian(s, 4, v.i)
    case Fixed64 => IsLittleEndian(s, 8, v.i)
    case Bytes(_) => IsDelimited(s, v.b)
    case FixedBytes(_) => IsDelimited(s, v.b)
    case String(_) => exists n :: 0 <= n <= |v.b| && 0 !in v.b[..n] && (n == |v.b| || v.b[n] == 0) && IsDelimited(s, v.b[..n])
    case Submsg(d) => assert Shaped(d, v); IsDelimited(s, Encode(d, v))
    case _ => CodeOf(t, v.i) >= 0 && IsGroups(s, CodeOf(t, v.i))
  }

  lemma {:induction false} LittleEndianBytes(v: nat, n: nat)
    ensures IsLittleEndian(LittleEndian(v, n), n, v)
  {
    if n > 0 {
      LittleEndianBytes(v / 256, n - 1);
    }
  }

  lemma {:induction false} PrefixedBytes(body: seq<byte>)
    ensures IsDelimited(Prefixed(body), body)
  {
    Base128IsGroups(|body|);
    assert Prefixed(body)[..|Prefixed(body)| - |body|] == Base128(|body|);
  }

  lemma {:induction false} ValueBytes(t: LType, v: Value)
    requires FitsType(t, v)
    ensures IsValue(t, v, EncodeValue(t, v))
  {
    match t
    case Fixed32 => LittleEndianBytes(v.i, 4);
    case Fixed64 => LittleEndianBytes(v.i, 8);
    case Bytes(_) => PrefixedBytes(v.b);
    case FixedBytes(_) => PrefixedBytes(v.b);
    case String(_) =>
      PrefixedBytes(v.b[..StrLen(v.b)]);
      assert 0 !in v.b[..StrLen(v.b)];
    case Submsg(d) =>
      assert Shaped(d, v);
      PrefixedBytes(Encode(d, v));
    case _ => CodeBytes(t, v.i);
  }

  lemma {:induction false} CodeBytes(t: LType, i: int)
    requires (t.Bool? || t.Varint? || t.UVarint? || t.SVarint?) && FitsType(t, Num(i))
    ensures CodeOf(t, i) >= 0 && IsGroups(EncodeValue(t, Num(i)), CodeOf(t, i))
  {
    if t.SVarint? {
      ZigZagBijective(i, 0);
    }
    Base128IsGroups(Code(t, i));
  }

  /** A field is its number and wire type in one key, then its value. */
  lemma {:induction false} FieldBytes(tag: nat, t: LType, v: Value) returns (n: nat)
    requires FitsType(t, v)
    ensures var s := EncodeTagged(tag, t, v);
            n <= |s| && IsGroups(s[..n], 8 * tag + WireNumber(t)) && IsValue(t, v, s[n..])
  {
    n := |Tag(tag, WireType(t))|;
    KeyNumber(tag, t);
    ValueBytes(t, v);
    Apart(Tag(tag, WireType(t)), EncodeValue(t, v));
  }

  lemma {:induction false} KeyNumber(tag: nat, t: LType)
    ensures IsGroups(Tag(tag, WireType(t)), 8 * tag + WireNumber(t))
  {
    Base128IsGroups(8 * tag + WireType(t));
  }

  /** `s` is the values one after the other. */
  ghost predicate AreValues(t: LType, vs: seq<Value>, s: seq<byte>)
    requires AllFit(t, vs)
  {
    if vs == [] then s == []
    else exists n :: 0 <= n <= |s| && IsValue(t, vs[0], s[..n]) && AreValues(t, vs[1..], s[n..])
  }

  lemma {:induction false} PackedBytes(t: LType, vs: seq<Value>)
    requires t.Packable() && AllFit(t, vs)
    ensures AreValues(t, vs, EncodePacked(t, vs))
  {
    if vs != [] {
      ValueBytes(t, vs[0]);
      PackedBytes(t, vs[1..]);
      var s, n := EncodePacked(t, vs), |EncodeValue(t, vs[0])|;
      assert s[..n] == EncodeValue(t, vs[0]) && s[n..] == EncodePacked(t, vs[1..]);
    }
  }

  /** An array of numbers is one field of wire type 2 that holds the values one after the other. */
  lemma {:induction false} PackedArrayBytes(tag: nat, t: LType, vs: seq<Value>) returns (n: nat, body: seq<byte>)
    requires t.Packable() && AllFit(t, vs) && vs != []
    ensures var s := EncodeArray(tag, t, vs);
            n <= |s| && IsGroups(s[..n], 8 * tag + 2) && IsDelimited(s[n..], body) && AreValues(t, vs, body)
  {
    var key := Tag(tag, WT_STRING);
    n, body := |key|, EncodePacked(t, vs);
    Base128IsGroups(8 * tag + WT_STRING);
    PrefixedBytes(body);
    PackedBytes(t, vs);
    assert EncodeArray(tag, t, vs)[..n] == key && EncodeArray(tag, t, vs)[n..] == Prefixed(body);
  }

  /** An array of anything else is one field for each entry, in order. */
  lemma {:induction false} UnpackedArrayBytes(tag: nat, t: LType, vs: seq<Value>, v: Value)
    requires !t.Packable() && AllFit(t, vs) && FitsType(t, v)
    ensures EncodeArray(tag, t, []) == []
    ensures EncodeArray(tag, t, [v] + vs) == EncodeTagged(tag, t, v) + EncodeArray(tag, t, vs)
  {
    var all := [v] + vs;
    assert all[1..] == vs && all[0] == v;
    assert EncodeUnpacked(tag, t, all) == EncodeTagged(tag, t, v) + EncodeUnpacked(tag, t, vs);
  }

  // ------------------------------------------------------------------
  // The examples of the encoding guide
  // ------------------------------------------------------------------

  /** Field 1 holding 150. */
  lemma {:induction false} IntegerExample()
    ensures EncodeTagged(1, Varint(4, []), Num(150)) == [0x08, 0x96, 0x01]
  {
    assert Base128(150) == [0x96] + Base128(1);
  }

  /** Field 1 holding -1 as sint32. */
  lemma {:induction false} NegativeExample()
    ensures EncodeTagged(1, SVarint(4), Num(-1)) == [0x08, 0x01]
  {
  }

  /** Field 2 holding "hi" in more memory than it needs. */
  lemma {:induction false} StringExample()
    ensures EncodeTagged(2, String(10), Raw([104, 105, 0, 7])) == [0x12, 2, 104, 105]
  {
    var b: seq<byte> := [104, 105, 0, 7];
    assert b[0] != 0 && b[1] != 0 && b[2] == 0;
    assert StrLen(b) == 2 && b[..2] == [104, 105];
  }

  /** Field 4 holding 3 and 270 packed. */
  lemma {:induction false} PackedExample()
    ensures EncodeArray(4, Varint(4, []), [Num(3), Num(270)]) == [0x22, 3, 3, 0x8E, 2]
  {
    var t, vs := Varint(4, []), [Num(3), Num(270)];
    assert Base128(270) == [0x8E] + Base128(2);
    assert vs[1..] == [Num(270)] && vs[1..][1..] == [];
    assert EncodePacked(t, vs[1..]) == [0x8E, 2];
    assert EncodePacked(t, vs) == [3, 0x8E, 2];
  }

  /** A struct is written field by field, in the order of the descriptor. */
  lemma {:induction false} FieldsInOrder(d: Desc, m: Value, i: nat)
    requires WellFormed(d) && Shaped(d, m) && i < |d.fields|
    ensures FitsSlot(d.fields[i], m.slots[i]) && FitsUnion(d.fields[i], m.unions)
    ensures EncodeFields(d, m, i) == EncodeField(d.fields[i], m.slots[i], m.unions, HasDefaults(d)) + EncodeFields(d, m, i + 1)
    ensures EncodeFields(d, m, |d.fields|) == [] && Encode(d, m) == EncodeFields(d, m, 0)
  {
  }
}
