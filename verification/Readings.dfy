/** What the decoder makes of each value, also of those the encoder never writes. */
module Readings {
  import opened Wire
  import opened Varint
  import opened Schema
  import opened Encoding
  import opened Decoding
  import opened RoundTrip

  /** The numbers a signed integer of `n` bytes holds. */
  predicate InSigned(n: nat, x: int) {
    if n == 1 then -0x80 <= x < 0x80
    else if n == 2 then -0x8000 <= x < 0x8000
    else if n == 4 then -0x8000_0000 <= x < 0x8000_0000
    else -0x8000_0000_0000_0000 <= x < 0x8000_0000_0000_0000
  }

  /** Any number but 0 is true. */
  lemma {:induction false} BoolMeans(u: nat, base: Value, rest: seq<byte>)
    requires u < 0x1_0000_0000
    ensures DecodeValue(Bool, base, Base128(u) + rest) == Ok(Num(if u == 0 then 0 else 1), |Base128(u)|)
  {
    Parse32Base128(u, rest);
  }

  /** The low 32 bits of a number, read as a signed one. */
  lemma {:induction false} Low32(u: nat, x: int)
    requires -TWO31 <= x < TWO31 && (u - x) % TWO32 == 0
    ensures ToS32(u) == x
  {
    var q := (u - x) / TWO32;
    assert u == x + TWO32 * q;
    if x >= 0 {
      LowPart(u, q, x);
    } else {
      LowPart(u, q - 1, x + TWO32);
    }
  }

  lemma {:induction false} LowPart(u: nat, q: int, r: int)
    requires 0 <= r < TWO32 && u == TWO32 * q + r
    ensures u % TWO32 == r
  {
  }

  /** A signed integer of up to four bytes takes the low 32 bits of the number, whatever is above
      them, and refuses what its type cannot hold. So a negative one may come in five bytes as well
      as in ten. */
  lemma {:induction false} ShortIntMeans(t: LType, u: nat, x: int, base: Value, rest: seq<byte>)
    requires t.Varint? && WellFormedType(t) && t.size < 8 && GoodBase(t, base)
    requires u < TWO64 && -TWO31 <= x < TWO31 && (u - x) % TWO32 == 0
    ensures DecodeValue(t, base, Base128(u) + rest) == if InSigned(t.size, x) then Ok(Num(x), |Base128(u)|) else Fail
  {
    Parse64Base128(u, rest);
    Low32(u, x);
  }

  /** Minus one as int32, in five bytes instead of ten. */
  lemma {:induction false} FiveByteMinusOne(rest: seq<byte>)
    ensures DecodeValue(Varint(4, []), Num(0), Base128(0xFFFF_FFFF) + rest) == Ok(Num(-1), |Base128(0xFFFF_FFFF)|)
  {
    assert (0xFFFF_FFFF - (-1)) % TWO32 == 0;
    ShortIntMeans(Varint(4, []), 0xFFFF_FFFF, -1, Num(0), rest);
  }

  /** One of eight bytes takes all 64 bits. */
  lemma {:induction false} LongIntMeans(t: LType, x: int, base: Value, rest: seq<byte>)
    requires t.Varint? && t.size == 8 && GoodBase(t, base) && -TWO63 <= x < TWO63
    ensures var u := if x < 0 then x + TWO64 else x;
            DecodeValue(t, base, Base128(u) + rest) == Ok(Num(x), |Base128(u)|)
  {
    Parse64Base128(if x < 0 then x + TWO64 else x, rest);
  }

  /** An unsigned integer refuses what its type cannot hold. */
  lemma {:induction false} UintMeans(t: LType, u: nat, base: Value, rest: seq<byte>)
    requires t.UVarint? && WellFormedType(t) && GoodBase(t, base) && u < TWO64
    ensures var top := if t.size == 1 then 0x100 else if t.size == 2 then 0x1_0000 else if t.size == 4 then 0x1_0000_0000 else TWO64;
            DecodeValue(t, base, Base128(u) + rest) == if u < top then Ok(Num(u), |Base128(u)|) else Fail
  {
    Parse64Base128(u, rest);
  }

  /** So does a zigzag one. */
  lemma {:induction false} SintMeans(t: LType, x: int, base: Value, rest: seq<byte>)
    requires t.SVarint? && WellFormedType(t) && GoodBase(t, base) && -TWO63 <= x < TWO63
    ensures var u := if x >= 0 then 2 * x else -2 * x - 1;
            DecodeValue(t, base, Base128(u) + rest) == if InSigned(t.size, x) then Ok(Num(x), |Base128(u)|) else Fail
  {
    ZigZagBijective(x, 0);
    Parse64Base128(ZigZag(x), rest);
  }

  /** The number of four bytes, the low one first. */
  function Number(a: int, b: int, c: int, e: int): int {
    a + 0x100 * b + 0x1_0000 * c + 0x100_0000 * e
  }

  /** Four bytes are a fixed32; with fewer the field is refused. */
  lemma {:induction false} Fixed32Means(s: seq<byte>, base: Value)
    requires |s| >= 4
    ensures DecodeValue(Fixed32, base, s) == Ok(Num(Number(s[0], s[1], s[2], s[3])), 4)
    ensures DecodeValue(Fixed32, base, s[..3]) == Fail
  {
    FourBytes(s, 0);
    assert FromLittleEndian(s[4..], 0) == 0;
  }

  lemma {:induction false} FourBytes(s: seq<byte>, n: nat)
    requires |s| >= n + 4
    ensures FromLittleEndian(s, n + 4) == Number(s[0], s[1], s[2], s[3]) + 0x1_0000_0000 * FromLittleEndian(s[4..], n)
  {
    var x := FromLittleEndian(s[4..], n);
    assert s[1..][1..][1..][1..] == s[4..];
    assert FromLittleEndian(s[1..][1..][1..], n + 1) == Number(s[3], 0, 0, 0) + 0x100 * x;
    assert FromLittleEndian(s[1..][1..], n + 2) == Number(s[2], s[3], 0, 0) + 0x1_0000 * x;
    assert FromLittleEndian(s[1..], n + 3) == Number(s[1], s[2], s[3], 0) + 0x100_0000 * x;
  }

  /** Eight bytes are a fixed64, the low four first. */
  lemma {:induction false} Fixed64Means(s: seq<byte>, base: Value)
    requires |s| >= 8
    ensures DecodeValue(Fixed64, base, s) == Ok(Num(Number(s[0], s[1], s[2], s[3]) + 0x1_0000_0000 * Number(s[4], s[5], s[6], s[7])), 8)
    ensures DecodeValue(Fixed64, base, s[..7]) == Fail
  {
    FourBytes(s, 4);
    FourBytes(s[4..], 0);
    assert FromLittleEndian(s[4..][4..], 0) == 0;
  }

  /** What has a length, with all its bytes there. */
  lemma {:induction false} DelimitedMeans(t: LType, body: seq<byte>, base: Value, rest: seq<byte>)
    requires WellFormedType(t) && GoodBase(t, base) && |body| < TWO32
    ensures var s, n := Prefixed(body) + rest, |Prefixed(body)|;
            match t
            case Bytes(max) => DecodeValue(t, base, s) == if |body| <= max || (|body| == max + 1 && max % 2 == 1) then Ok(Raw(body), n) else Fail
            case String(size) => DecodeValue(t, base, s) == if |body| < size then Ok(Raw(body), n) else Fail
            case FixedBytes(size) =>
              DecodeValue(t, base, s) == (if |body| == size then Ok(Raw(body), n) else if body == [] then Ok(Raw(seq(size, _ => 0)), n) else Fail)
            case Submsg(d) =>
              DecodeValue(t, base, s) == (match DecodeMsg(d, body, base) case None => Fail case Some(m) => Ok(m, n))
            case _ => true
  {
    PrefixedRoundTrip(body, rest);
  }

  /** With fewer bytes than announced it is refused. */
  lemma {:induction false} ShortRefused(t: LType, n: nat, base: Value, rest: seq<byte>)
    requires WellFormedType(t) && GoodBase(t, base) && (t.Bytes? || t.String? || t.FixedBytes? || t.Submsg?)
    requires |rest| < n < TWO32
    ensures DecodeValue(t, base, Base128(n) + rest) == Fail
  {
    Parse32Base128(n, rest);
  }
}
