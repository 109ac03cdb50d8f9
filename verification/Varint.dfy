/** Bytes, optional results, and the base-128 integers of the wire format.

    Machine integers are modelled as mathematical integers with their width written
    out: `x & 0x7F` is `x % 128`, `x >> 7` is `x / 128`, and `|` on disjoint bit
    ranges is `+`. */
module Wire {
  type byte = b: int | 0 <= b < 256

  datatype Option<+T> = None | Some(value: T)

  lemma {:induction false} Regroup(a: seq<byte>, b: seq<byte>, c: seq<byte>)
    ensures a + b + c == a + (b + c)
  {
  }

  lemma {:induction false} Apart(a: seq<byte>, b: seq<byte>)
    ensures (a + b)[..|a|] == a && (a + b)[|a|..] == b
  {
  }

  const TWO31: int := 0x8000_0000
  const TWO32: int := 0x1_0000_0000
  const TWO63: int := 0x8000_0000_0000_0000
  const TWO64: int := 0x1_0000_0000_0000_0000

  /** Length of a C string held in `b`: up to the first NUL. */
  function StrLen(b: seq<byte>): (n: nat)
    ensures n <= |b|
    ensures forall k :: 0 <= k < n ==> b[k] != 0
    ensures n < |b| ==> b[n] == 0
  {
    if b == [] || b[0] == 0 then 0 else 1 + StrLen(b[1..])
  }
}

module Varint {
  import opened Wire

  /** Result of reading an integer from the front of a byte string. */
  datatype Parsed = Bad | Got(value: nat, used: nat)

  /** The same value with one more byte in front of it. */
  function Longer(p: Parsed): Parsed {
    if p.Bad? then Bad else Got(p.value, p.used + 1)
  }

  /** The shortest base-128 form of `v`, least significant group first. */
  function Base128(v: nat): (s: seq<byte>)
    ensures |s| >= 1
  {
    if v < 128 then [v] else [v % 128 + 128] + Base128(v / 128)
  }

  function Pow128(n: nat): (m: nat)
    ensures m >= 1
  {
    if n == 0 then 1 else 128 * Pow128(n - 1)
  }

  /** The number a string of groups stands for, whatever their continuation bits say. */
  function GroupSum(s: seq<byte>): nat {
    if s == [] then 0 else s[0] % 128 + 128 * GroupSum(s[1..])
  }

  /** What the bytes are, group by group: they stand for the number, all but the last announce
      another one, and the last is not empty unless it is the only one. */
  lemma {:induction false} Base128Groups(v: nat)
    ensures GroupSum(Base128(v)) == v
    ensures forall k :: 0 <= k < |Base128(v)| ==> (Base128(v)[k] / 128 == 1 <==> k < |Base128(v)| - 1)
    ensures v > 0 ==> Base128(v)[|Base128(v)| - 1] % 128 != 0
    decreases v
  {
    var s := Base128(v);
    if v >= 128 {
      Base128Groups(v / 128);
      assert s[1..] == Base128(v / 128);
      forall k | 0 <= k < |s| ensures s[k] / 128 == 1 <==> k < |s| - 1 {
        if k > 0 {
          assert s[k] == Base128(v / 128)[k - 1];
        }
      }
      assert s[|s| - 1] == Base128(v / 128)[|s| - 2];
    }
  }

  /** Exclusive bound on what may still be read when `k` groups of a 64-bit value are done. */
  function Cap(k: nat): (c: nat)
    requires k <= 9
    ensures c > 0
    decreases 9 - k
  {
    if k == 9 then 2 else 128 * Cap(k + 1)
  }

  lemma {:induction false} CapValues()
    ensures Cap(0) == TWO64 && Cap(1) == 0x200_0000_0000_0000 && Cap(4) == 0x10_0000_0000 && Cap(5) == 0x2000_0000
  {
    assert Cap(9) == 2 && Cap(8) == 256 && Cap(7) == 0x8000 && Cap(6) == 0x40_0000;
    assert Cap(5) == 0x2000_0000 && Cap(4) == 0x10_0000_0000 && Cap(3) == 0x800_0000_0000;
    assert Cap(2) == 0x4_0000_0000_0000 && Cap(1) == 0x200_0000_0000_0000;
  }

  /** `x << 7k`. */
  function Shift7(x: nat, k: nat): nat {
    if k == 0 then x else 128 * Shift7(x, k - 1)
  }

  lemma {:induction false} Shift7Split(g: nat, v: nat, k: nat)
    ensures Shift7(g + 128 * v, k) == Shift7(g, k) + Shift7(v, k + 1)
  {
    if k == 0 {
      assert Shift7(v, 1) == 128 * Shift7(v, 0);
    } else {
      Shift7Split(g, v, k - 1);
      assert Shift7(v, k + 1) == 128 * Shift7(v, k);
    }
  }

  /** `p`, found behind `n` bytes that hold the low `k` groups `low` of the same number. */
  function Ahead(p: Parsed, low: nat, k: nat, n: nat): Parsed {
    if p.Bad? then Bad else Got(low + Shift7(p.value, k), p.used + n)
  }

  /** What the 64-bit decoder reads from `s` once `k` groups are behind it. */
  function Parse64From(s: seq<byte>, k: nat): (p: Parsed)
    requires k <= 9
    ensures p.Got? ==> 1 <= p.used <= |s| && p.used <= 10 - k && p.value < Cap(k)
    decreases |s|
  {
    if s == [] || (k == 9 && s[0] >= 2) then Bad
    else if s[0] < 128 then Got(s[0], 1)
    else
      match Parse64From(s[1..], k + 1)
      case Bad => Bad
      case Got(v, n) => Got(s[0] - 128 + 128 * v, n + 1)
  }

  function Parse64(s: seq<byte>): (p: Parsed)
    ensures p.Got? ==> 1 <= p.used <= |s| && p.used <= 10 && p.value < TWO64
  {
    CapValues();
    Parse64From(s, 0)
  }

  /** Decoding undoes encoding, whatever follows. */
  lemma {:induction false} Parse64FromBase128(v: nat, k: nat, rest: seq<byte>)
    requires k <= 9 && v < Cap(k)
    ensures Parse64From(Base128(v) + rest, k) == Got(v, |Base128(v)|)
    decreases v
  {
    if v >= 128 {
      Parse64FromBase128(v / 128, k + 1, rest);
      assert (Base128(v) + rest)[1..] == Base128(v / 128) + rest;
    }
  }

  lemma {:induction false} Parse64Base128(v: nat, rest: seq<byte>)
    requires v < TWO64
    ensures Parse64(Base128(v) + rest) == Got(v, |Base128(v)|)
  {
    CapValues();
    Parse64FromBase128(v, 0, rest);
  }

  /** No byte string that reads as `v` is shorter, and one that ends in a non-zero group is
      the encoder's own. */
  lemma {:induction false} Base128IsMinimal(s: seq<byte>, k: nat)
    requires k <= 9 && Parse64From(s, k).Got?
    ensures var Got(v, n) := Parse64From(s, k);
            && |Base128(v)| <= n
            && (n == 1 || s[n - 1] != 0 ==> s[..n] == Base128(v))
    decreases |s|
  {
    var Got(v, n) := Parse64From(s, k);
    if s[0] >= 128 {
      Base128IsMinimal(s[1..], k + 1);
      var Got(v1, n1) := Parse64From(s[1..], k + 1);
      assert v / 128 == v1 && v % 128 == s[0] - 128;
      if n1 == 1 || s[1..][n1 - 1] != 0 {
        if v1 == 0 {
          assert n1 == 1 && s[1] == 0;
        } else {
          assert s[..n] == [s[0]] + s[1..][..n1];
        }
      }
    } else {
      assert s[..1] == [s[0]];
    }
  }

  lemma {:induction false} Base128Length(v: nat, k: nat)
    requires k <= 9 && v < Cap(k)
    ensures |Base128(v)| <= 10 - k
    decreases v
  {
    if v >= 128 {
      Base128Length(v / 128, k + 1);
    }
  }

  lemma {:induction false} Base128LengthMonotone(u: nat, v: nat)
    requires u <= v
    ensures |Base128(u)| <= |Base128(v)|
    decreases v
  {
    if v >= 128 && u >= 128 {
      Base128LengthMonotone(u / 128, v / 128);
    }
  }

  // ------------------------------------------------------------------
  // The lenient 32-bit decoder
  // ------------------------------------------------------------------

  /** `x << 7k`, for the groups that reach the low 32 bits. */
  function Scale(k: nat, x: int): int
    requires k <= 4
  {
    if k == 0 then x else if k == 1 then 0x80 * x else if k == 2 then 0x4000 * x
    else if k == 3 then 0x20_0000 * x else 0x1000_0000 * x
  }

  /** `b & 0x7F`. */
  function Group(b: byte): (g: nat)
    ensures g < 128
  {
    if b < 128 then b else b - 128
  }

  /** One later byte of the 32-bit decoder at bit position 7k: the new partial result, or
      nothing when the byte overflows. At bit 28 the group may carry nothing above bit 31
      (`(b & 0x70) == 0`, a group below 16) or all ones from bit 31 on (`(b & 0x78) == 0x78`,
      a group from 120 up), and four bits of it are kept. From bit 32 on only a zero group,
      or the sign extension of a result whose top bit is set, is let through. */
  function Next32(b: byte, k: nat, result: nat): Option<nat>
    requires k >= 1
  {
    var g := Group(b);
    if k >= 5 then
      var signExtension := if k < 9 then 0xFF else 0x01;
      if k >= 10 || !(g == 0 || (result >= TWO31 && b == signExtension)) then None else Some(result)
    else if k == 4 then
      if 16 <= g < 120 then None else Some(result + Scale(4, if g < 16 then g else g - 112))
    else
      Some(result + Scale(k, g))
  }

  function Parse32From(s: seq<byte>, k: nat, result: nat): (p: Parsed)
    requires k >= 1
    ensures p.Got? ==> 1 <= p.used <= |s|
    decreases |s|
  {
    if s == [] then Bad
    else
      match Next32(s[0], k, result)
      case None => Bad
      case Some(r) =>
        if s[0] < 128 then Got(r, 1)
        else Longer(Parse32From(s[1..], k + 1, r))
  }

  function Parse32(s: seq<byte>): (p: Parsed)
    ensures p.Got? ==> 1 <= p.used <= |s|
  {
    if s == [] then Bad
    else if s[0] < 128 then Got(s[0], 1)
    else Longer(Parse32From(s[1..], 1, s[0] - 128))
  }

  lemma {:induction false} HighGroupsRefine(s: seq<byte>, k: nat, result: nat)
    requires k >= 5 && Parse32From(s, k, result).Got?
    ensures k <= 9 && Parse64From(s, k).Got?
    ensures Parse32From(s, k, result) == Got(result, Parse64From(s, k).used)
    decreases |s|
  {
    if s[0] >= 128 {
      HighGroupsRefine(s[1..], k + 1, result);
    }
  }

  lemma {:induction false} ScaleSplit(k: nat, g: nat, q: nat)
    requires 1 <= k <= 3
    ensures Scale(k, g + 128 * q) == Scale(k, g) + Scale(k + 1, q)
  {
  }

  lemma {:induction false} LowGroupsRefine(s: seq<byte>, k: nat, result: nat)
    requires 1 <= k <= 4 && result < Scale(k, 1) && Parse32From(s, k, result).Got?
    ensures Parse64From(s, k).Got?
    ensures var p := Parse64From(s, k);
            Parse32From(s, k, result) == Got((result + Scale(k, p.value)) % TWO32, p.used)
    decreases 5 - k
  {
    if k == 4 {
      LastLowGroupRefines(s, result);
    } else if s[0] >= 128 {
      LowGroupsRefine(s[1..], k + 1, result + Scale(k, s[0] - 128));
      MiddleGroupRefines(s, k, result);
    } else {
      ModuloMultiple(result + Scale(k, s[0]), 0);
    }
  }

  /** One group in front of groups that refine. */
  lemma {:induction false} MiddleGroupRefines(s: seq<byte>, k: nat, result: nat)
    requires 1 <= k <= 3 && s != [] && s[0] >= 128 && Parse32From(s, k, result).Got? && Parse64From(s[1..], k + 1).Got?
    requires var p := Parse64From(s[1..], k + 1);
             Parse32From(s[1..], k + 1, result + Scale(k, s[0] - 128))
             == Got((result + Scale(k, s[0] - 128) + Scale(k + 1, p.value)) % TWO32, p.used)
    ensures Parse64From(s, k).Got?
    ensures var p := Parse64From(s, k);
            Parse32From(s, k, result) == Got((result + Scale(k, p.value)) % TWO32, p.used)
  {
    ScaleSplit(k, s[0] - 128, Parse64From(s[1..], k + 1).value);
  }

  lemma {:induction false} LastLowGroupRefines(s: seq<byte>, result: nat)
    requires result < Scale(4, 1) && Parse32From(s, 4, result).Got?
    ensures Parse64From(s, 4).Got?
    ensures var p := Parse64From(s, 4);
            Parse32From(s, 4, result) == Got((result + Scale(4, p.value)) % TWO32, p.used)
  {
    if s[0] >= 128 {
      HighGroupsRefine(s[1..], 5, Next32(s[0], 4, result).value);
      LowBits(result, s[0] - 128, Parse64From(s[1..], 5).value);
    } else {
      LowBits(result, s[0], 0);
    }
  }

  lemma {:induction false} LowBits(result: nat, g: nat, q: nat)
    requires result < Scale(4, 1) && (g < 16 || 120 <= g < 128)
    ensures (result + Scale(4, g + 128 * q)) % TWO32 == result + Scale(4, if g < 16 then g else g - 112)
  {
    var kept, high := if g < 16 then g else g - 112, (if g < 16 then 0 else 7) + 8 * q;
    assert result + Scale(4, g + 128 * q) == result + Scale(4, kept) + TWO32 * high;
    ModuloMultiple(result + Scale(4, kept), high);
  }

  lemma {:induction false} ModuloMultiple(x: nat, h: nat)
    requires x < TWO32
    ensures (x + TWO32 * h) % TWO32 == x
  {
  }

  /** Whatever the 32-bit decoder accepts, the 64-bit decoder accepts: same bytes used, same
      value modulo 2^32. */
  lemma {:induction false} Parse32RefinesParse64(s: seq<byte>)
    requires Parse32(s).Got?
    ensures Parse64(s).Got?
    ensures Parse32(s) == Got(Parse64(s).value % TWO32, Parse64(s).used)
  {
    CapValues();
    if s[0] >= 128 {
      LowGroupsRefine(s[1..], 1, s[0] - 128);
    }
  }

  lemma {:induction false} HighGroupsAccepted(s: seq<byte>, k: nat, result: nat)
    requires 5 <= k <= 9 && Parse64From(s, k).Got?
    requires Parse64From(s, k).value == 0 || (result >= TWO31 && Parse64From(s, k).value == Cap(k) - 1)
    ensures Parse32From(s, k, result) == Got(result, Parse64From(s, k).used)
    decreases |s|
  {
    if s[0] >= 128 {
      HighGroupsAccepted(s[1..], k + 1, result);
    } else if k < 9 {
      assert Cap(k) >= 256;
    }
  }

  lemma {:induction false} LowGroupsAccepted(s: seq<byte>, k: nat, result: nat)
    requires 1 <= k <= 4 && result < Scale(k, 1) && Parse64From(s, k).Got?
    requires var v := result + Scale(k, Parse64From(s, k).value); v < TWO32 || TWO64 - TWO31 <= v < TWO64
    ensures Parse32From(s, k, result).Got?
    decreases 5 - k
  {
    if k == 4 {
      LastLowGroupAccepted(s, result);
    } else if s[0] >= 128 {
      var g := s[0] - 128;
      var q := Parse64From(s[1..], k + 1).value;
      assert Scale(k, g + 128 * q) == Scale(k, g) + Scale(k + 1, q);
      LowGroupsAccepted(s[1..], k + 1, result + Scale(k, g));
    }
  }

  lemma {:induction false} LastLowGroupAccepted(s: seq<byte>, result: nat)
    requires result < Scale(4, 1) && Parse64From(s, 4).Got?
    requires var v := result + Scale(4, Parse64From(s, 4).value); v < TWO32 || TWO64 - TWO31 <= v < TWO64
    ensures Parse32From(s, 4, result).Got?
  {
    CapValues();
    if s[0] >= 128 {
      HighGroupsAccepted(s[1..], 5, Next32(s[0], 4, result).value);
    }
  }

  /** The 32-bit decoder accepts every encoding of a value below 2^32 and of every
      sign-extended negative 32-bit value, padded or not. */
  lemma {:induction false} Parse32Accepts(s: seq<byte>)
    requires Parse64(s).Got?
    requires Parse64(s).value < TWO32 || Parse64(s).value >= TWO64 - TWO31
    ensures Parse32(s).Got?
  {
    CapValues();
    if s[0] >= 128 {
      LowGroupsAccepted(s[1..], 1, s[0] - 128);
    }
  }

  /** It also lets through values that are neither: here bits 31 to 34 are set and no others. */
  lemma {:induction false} Parse32AcceptsMore()
    ensures var s: seq<byte> := [0x80, 0x80, 0x80, 0x80, 0x78];
            Parse64(s) == Got(0x7_8000_0000, 5) && Parse32(s) == Got(TWO31, 5)
  {
    var s: seq<byte> := [0x80, 0x80, 0x80, 0x80, 0x78];
    assert s[1..][1..][1..][1..] == [0x78];
    assert s[1..][1..][1..] == [0x80, 0x78];
    assert s[1..][1..] == [0x80, 0x80, 0x78];
    assert Parse64From([0x78], 4) == Got(0x78, 1);
    assert Parse64From([0x80, 0x78], 3) == Got(0x3C00, 2);
    assert Parse64From([0x80, 0x80, 0x78], 2) == Got(0x1E_0000, 3);
    assert Parse64From(s[1..], 1) == Got(0xF00_0000, 4);
    assert Parse32From([0x78], 4, 0) == Got(TWO31, 1);
    assert Parse32From([0x80, 0x78], 3, 0) == Got(TWO31, 2);
    assert Parse32From([0x80, 0x80, 0x78], 2, 0) == Got(TWO31, 3);
  }

  // ------------------------------------------------------------------
  // Exactly which byte strings the 32-bit decoder accepts
  // ------------------------------------------------------------------

  /** A byte at position `k` behind the fifth group: a zero group, or all ones behind a result
      whose top bit is set. */
  predicate Extension(b: byte, k: nat, negative: bool) {
    Group(b) == 0 || (negative && b == if k < 9 then 0xFF else 0x01)
  }

  /** The first `n` bytes, one varint, carry nothing above bit 31 but what is let through: the
      fifth group is below 16 or all ones from bit 31 on, and extension bytes follow. */
  predicate Lenient(s: seq<byte>, n: nat)
    requires n <= |s|
  {
    n >= 5 ==>
      && (Group(s[4]) < 16 || Group(s[4]) >= 120)
      && forall k :: 5 <= k < n ==> Extension(s[k], k, Group(s[4]) % 16 >= 8)
  }

  lemma {:induction false} HighExact(s: seq<byte>, k: nat, result: nat)
    requires 5 <= k <= 9 && k <= |s|
    ensures Parse32From(s[k..], k, result).Got?
            <==> Parse64From(s[k..], k).Got?
                 && forall i :: k <= i < k + Parse64From(s[k..], k).used ==> Extension(s[i], i, result >= TWO31)
    decreases |s| - k
  {
    if k < |s| {
      assert s[k..][1..] == s[k + 1..];
      if s[k] >= 128 && k < 9 {
        HighExact(s, k + 1, result);
      }
    }
  }

  lemma {:induction false} FifthExact(s: seq<byte>, result: nat)
    requires |s| >= 4 && result < Scale(4, 1)
    ensures Parse32From(s[4..], 4, result).Got?
            <==> Parse64From(s[4..], 4).Got? && Lenient(s, 4 + Parse64From(s[4..], 4).used)
  {
    if |s| > 4 {
      assert s[4..][1..] == s[5..];
      var g := Group(s[4]);
      if g < 16 || g >= 120 {
        var r := Next32(s[4], 4, result).value;
        assert r >= TWO31 <==> g % 16 >= 8;
        HighExact(s, 5, r);
      }
    }
  }

  lemma {:induction false} LowExact(s: seq<byte>, k: nat, result: nat)
    requires 1 <= k <= 4 && k <= |s| && result < Scale(k, 1)
    ensures Parse32From(s[k..], k, result).Got?
            <==> Parse64From(s[k..], k).Got? && Lenient(s, k + Parse64From(s[k..], k).used)
    decreases 5 - k
  {
    if k == 4 {
      FifthExact(s, result);
    } else if k < |s| {
      assert s[k..][1..] == s[k + 1..];
      if s[k] >= 128 {
        LowExact(s, k + 1, result + Scale(k, s[k] - 128));
      }
    }
  }

  /** The 32-bit decoder accepts exactly what the 64-bit decoder accepts and is lenient. */
  lemma {:induction false} Parse32Exact(s: seq<byte>)
    ensures Parse32(s).Got? <==> Parse64(s).Got? && Lenient(s, Parse64(s).used)
  {
    if s != [] && s[0] >= 128 {
      LowExact(s, 1, s[0] - 128);
    }
  }

  lemma {:induction false} HighZero(s: seq<byte>, k: nat)
    requires k <= 9 && k <= |s| && Parse64From(s[k..], k).Got?
    ensures Parse64From(s[k..], k).value == 0 <==> forall i :: k <= i < k + Parse64From(s[k..], k).used ==> Group(s[i]) == 0
    decreases |s| - k
  {
    assert s[k..][1..] == s[k + 1..];
    if s[k] >= 128 {
      HighZero(s, k + 1);
    }
  }

  lemma {:induction false} HighOnes(s: seq<byte>, k: nat)
    requires k <= 9 && k <= |s| && Parse64From(s[k..], k).Got?
    ensures Parse64From(s[k..], k).value == Cap(k) - 1
            <==> Parse64From(s[k..], k).used == 10 - k && s[9] == 1 && forall i :: k <= i < 9 ==> s[i] == 0xFF
    decreases |s| - k
  {
    assert s[k..][1..] == s[k + 1..];
    if s[k] >= 128 {
      HighOnes(s, k + 1);
      assert Cap(k) == 128 * Cap(k + 1);
    } else if k < 9 {
      assert Cap(k) >= 256;
    }
  }

  /** Bits 32 to 63 of a varint of five bytes or more are all zero, or all one with bit 31. */
  predicate ZeroExtended(s: seq<byte>, n: nat)
    requires 5 <= n <= |s|
  {
    Group(s[4]) < 16 && forall k :: 5 <= k < n ==> Group(s[k]) == 0
  }

  predicate SignExtended(s: seq<byte>, n: nat)
    requires 5 <= n <= |s|
  {
    n == 10 && Group(s[4]) >= 120 && s[9] == 1 && forall k :: 5 <= k < 9 ==> s[k] == 0xFF
  }

  /** The value of five bytes or more, by its low groups, its fifth group and the rest. */
  lemma {:induction false} ValueParts(s: seq<byte>) returns (low: nat, q: nat)
    requires Parse64(s).Got? && Parse64(s).used >= 5
    ensures low < Scale(4, 1) && q < Cap(5)
    ensures Parse64(s).value == low + Scale(4, Group(s[4]) + 128 * q)
    ensures if Parse64(s).used == 5 then q == 0 && s[4] < 128
            else s[4] >= 128 && Parse64From(s[5..], 5) == Got(q, Parse64(s).used - 5)
  {
    CapValues();
    assert s[1..][1..] == s[2..] && s[2..][1..] == s[3..] && s[3..][1..] == s[4..] && s[4..][1..] == s[5..];
    low := Group(s[0]) + Scale(1, Group(s[1])) + Scale(2, Group(s[2])) + Scale(3, Group(s[3]));
    var p1, p2, p3, p4 := Parse64From(s[1..], 1), Parse64From(s[2..], 2), Parse64From(s[3..], 3), Parse64From(s[4..], 4);
    assert Parse64(s).used == 1 + p1.used && p1.used == 1 + p2.used && p2.used == 1 + p3.used && p3.used == 1 + p4.used;
    assert Parse64(s).value == low + Scale(4, p4.value);
    q := if s[4] < 128 then 0 else Parse64From(s[5..], 5).value;
  }

  /** An accepted value is below 2^32 or a sign extension exactly when bits 32 to 63 are all
      zero, or all one with bit 31. */
  lemma {:induction false} ProperExact(s: seq<byte>)
    requires Parse64(s).Got? && Parse64(s).used >= 5
    ensures Parse64(s).value < TWO32 <==> ZeroExtended(s, Parse64(s).used)
    ensures Parse64(s).value >= TWO64 - TWO31 <==> SignExtended(s, Parse64(s).used)
  {
    CapValues();
    var low, q := ValueParts(s);
    if Parse64(s).used > 5 {
      HighZero(s, 5);
      HighOnes(s, 5);
    }
  }

  lemma {:induction false} Parse32Base128(v: nat, rest: seq<byte>)
    requires v < TWO32
    ensures Parse32(Base128(v) + rest) == Got(v, |Base128(v)|)
  {
    Parse64Base128(v, rest);
    Parse32Accepts(Base128(v) + rest);
    Parse32RefinesParse64(Base128(v) + rest);
  }

  // ------------------------------------------------------------------
  // Signed values
  // ------------------------------------------------------------------

  /** The C cast of a signed 64-bit integer to `uint64_t`. */
  function ToU64(x: int): (u: int)
    requires -TWO63 <= x < TWO63
    ensures 0 <= u < TWO64
  {
    if x < 0 then x + TWO64 else x
  }

  /** The cast back to `int64_t`. */
  function ToS64(u: nat): (x: int)
    requires u < TWO64
    ensures -TWO63 <= x < TWO63
  {
    if u < TWO63 then u else u - TWO64
  }

  /** `~((uint64_t)x & mask) << 1` for negative x, `(uint64_t)x << 1` otherwise. */
  function ZigZag(x: int): (z: int)
    requires -TWO63 <= x < TWO63
    ensures 0 <= z < TWO64
  {
    if x < 0 then TWO64 - 1 - ToU64(x) % TWO63 * 2 else ToU64(x) * 2
  }

  /** `~(z >> 1)` for odd z, `z >> 1` otherwise, cast to `int64_t`. */
  function UnZigZag(z: nat): (x: int)
    requires z < TWO64
    ensures -TWO63 <= x < TWO63
  {
    if z % 2 == 1 then ToS64(TWO64 - 1 - z / 2) else ToS64(z / 2)
  }

  /** The zigzag pair is a bijection between int64 and uint64, the minimum included, and maps
      small magnitudes to small codes. */
  lemma {:induction false} ZigZagBijective(x: int, z: nat)
    requires -TWO63 <= x < TWO63 && z < TWO64
    ensures UnZigZag(ZigZag(x)) == x
    ensures ZigZag(UnZigZag(z)) == z
    ensures ZigZag(x) == if x < 0 then -2 * x - 1 else 2 * x
  {
  }
}
