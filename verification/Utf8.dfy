/** `pb_validate_utf8` against the definition of UTF-8 in RFC 3629. */
module Utf8 {
  import opened Wire

  // ------------------------------------------------------------------
  // RFC 3629, section 3
  // ------------------------------------------------------------------

  /** Code points a string may hold: Unicode scalar values other than U+0000, which ends the
      string, and U+FFFE and U+FFFF, which the checker refuses. */
  predicate Accepted(c: nat) {
    1 <= c <= 0x10FFFF && !(0xD800 <= c <= 0xDFFF) && c != 0xFFFE && c != 0xFFFF
  }

  function EncodeChar(c: nat): (s: seq<byte>)
    requires c <= 0x10FFFF
    ensures 1 <= |s| <= 4
  {
    if c < 0x80 then [c]
    else if c < 0x800 then [0xC0 + c / 64, 0x80 + c % 64]
    else if c < 0x1_0000 then [0xE0 + c / 4096, 0x80 + c / 64 % 64, 0x80 + c % 64]
    else [0xF0 + c / 0x4_0000, 0x80 + c / 4096 % 64, 0x80 + c / 64 % 64, 0x80 + c % 64]
  }

  function Encode(text: seq<nat>): seq<byte>
    requires forall k :: 0 <= k < |text| ==> Accepted(text[k])
  {
    if text == [] then [] else assert Accepted(text[0]); EncodeChar(text[0]) + Encode(text[1..])
  }

  /** The bytes are a concatenation of UTF-8 characters. */
  ghost predicate IsUtf8(s: seq<byte>) {
    exists text: seq<nat> :: (forall k :: 0 <= k < |text| ==> Accepted(text[k])) && Encode(text) == s
  }

  // ------------------------------------------------------------------
  // The checker
  // ------------------------------------------------------------------

  /** Byte `k` of a string; behind its last byte is the terminator. */
  function At(s: seq<byte>, k: nat): byte {
    if k < |s| then s[k] else 0
  }

  predicate Continuation(b: byte) {
    0x80 <= b < 0xC0
  }

  /** Length of the character at the front if the checker lets it pass, else 0. */
  function Step(s: seq<byte>): (n: nat)
    requires s != []
  {
    var b0, b1, b2, b3 := At(s, 0), At(s, 1), At(s, 2), At(s, 3);
    if b0 < 0x80 then 1
    else if b0 < 0xC0 then 0
    else if b0 < 0xE0 then if !Continuation(b1) || b0 < 0xC2 then 0 else 2
    else if b0 < 0xF0 then
      if !Continuation(b1) || !Continuation(b2) || (b0 == 0xE0 && b1 < 0xA0) || (b0 == 0xED && b1 >= 0xA0)
         || (b0 == 0xEF && b1 == 0xBF && b2 >= 0xBE) then 0 else 3
    else if b0 < 0xF8 then
      if !Continuation(b1) || !Continuation(b2) || !Continuation(b3) || (b0 == 0xF0 && b1 < 0x90)
         || (b0 == 0xF4 && b1 > 0x8F) || b0 > 0xF4 then 0 else 4
    else 0
  }

  lemma {:induction false} StepWithin(s: seq<byte>)
    requires s != []
    ensures Step(s) <= |s|
  {
  }

  predicate Passes(s: seq<byte>) {
    StepsWithin(s);
    s == [] || (Step(s) > 0 && Passes(s[Step(s)..]))
  }

  lemma {:induction false} StepsWithin(s: seq<byte>)
    ensures s != [] ==> Step(s) <= |s|
  {
    if s != [] {
      StepWithin(s);
    }
  }

  /** The body of the loop: length of the character at `s`, or 0. A later byte is read only
      when the one before it is not the terminator. A mask and comparison such as
      `(b & 0xe0) == 0xc0` is a quotient here, `b / 32 == 6`. */
  method CheckChar(mem: seq<byte>, s: nat, ghost rest: seq<byte>) returns (n: nat)
    requires mem != [] && mem[|mem| - 1] == 0 && s < |mem| - 1 && rest == mem[s..|mem| - 1]
    ensures n == Step(rest)
  {
    assert At(rest, 0) == mem[s] && At(rest, 1) == mem[s + 1];
    assert s + 2 < |mem| ==> At(rest, 2) == mem[s + 2];
    assert s + 3 < |mem| ==> At(rest, 3) == mem[s + 3];
    if mem[s] < 0x80 {
      return 1;
    } else if mem[s] / 32 == 6 {
      if mem[s + 1] / 64 != 2 || mem[s] / 2 == 0x60 {
        return 0;
      }
      return 2;
    } else if mem[s] / 16 == 14 {
      if mem[s + 1] / 64 != 2 || mem[s + 2] / 64 != 2 || (mem[s] == 0xE0 && mem[s + 1] / 32 == 4)
         || (mem[s] == 0xED && mem[s + 1] / 32 == 5) || (mem[s] == 0xEF && mem[s + 1] == 0xBF && mem[s + 2] / 2 == 0x5F) {
        return 0;
      }
      return 3;
    } else if mem[s] / 8 == 30 {
      if mem[s + 1] / 64 != 2 || mem[s + 2] / 64 != 2 || mem[s + 3] / 64 != 2 || (mem[s] == 0xF0 && mem[s + 1] / 16 == 8)
         || (mem[s] == 0xF4 && mem[s + 1] > 0x8F) || mem[s] > 0xF4 {
        return 0;
      }
      return 4;
    }
    return 0;
  }

  lemma {:induction false} PassesStep(rest: seq<byte>, n: nat)
    requires rest != [] && n == Step(rest)
    ensures n == 0 ==> !Passes(rest)
    ensures n > 0 ==> n <= |rest| && Passes(rest) == Passes(rest[n..])
  {
    StepWithin(rest);
  }

  /** One round of the loop: how far to move on, 0 to give up. */
  method Advance(mem: seq<byte>, s: nat, ghost rest: seq<byte>) returns (n: nat)
    requires mem != [] && mem[|mem| - 1] == 0 && s < |mem| - 1 && rest == mem[s..|mem| - 1]
    ensures n == 0 ==> !Passes(rest)
    ensures n > 0 ==> n <= |rest| && Passes(rest) == Passes(rest[n..])
  {
    n := CheckChar(mem, s, rest);
    PassesStep(rest, n);
  }

  method Scan(mem: seq<byte>) returns (ok: bool)
    requires mem != [] && mem[|mem| - 1] == 0 && forall k :: 0 <= k < |mem| - 1 ==> mem[k] != 0
    ensures ok <==> Passes(mem[..|mem| - 1])
  {
    ghost var text := mem[..|mem| - 1];
    ghost var rest := text;
    var s := 0;
    while mem[s] != 0
      invariant 0 <= s <= |text| && rest == mem[s..|mem| - 1]
      invariant Passes(text) == Passes(rest)
      decreases |text| - s
    {
      var n := Advance(mem, s, rest);
      if n == 0 {
        return false;
      }
      rest := rest[n..];
      s := s + n;
    }
    return true;
  }

  /** `pb_validate_utf8`. The memory ends with the terminator, so no byte past it is read. */
  method Validate(mem: seq<byte>) returns (ok: bool)
    requires mem != [] && mem[|mem| - 1] == 0 && forall k :: 0 <= k < |mem| - 1 ==> mem[k] != 0
    ensures ok <==> IsUtf8(mem[..|mem| - 1])
  {
    PassesIsUtf8(mem[..|mem| - 1]);
    ok := Scan(mem);
  }

  // ------------------------------------------------------------------
  // It accepts exactly UTF-8
  // ------------------------------------------------------------------

  /** The code points of characters of two, three and four bytes. */
  function Join2(b0: int, b1: int): int {
    64 * (b0 - 0xC0) + (b1 - 0x80)
  }

  function Join3(b0: int, b1: int, b2: int): int {
    4096 * (b0 - 0xE0) + 64 * (b1 - 0x80) + (b2 - 0x80)
  }

  function Join4(b0: int, b1: int, b2: int, b3: int): int {
    0x4_0000 * (b0 - 0xF0) + 4096 * (b1 - 0x80) + 64 * (b2 - 0x80) + (b3 - 0x80)
  }

  lemma {:induction false} TwoBytes(b0: byte, b1: byte)
    requires 0xC2 <= b0 < 0xE0 && Continuation(b1)
    ensures Join2(b0, b1) >= 0 && Accepted(Join2(b0, b1)) && EncodeChar(Join2(b0, b1)) == [b0, b1]
  {
  }

  lemma {:induction false} ThreeBytes(b0: byte, b1: byte, b2: byte)
    requires 0xE0 <= b0 < 0xF0 && Continuation(b1) && Continuation(b2)
    requires !(b0 == 0xE0 && b1 < 0xA0) && !(b0 == 0xED && b1 >= 0xA0) && !(b0 == 0xEF && b1 == 0xBF && b2 >= 0xBE)
    ensures var c := Join3(b0, b1, b2); c >= 0 && Accepted(c) && EncodeChar(c) == [b0, b1, b2]
  {
    Digits3(b0 - 0xE0, b1 - 0x80, b2 - 0x80);
    assert 0x800 <= Join3(b0, b1, b2) < 0x1_0000;
  }

  lemma {:induction false} FourBytes(b0: byte, b1: byte, b2: byte, b3: byte)
    requires 0xF0 <= b0 <= 0xF4 && Continuation(b1) && Continuation(b2) && Continuation(b3)
    requires !(b0 == 0xF0 && b1 < 0x90) && !(b0 == 0xF4 && b1 > 0x8F)
    ensures var c := Join4(b0, b1, b2, b3); c >= 0 && Accepted(c) && EncodeChar(c) == [b0, b1, b2, b3]
  {
    Digits4(b0 - 0xF0, b1 - 0x80, b2 - 0x80, b3 - 0x80);
    assert 0x1_0000 <= Join4(b0, b1, b2, b3) <= 0x10FFFF;
  }

  /** What passes is the encoding of an accepted code point. */
  lemma {:induction false} StepSound(s: seq<byte>) returns (c: nat)
    requires s != [] && s[0] != 0 && Step(s) > 0
    ensures Step(s) <= |s| && Accepted(c) && EncodeChar(c) == s[..Step(s)]
  {
    StepWithin(s);
    if Step(s) == 1 {
      c := s[0];
    } else if Step(s) == 2 {
      TwoBytes(s[0], s[1]);
      c := Join2(s[0], s[1]);
    } else if Step(s) == 3 {
      ThreeBytes(s[0], s[1], s[2]);
      c := Join3(s[0], s[1], s[2]);
    } else {
      FourBytes(s[0], s[1], s[2], s[3]);
      c := Join4(s[0], s[1], s[2], s[3]);
    }
  }

  lemma {:induction false} Digits3(x: nat, y: nat, z: nat)
    requires y < 64 && z < 64
    ensures var c := 4096 * x + 64 * y + z; c / 4096 == x && c / 64 % 64 == y && c % 64 == z
  {
    var c := 4096 * x + 64 * y + z;
    assert c / 64 == 64 * x + y;
  }

  lemma {:induction false} Digits4(w: nat, x: nat, y: nat, z: nat)
    requires x < 64 && y < 64 && z < 64
    ensures var c := 0x4_0000 * w + 4096 * x + 64 * y + z;
            c / 0x4_0000 == w && c / 4096 % 64 == x && c / 64 % 64 == y && c % 64 == z
  {
    var c := 0x4_0000 * w + 4096 * x + 64 * y + z;
    assert c / 4096 == 64 * w + x;
    assert c / 64 == 64 * (64 * w + x) + y;
  }

  /** The encoding of an accepted code point passes, whatever follows. */
  lemma {:induction false} StepComplete(c: nat, rest: seq<byte>)
    requires Accepted(c)
    ensures Step(EncodeChar(c) + rest) == |EncodeChar(c)| && EncodeChar(c)[0] != 0
  {
    var s := EncodeChar(c) + rest;
    if c < 0x80 {
    } else if c < 0x800 {
      assert At(s, 1) == 0x80 + c % 64;
    } else if c < 0x1_0000 {
      assert At(s, 1) == 0x80 + c / 64 % 64 && At(s, 2) == 0x80 + c % 64;
      Step3(s, c);
    } else {
      assert At(s, 1) == 0x80 + c / 4096 % 64 && At(s, 2) == 0x80 + c / 64 % 64 && At(s, 3) == 0x80 + c % 64;
      Step4(s, c);
    }
  }

  lemma {:induction false} Step3(s: seq<byte>, c: nat)
    requires s != [] && Accepted(c) && 0x800 <= c < 0x1_0000
    requires At(s, 0) == 0xE0 + c / 4096 && At(s, 1) == 0x80 + c / 64 % 64 && At(s, 2) == 0x80 + c % 64
    ensures Step(s) == 3
  {
    Split3(c);
  }

  lemma {:induction false} Step4(s: seq<byte>, c: nat)
    requires s != [] && Accepted(c) && 0x1_0000 <= c
    requires At(s, 0) == 0xF0 + c / 0x4_0000 && At(s, 1) == 0x80 + c / 4096 % 64
    requires At(s, 2) == 0x80 + c / 64 % 64 && At(s, 3) == 0x80 + c % 64
    ensures Step(s) == 4
  {
    Split4(c);
  }

  lemma {:induction false} Split3(c: nat)
    ensures c == 4096 * (c / 4096) + 64 * (c / 64 % 64) + c % 64
  {
    assert c / 64 / 64 == c / 4096;
  }

  lemma {:induction false} Split4(c: nat)
    ensures c == 0x4_0000 * (c / 0x4_0000) + 4096 * (c / 4096 % 64) + 64 * (c / 64 % 64) + c % 64
  {
    Split3(c);
    assert c / 4096 / 64 == c / 0x4_0000;
  }

  lemma {:induction false} Prepend(c: nat, rest: seq<nat>, s: seq<byte>, n: nat)
    requires Accepted(c) && forall k :: 0 <= k < |rest| ==> Accepted(rest[k])
    requires n <= |s| && EncodeChar(c) == s[..n] && Encode(rest) == s[n..]
    ensures forall k :: 0 <= k < |[c] + rest| ==> Accepted(([c] + rest)[k])
    ensures Encode([c] + rest) == s
  {
    assert ([c] + rest)[1..] == rest;
    assert s == s[..n] + s[n..];
  }

  lemma {:induction false} PassesSound(s: seq<byte>) returns (text: seq<nat>)
    requires Passes(s) && forall k :: 0 <= k < |s| ==> s[k] != 0
    ensures (forall k :: 0 <= k < |text| ==> Accepted(text[k])) && Encode(text) == s
    decreases |s|
  {
    if s == [] {
      text := [];
    } else {
      var c := StepSound(s);
      var n := Step(s);
      var rest := PassesSound(s[n..]);
      text := [c] + rest;
      Prepend(c, rest, s, n);
    }
  }

  lemma {:induction false} PassesComplete(text: seq<nat>)
    requires forall k :: 0 <= k < |text| ==> Accepted(text[k])
    ensures Passes(Encode(text))
  {
    if text != [] {
      var head, tail := EncodeChar(text[0]), Encode(text[1..]);
      StepComplete(text[0], tail);
      PassesComplete(text[1..]);
      assert (head + tail)[|head|..] == tail;
    }
  }

  /** A string without NUL passes exactly when it is a concatenation of UTF-8 characters. */
  lemma {:induction false} PassesIsUtf8(s: seq<byte>)
    requires forall k :: 0 <= k < |s| ==> s[k] != 0
    ensures Passes(s) <==> IsUtf8(s)
  {
    if Passes(s) {
      var text := PassesSound(s);
    }
    if IsUtf8(s) {
      var text: seq<nat> :| (forall k :: 0 <= k < |text| ==> Accepted(text[k])) && Encode(text) == s;
      PassesComplete(text);
    }
  }
}
