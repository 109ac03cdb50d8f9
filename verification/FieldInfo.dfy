/** The packed field descriptors of `pb.h` and what `load_descriptor_values` makes of them.

    Words are natural numbers below 2^32; `x << k` is a product, `x >> k` a quotient, a mask of
    low bits a remainder, and `|` of disjoint bit ranges a sum. */
module FieldInfo {
  /** The parameters of the `PB_FIELDINFO_*` macros. */
  datatype Info = Info(tag: nat, kind: nat, dataOffset: nat, dataSize: nat, sizeOffset: nat, arraySize: nat)

  /** A descriptor has two to the power of its format words. */
  type Format = w: nat | w < 4

  function Words(w: Format): (n: nat)
    ensures 1 <= n <= 8
  {
    if w == 0 then 1 else if w == 1 then 2 else if w == 2 then 4 else 8
  }

  const B16 := 0x1_0000
  const B24 := 0x100_0000
  const B28 := 0x1000_0000

  // ------------------------------------------------------------------
  // Packing
  // ------------------------------------------------------------------

  /** The low half of the first word: format, low tag bits and type. */
  function Head(f: Info, w: Format): nat {
    w + 4 * (f.tag % 64) + 256 * f.kind
  }

  /** The second word of the wide formats. A size offset whose low byte is negative as
      `int_least8_t` is sign-extended over the tag bits. */
  function Second(f: Info): nat {
    if f.sizeOffset % 256 < 128 then f.sizeOffset % 256 + 256 * (f.tag / 64 % B24) else 0xFFFF_FF00 + f.sizeOffset % 256
  }

  function Pack(f: Info, w: Format): (words: seq<nat>)
    ensures |words| == Words(w)
  {
    if w == 0 then [Head(f, 0) + B16 * (f.dataOffset % 256) + B24 * (f.sizeOffset % 16) + B28 * (f.dataSize % 16)]
    else if w == 1 then
      [Head(f, 1) + B16 * (f.arraySize % 4096) + B28 * (f.sizeOffset % 16),
       f.dataOffset % B16 + B16 * (f.dataSize % 4096) + B28 * (f.tag / 64 % 16)]
    else if w == 2 then [Head(f, 2) + B16 * (f.arraySize % B16), Second(f), f.dataOffset, f.dataSize]
    else [Head(f, 3), Second(f), f.dataOffset, f.dataSize, f.arraySize, 0, 0, 0]
  }

  /** `PB_FIELDINFO_ASSERT_*` with 16-bit `pb_size_t`; the type always fits a byte. */
  predicate Fits(f: Info, w: Format) {
    && f.kind < 0x100
    && (if w == 0 then f.tag < 0x40 && f.dataOffset < 0x100 && f.sizeOffset < 0x10 && f.dataSize < 0x10 && f.arraySize < 2
        else if w == 1 then f.tag < 0x400 && f.dataOffset < B16 && f.sizeOffset < 0x10 && f.dataSize < 0x1000 && f.arraySize < 0x1000
        else f.tag < B16 && f.dataOffset < B16 && f.sizeOffset % 256 < 128 && f.dataSize < B16 && f.arraySize < B16)
  }

  // ------------------------------------------------------------------
  // Loading
  // ------------------------------------------------------------------

  function FormatOf(word0: nat): Format {
    word0 % 4
  }

  function TagBits(word0: nat): nat {
    word0 / 4 % 64
  }

  function Kind(word0: nat): nat {
    word0 / 256 % 256
  }

  /** `load_descriptor_values`: the words of one descriptor, by their own format; `% B16` is the
      cast to `pb_size_t`. */
  function Load(s: seq<nat>): Info
    requires s != [] && |s| >= Words(FormatOf(s[0]))
  {
    var w, tag, kind := FormatOf(s[0]), TagBits(s[0]), Kind(s[0]);
    if w == 0 then Info(tag, kind, s[0] / B16 % 256, s[0] / B28 % 16, s[0] / B24 % 16, 1)
    else if w == 1 then
      Info((tag + s[1] / B28 * 64) % B16, kind, s[1] % B16, s[1] / B16 % 4096, s[0] / B28 % 16, s[0] / B16 % 4096)
    else if w == 2 then Info((tag + s[1] / 256 * 64) % B16, kind, s[2], s[3] % B16, s[1] % 256, s[0] / B16 % B16)
    else Info((tag + s[1] / 256 * 64) % B16, kind, s[2], s[3] % B16, s[1] % 256, s[4] % B16)
  }

  /** What is loaded from a packed descriptor that passes the assertion. */
  function Reloaded(f: Info, w: Format): Info {
    if w == 0 then f.(arraySize := 1) else if w == 1 then f else f.(sizeOffset := f.sizeOffset % 256)
  }

  /** The first word tells format, low tag bits and type; the whole tells everything. */
  ghost predicate Describes(s: seq<nat>, f: Info, w: Format) {
    && s != [] && FormatOf(s[0]) == w && TagBits(s[0]) == f.tag % 64 && Kind(s[0]) == f.kind
    && |s| >= Words(w) && Load(s) == Reloaded(f, w)
  }

  lemma {:induction false} HeadParts(tag: nat, kind: nat, w: Format, high: nat)
    requires kind < 256
    ensures var x := w + 4 * (tag % 64) + 256 * kind + B16 * high;
            FormatOf(x) == w && TagBits(x) == tag % 64 && Kind(x) == kind && x / B16 == high
  {
    var t := tag % 64;
    var x := w + 4 * t + 256 * kind + B16 * high;
    assert x / 4 == t + 64 * (kind + 256 * high);
    assert x / 256 == kind + 256 * high;
  }

  /** The four fields of a one-word descriptor's high half. */
  lemma {:induction false} HighHalf(x: nat, a: nat, b: nat, c: nat)
    requires a < 256 && b < 16 && c < 16 && x / B16 == a + 256 * b + 4096 * c
    ensures x / B16 % 256 == a && x / B24 % 16 == b && x / B28 % 16 == c
  {
    assert x / B24 == x / B16 / 256;
    assert x / B28 == x / B16 / 4096;
  }

  lemma {:induction false} OneWord(f: Info)
    requires Fits(f, 0)
    ensures Pack(f, 0)[0] == 0 + 4 * (f.tag % 64) + 256 * f.kind + B16 * (f.dataOffset + 256 * f.sizeOffset + 4096 * f.dataSize)
  {
    assert f.dataOffset % 256 == f.dataOffset && f.sizeOffset % 16 == f.sizeOffset && f.dataSize % 16 == f.dataSize;
  }

  lemma {:induction false} OneWordParts(f: Info, x: nat)
    requires Fits(f, 0)
    requires x == 0 + 4 * (f.tag % 64) + 256 * f.kind + B16 * (f.dataOffset + 256 * f.sizeOffset + 4096 * f.dataSize)
    ensures FormatOf(x) == 0 && TagBits(x) == f.tag && Kind(x) == f.kind
    ensures x / B16 % 256 == f.dataOffset && x / B24 % 16 == f.sizeOffset && x / B28 % 16 == f.dataSize
  {
    HeadParts(f.tag, f.kind, 0, f.dataOffset + 256 * f.sizeOffset + 4096 * f.dataSize);
    HighHalf(x, f.dataOffset, f.sizeOffset, f.dataSize);
  }

  lemma {:induction false} Describes1(f: Info, rest: seq<nat>)
    requires Fits(f, 0)
    ensures Describes(Pack(f, 0) + rest, f, 0)
  {
    OneWord(f);
    OneWordParts(f, Pack(f, 0)[0]);
    assert (Pack(f, 0) + rest)[0] == Pack(f, 0)[0];
  }

  lemma {:induction false} TwoFields(x: nat, a: nat, b: nat)
    requires a < 4096 && b < 16 && x / B16 == a + 4096 * b
    ensures x / B16 % 4096 == a && x / B28 == b && x / B28 % 16 == b
  {
    assert x / B28 == x / B16 / 4096;
  }

  lemma {:induction false} TagFromParts(tag: nat)
    requires tag < B16
    ensures tag % 64 + tag / 64 * 64 == tag && tag / 64 < 1024
  {
  }

  lemma {:induction false} TwoWordFirst(f: Info)
    requires Fits(f, 1)
    ensures Pack(f, 1)[0] == 1 + 4 * (f.tag % 64) + 256 * f.kind + B16 * (f.arraySize + 4096 * f.sizeOffset)
  {
    assert f.arraySize % 4096 == f.arraySize && f.sizeOffset % 16 == f.sizeOffset;
  }

  lemma {:induction false} TwoWordSecond(f: Info)
    requires Fits(f, 1)
    ensures Pack(f, 1)[1] == f.dataOffset + B16 * (f.dataSize + 4096 * (f.tag / 64)) && f.tag / 64 < 16
  {
    assert f.dataOffset % B16 == f.dataOffset && f.dataSize % 4096 == f.dataSize && f.tag / 64 % 16 == f.tag / 64;
  }

  lemma {:induction false} LowHigh(x: nat, low: nat, high: nat)
    requires low < B16 && x == low + B16 * high
    ensures x % B16 == low && x / B16 == high
  {
  }

  lemma {:induction false} TwoWords(f: Info)
    requires Fits(f, 1)
    ensures var p := Pack(f, 1);
            && FormatOf(p[0]) == 1 && TagBits(p[0]) == f.tag % 64 && Kind(p[0]) == f.kind
            && p[0] / B16 % 4096 == f.arraySize && p[0] / B28 % 16 == f.sizeOffset
            && p[1] % B16 == f.dataOffset && p[1] / B16 % 4096 == f.dataSize && p[1] / B28 == f.tag / 64
  {
    var x, y := Pack(f, 1)[0], Pack(f, 1)[1];
    TwoWordFirst(f);
    TwoWordSecond(f);
    HeadParts(f.tag, f.kind, 1, f.arraySize + 4096 * f.sizeOffset);
    TwoFields(x, f.arraySize, f.sizeOffset);
    LowHigh(y, f.dataOffset, f.dataSize + 4096 * (f.tag / 64));
    TwoFields(y, f.dataSize, f.tag / 64);
  }

  lemma {:induction false} Describes2(f: Info, rest: seq<nat>)
    requires Fits(f, 1)
    ensures Describes(Pack(f, 1) + rest, f, 1)
  {
    TwoWords(f);
    TagFromParts(f.tag);
    var p := Pack(f, 1);
    assert (p + rest)[0] == p[0] && (p + rest)[1] == p[1];
  }

  lemma {:induction false} SecondParts(f: Info)
    requires f.tag < B16 && f.sizeOffset % 256 < 128
    ensures Second(f) % 256 == f.sizeOffset % 256 && Second(f) / 256 == f.tag / 64
  {
    TagFromParts(f.tag);
  }

  lemma {:induction false} Describes4(f: Info, rest: seq<nat>)
    requires Fits(f, 2)
    ensures Describes(Pack(f, 2) + rest, f, 2)
  {
    HeadParts(f.tag, f.kind, 2, f.arraySize);
    SecondParts(f);
    TagFromParts(f.tag);
  }

  lemma {:induction false} Describes8(f: Info, rest: seq<nat>)
    requires Fits(f, 3)
    ensures Describes(Pack(f, 3) + rest, f, 3)
  {
    HeadParts(f.tag, f.kind, 3, 0);
    SecondParts(f);
    TagFromParts(f.tag);
  }

  lemma {:induction false} PackedDescribes(f: Info, w: Format, rest: seq<nat>)
    requires Fits(f, w)
    ensures Describes(Pack(f, w) + rest, f, w)
  {
    if w == 0 {
      Describes1(f, rest);
    } else if w == 1 {
      Describes2(f, rest);
    } else if w == 2 {
      Describes4(f, rest);
    } else {
      Describes8(f, rest);
    }
  }

  /** Descriptors for which packing keeps everything: a one-word descriptor has no room for the
      array size, and the wide ones keep one byte of the size offset. */
  predicate Kept(f: Info, w: Format) {
    if w == 0 then f.arraySize == 1 else w >= 2 ==> f.sizeOffset < 0x100
  }

  /** The values loaded are those packed exactly when the descriptor is one that is kept. The
      assertion of the one-word format lets an array size of 0 pass, which loads as 1; that of
      the wide formats looks at the low byte of the size offset only. */
  lemma {:induction false} RoundTripExact(f: Info, w: Format, rest: seq<nat>)
    requires Fits(f, w)
    ensures FormatOf((Pack(f, w) + rest)[0]) == w
    ensures Load(Pack(f, w) + rest) == f <==> Kept(f, w)
  {
    PackedDescribes(f, w, rest);
  }

  /** A one-word descriptor of array size 0 passes the assertion and loads with array size 1. */
  lemma {:induction false} ZeroArraySizeLost(f: Info, rest: seq<nat>)
    requires f == Info(1, 0, 0, 1, 0, 0)
    ensures Fits(f, 0) && Load(Pack(f, 0) + rest) == f.(arraySize := 1) != f
  {
    PackedDescribes(f, 0, rest);
  }

  /** A size offset of 256 passes the assertion of the wide formats and loads as 0. */
  lemma {:induction false} WideSizeOffsetLost(f: Info, w: Format, rest: seq<nat>)
    requires f == Info(1, 0, 300, 4, 256, 1) && w >= 2
    ensures Fits(f, w) && Load(Pack(f, w) + rest) == f.(sizeOffset := 0) != f
  {
    PackedDescribes(f, w, rest);
  }
}
