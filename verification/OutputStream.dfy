/** `pb_ostream_t` over a memory buffer or just counting, and the writers built on it. */
module OutputStream {
  import opened Wire
  import opened Varint
  import opened Encoding

  /** What a writer returns: success or the error it set. */
  datatype Outcome =
    | Done
    | StreamFull
    | ArrayMaxSizeExceeded
    | BytesSizeExceeded
    | ZeroLengthString
    | UnterminatedString
    | SubmsgSizeChanged

  /** A stream at one moment. */
  datatype Image = Image(sizing: bool, buf: seq<byte>, state: nat, written: nat)
  {
    /** Exactly `data` has been written between this moment and `later`, and nothing else of
        the buffer has changed. */
    ghost predicate Wrote(data: seq<byte>, later: Image) {
      && later.sizing == sizing
      && later.written == written + |data|
      && (if sizing then later.buf == buf
          else
            && later.state == state + |data| <= |buf| == |later.buf|
            && (forall k :: 0 <= k < |buf| ==> later.buf[k] == if state <= k < state + |data| then data[k - state] else buf[k]))
    }
  }

  lemma {:induction false} WroteNothing(a: Image)
    requires a.sizing || a.state <= |a.buf|
    ensures a.Wrote([], a)
  {
  }

  lemma {:induction false} WroteBoth(a: Image, x: seq<byte>, b: Image, y: seq<byte>, c: Image)
    requires a.Wrote(x, b) && b.Wrote(y, c)
    ensures a.Wrote(x + y, c)
  {
  }

  /** A buffer stream, or a sizing stream, which has no callback and only counts. `base` is
      where in the buffer the stream began. */
  class Stream {
    const sizing: bool
    const buf: array<byte>
    ghost const base: nat
    var state: nat
    const maxSize: nat
    var bytesWritten: nat

    ghost predicate Valid()
      reads this
    {
      !sizing ==> state == base + bytesWritten && bytesWritten <= maxSize && base + maxSize <= buf.Length
    }

    /** There is room for `n` more bytes. */
    ghost predicate Room(n: nat)
      reads this
    {
      sizing || bytesWritten + n <= maxSize
    }

    ghost function Now(): Image
      reads this, buf
    {
      Image(sizing, buf[..], state, bytesWritten)
    }

    constructor (buf: array<byte>, bufsize: nat)
      requires bufsize <= buf.Length
      ensures Valid() && !sizing && this.buf == buf && state == 0 && maxSize == bufsize && bytesWritten == 0
    {
      sizing, this.buf, base, state, maxSize, bytesWritten := false, buf, 0, 0, bufsize, 0;
    }

    constructor Sizing()
      ensures Valid() && sizing && bytesWritten == 0 && fresh(buf)
    {
      sizing, buf, base, state, maxSize, bytesWritten := true, new byte[0], 0, 0, 0, 0;
    }

    /** A stream that goes on where `parent` is, limited to `size` bytes. */
    constructor Limited(parent: Stream, size: nat)
      requires parent.Valid() && !parent.sizing && parent.Room(size)
      ensures Valid() && !sizing && buf == parent.buf && base == state == parent.state
      ensures maxSize == size && bytesWritten == 0
    {
      sizing, buf, base, state, maxSize, bytesWritten := false, parent.buf, parent.state, parent.state, size, 0;
    }

    /** `pb_write` with `buf_write`. */
    method Write(data: seq<byte>) returns (r: Outcome)
      requires Valid()
      modifies this, buf
      ensures Valid()
      ensures r == if old(Room(|data|)) then Done else StreamFull
      ensures r.Done? ==> old(Now()).Wrote(data, Now())
    {
      if |data| > 0 && !sizing {
        if bytesWritten + |data| > maxSize {
          return StreamFull;
        }
        ghost var before := buf[..];
        var i := 0;
        while i < |data|
          invariant 0 <= i <= |data| && bytesWritten == old(bytesWritten) && state == old(state)
          invariant forall k :: 0 <= k < buf.Length ==> buf[k] == if state <= k < state + i then data[k - state] else before[k]
        {
          buf[state + i] := data[i];
          i := i + 1;
        }
        state := state + |data|;
      }
      bytesWritten := bytesWritten + |data|;
      if data == [] && !sizing {
        WroteNothing(old(Now()));
      }
      return Done;
    }

    /** `pb_write(stream, NULL, count)` on a sizing stream. */
    method Count(count: nat)
      requires Valid() && sizing
      modifies this
      ensures Valid() && bytesWritten == old(bytesWritten) + count
    {
      bytesWritten := bytesWritten + count;
    }

    /** `pb_encode_varint_32`: the minimal base-128 form of the number the two words make,
        without 64-bit shifts, and within the ten bytes of the local buffer. */
    method EncodeVarint32(lowWord: nat, highWord: nat) returns (r: Outcome)
      requires Valid() && lowWord < TWO32 && highWord < TWO32
      modifies this, buf
      ensures Valid() && |Base128(lowWord + TWO32 * highWord)| <= 10
      ensures r == if old(Room(|Base128(lowWord + TWO32 * highWord)|)) then Done else StreamFull
      ensures r.Done? ==> old(Now()).Wrote(Base128(lowWord + TWO32 * highWord), Now())
    {
      var data := SplitVarint(lowWord, highWord);
      r := Write(data);
    }

    /** `pb_encode_varint`. */
    method EncodeVarint(value: nat) returns (r: Outcome)
      requires Valid() && value < TWO64
      modifies this, buf
      ensures Valid()
      ensures r == if old(Room(|Base128(value)|)) then Done else StreamFull
      ensures r.Done? ==> old(Now()).Wrote(Base128(value), Now())
    {
      if value <= 0x7F {
        r := Write([value]);
      } else {
        r := EncodeVarint32(value % TWO32, value / TWO32);
      }
    }

    /** `pb_encode_svarint`: the sign bit is masked off, the rest shifted and inverted. */
    method EncodeSVarint(value: int) returns (r: Outcome)
      requires Valid() && -TWO63 <= value < TWO63
      modifies this, buf
      ensures Valid()
      ensures r == if old(Room(|Base128(ZigZag(value))|)) then Done else StreamFull
      ensures r.Done? ==> old(Now()).Wrote(Base128(ZigZag(value)), Now())
    {
      var zigzagged := if value < 0 then TWO64 - 1 - 2 * ((value + TWO64) % TWO63) else 2 * value;
      ZigZagBijective(value, 0);
      r := EncodeVarint(zigzagged);
    }

    /** `pb_encode_fixed32` and `pb_encode_fixed64`. */
    method EncodeFixed(value: nat, n: nat) returns (r: Outcome)
      requires Valid() && (n == 4 || n == 8)
      modifies this, buf
      ensures Valid()
      ensures r == if old(Room(n)) then Done else StreamFull
      ensures r.Done? ==> old(Now()).Wrote(LittleEndian(value, n), Now())
    {
      r := Write(LittleEndian(value, n));
    }

    /** `pb_encode_string`. */
    method EncodeString(data: seq<byte>) returns (r: Outcome)
      requires Valid() && |data| < TWO64
      modifies this, buf
      ensures Valid()
      ensures r == if old(Room(|Prefixed(data)|)) then Done else StreamFull
      ensures r.Done? ==> old(Now()).Wrote(Prefixed(data), Now())
    {
      ghost var start := Now();
      r := EncodeVarint(|data|);
      if !r.Done? {
        return;
      }
      ghost var mid := Now();
      r := Write(data);
      if r.Done? {
        WroteBoth(start, Base128(|data|), mid, data, Now());
      }
    }
  }

  // ------------------------------------------------------------------
  // The split-word varint encoder
  // ------------------------------------------------------------------

  /** What one unit of the high word weighs once `i` groups of the number are written. */
  function Weight(i: nat): nat {
    if i == 0 then TWO32 else if i == 1 then 0x200_0000 else if i == 2 then 0x4_0000 else if i == 3 then 0x800 else 0x10
  }

  /** Exclusive bound on the low word once `i` groups are written and one more is cut off. */
  function LowBound(i: nat): nat {
    if i == 0 then 0x200_0000 else if i == 1 then 0x4_0000 else if i == 2 then 0x800 else if i == 3 then 0x10 else 1
  }

  /** Exclusive bound on what is left of the high word once `i` groups are written. */
  function HighBound(i: nat): nat {
    if i == 4 then 0x2000_0000 else if i == 5 then 0x40_0000 else if i == 6 then 0x8000
    else if i == 7 then 0x100 else if i == 8 then 2 else 1
  }

  function Join(group: nat, low: nat, high: nat, i: nat): nat {
    group + 128 * low + Weight(i) * high
  }

  lemma {:induction false} LowGroupStep(group: nat, low: nat, high: nat, i: nat)
    requires i < 4 && group < 128 && low < LowBound(i) && (low != 0 || high != 0)
    ensures Base128(Join(group, low, high, i)) == [group + 128] + Base128(Join(low % 128, low / 128, high, i + 1))
    ensures low / 128 < LowBound(i + 1) && (i == 3 ==> low % 128 < 16)
  {
    var w := Weight(i + 1) * high;
    assert Weight(i) * high == 128 * w by {
      assert Weight(i) == 128 * Weight(i + 1);
      Associate(128, Weight(i + 1), high);
    }
    var v := Join(group, low, high, i);
    assert v == group + 128 * (low + w);
    assert high != 0 ==> w > 0 by { if high != 0 { Grows(Weight(i + 1), high); } }
    assert v >= 128 && v % 128 == group && v / 128 == low + w;
  }

  lemma {:induction false} Associate(a: nat, b: nat, c: nat)
    ensures a * b * c == a * (b * c)
  {
  }

  lemma {:induction false} Grows(a: nat, b: nat)
    requires a > 0 && b > 0
    ensures a * b > 0
  {
  }

  lemma {:induction false} HighGroupStep(group: nat, high: nat, i: nat)
    requires 4 <= i <= 9 && group < 128 && 0 < high < HighBound(i)
    ensures i < 9 && high / 128 < HighBound(i + 1)
    ensures Base128(group + 128 * high) == [group + 128] + Base128(high % 128 + 128 * (high / 128))
  {
    var v := group + 128 * high;
    assert v >= 128 && v % 128 == group && v / 128 == high;
  }

  /** Moving the low three bits of the high word into the fifth group. */
  lemma {:induction false} MiddleGroup(group: nat, high: nat)
    requires group < 16 && high < TWO32
    ensures Join(group, 0, high, 4) == group + 16 * (high % 8) + 128 * (high / 8)
    ensures group + 16 * (high % 8) < 128 && high / 8 < HighBound(4)
  {
  }

  lemma {:induction false} Emit(done: seq<byte>, b: byte, rest: seq<byte>)
    ensures done + ([b] + rest) == (done + [b]) + rest
  {
  }

  /** The number the loops still have to write: what is behind the bytes in `buffer`. */
  ghost predicate Writing(buffer: array<byte>, i: nat, rest: nat, all: seq<byte>)
    reads buffer
  {
    buffer.Length == 10 && i < 10 && all == buffer[..i] + Base128(rest)
  }

  /** `buffer[i++] = byte | 0x80`. */
  method Put(buffer: array<byte>, i: nat, group: nat, ghost v: nat, ghost rest: nat, ghost all: seq<byte>)
    requires group < 128 && Writing(buffer, i, v, all) && Base128(v) == [group + 0x80] + Base128(rest) && i < 9
    modifies buffer
    ensures Writing(buffer, i + 1, rest, all)
  {
    Emit(buffer[..i], group + 0x80, Base128(rest));
    buffer[i] := group + 0x80;
    assert buffer[..i + 1] == buffer[..i] + [group + 0x80];
  }

  /** The loop over the low word: up to four groups. */
  method PutLowWord(buffer: array<byte>, lowWord: nat, high: nat, ghost all: seq<byte>) returns (i: nat, group: nat)
    requires buffer.Length == 10 && lowWord < TWO32 && all == Base128(lowWord + TWO32 * high)
    modifies buffer
    ensures i <= 4 && group < 128 && (high != 0 ==> i == 4 && group < 16)
    ensures Writing(buffer, i, Join(group, 0, high, i), all)
  {
    i, group := 0, lowWord % 128;
    var low: nat := lowWord / 128;
    assert buffer[..0] == [];
    assert lowWord + TWO32 * high == Join(group, low, high, 0);
    while i < 4 && (low != 0 || high != 0)
      invariant i <= 4 && group < 128 && low < LowBound(i)
      invariant i == 4 ==> group < 16
      invariant Writing(buffer, i, Join(group, low, high, i), all)
      decreases 4 - i
    {
      LowGroupStep(group, low, high, i);
      Put(buffer, i, group, Join(group, low, high, i), Join(low % 128, low / 128, high, i + 1), all);
      i, group, low := i + 1, low % 128, low / 128;
    }
  }

  /** The loop over what is left of the high word. */
  method PutHighWord(buffer: array<byte>, highRest: nat, firstGroup: nat, ghost all: seq<byte>) returns (i: nat, group: nat)
    requires firstGroup < 128 && highRest < HighBound(4) && Writing(buffer, 4, firstGroup + 128 * highRest, all)
    modifies buffer
    ensures i <= 9 && group < 128 && Writing(buffer, i, group, all)
  {
    i, group := 4, firstGroup;
    var high: nat := highRest;
    while high != 0
      invariant 4 <= i <= 9 && group < 128 && high < HighBound(i)
      invariant Writing(buffer, i, group + 128 * high, all)
      decreases high
    {
      HighGroupStep(group, high, i);
      Put(buffer, i, group, group + 128 * high, high % 128 + 128 * (high / 128), all);
      i, group, high := i + 1, high % 128, high / 128;
    }
  }

  /** The body of `pb_encode_varint_32`, filling its local buffer. */
  method SplitVarint(lowWord: nat, highWord: nat) returns (data: seq<byte>)
    requires lowWord < TWO32 && highWord < TWO32
    ensures data == Base128(lowWord + TWO32 * highWord) && |data| <= 10
  {
    ghost var all := Base128(lowWord + TWO32 * highWord);
    var buffer := new byte[10];
    var i, group := PutLowWord(buffer, lowWord, highWord, all);
    if highWord != 0 {
      MiddleGroup(group, highWord);
      i, group := PutHighWord(buffer, highWord / 8, group + 16 * (highWord % 8), all);
    }
    buffer[i] := group;
    assert buffer[..i + 1] == buffer[..i] + [group];
    return buffer[..i + 1];
  }
}
