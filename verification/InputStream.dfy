/** `pb_istream_t` over a memory buffer, and the readers built on it. */
module InputStream {
  import opened Wire
  import opened Varint
  import opened Encoding
  import opened Decoding

  /** `p` as seen from `n` bytes earlier. */
  function After(p: Parsed, n: nat): Parsed {
    if p.Bad? then Bad else Got(p.value, p.used + n)
  }

  lemma {:induction false} Shift7Scale(x: nat, k: nat)
    requires 1 <= k <= 4
    ensures Shift7(x, k) == Scale(k, x)
  {
    assert Shift7(x, 1) == 128 * Shift7(x, 0);
    assert Shift7(x, 2) == 128 * Shift7(x, 1);
    assert Shift7(x, 3) == 128 * Shift7(x, 2);
    assert Shift7(x, 4) == 128 * Shift7(x, 3);
  }

  /** Taking one more byte into the low groups. */
  lemma {:induction false} AheadStep(s: seq<byte>, k: nat, low: nat, n: nat)
    requires k <= 9 && s != [] && (k == 9 ==> s[0] < 2)
    ensures Ahead(Parse64From(s, k), low, k, n)
         == if s[0] < 0x80 then Got(low + Shift7(Group(s[0]), k), n + 1)
            else Ahead(Parse64From(s[1..], k + 1), low + Shift7(Group(s[0]), k), k + 1, n + 1)
  {
    if s[0] >= 0x80 {
      var p := Parse64From(s[1..], k + 1);
      if p.Got? {
        Shift7Split(Group(s[0]), p.value, k);
      }
    }
  }

  /** The checks on one later byte in `pb_decode_varint32`, at bit position `7 * groups`. */
  method AcceptGroup(b: byte, groups: nat, result: nat) returns (ok: bool, value: nat)
    requires groups >= 1
    ensures Next32(b, groups, result) == if ok then Some(value) else None
  {
    value := result;
    ok := true;
    MaskFacts(b);
    var bitpos := 7 * groups;
    if bitpos >= 32 {
      var signExtension := if bitpos < 63 then 0xFF else 0x01;
      var validExtension := b % 0x80 == 0 || (result / TWO31 != 0 && b == signExtension);
      if bitpos >= 64 || !validExtension {
        ok := false;
      }
    } else if bitpos == 28 {
      if b / 16 % 8 != 0 && b / 8 % 16 != 15 {
        ok := false;
      } else {
        Shift7Scale(b % 16, 4);
        value := result + Shift7(b % 16, groups);
      }
    } else {
      Shift7Scale(b % 0x80, groups);
      value := result + Shift7(b % 0x80, groups);
    }
  }

  class Stream {
    const buf: seq<byte>
    var state: nat
    var bytesLeft: nat

    ghost predicate Valid()
      reads this
    {
      state + bytesLeft <= |buf|
    }

    /** The bytes still to be read. */
    ghost function Rest(): (s: seq<byte>)
      requires Valid()
      reads this
      ensures |s| == bytesLeft
    {
      buf[state..state + bytesLeft]
    }

    constructor (buf: seq<byte>, length: nat)
      requires length <= |buf|
      ensures Valid() && this.buf == buf && Rest() == buf[..length]
    {
      this.buf := buf;
      this.state, this.bytesLeft := 0, length;
    }

    /** A copy of `parent` limited to its next `size` bytes. */
    constructor Limited(parent: Stream, size: nat)
      requires parent.Valid() && size <= parent.bytesLeft
      ensures Valid() && buf == parent.buf && state == parent.state && bytesLeft == size
      ensures Rest() == parent.Rest()[..size]
    {
      buf, state, bytesLeft := parent.buf, parent.state, size;
    }

    /** `pb_read`; reading into NULL is a read whose data is dropped. */
    method Read(count: nat) returns (ok: bool, data: seq<byte>)
      requires Valid()
      modifies this
      ensures Valid() && state + bytesLeft == old(state + bytesLeft)
      ensures ok <==> count <= old(bytesLeft)
      ensures ok ==> data == old(Rest())[..count] && Rest() == old(Rest())[count..] && bytesLeft == old(bytesLeft) - count
      ensures !ok ==> state == old(state) && bytesLeft == old(bytesLeft)
    {
      data := [];
      if count == 0 {
        return true, [];
      }
      if bytesLeft < count {
        return false, [];
      }
      data := buf[state..state + count];
      state := state + count;
      bytesLeft := bytesLeft - count;
      ok := true;
    }

    method ReadByte() returns (ok: bool, b: byte)
      requires Valid()
      modifies this
      ensures Valid() && state + bytesLeft == old(state + bytesLeft)
      ensures ok <==> old(bytesLeft) > 0
      ensures ok ==> b == old(Rest())[0] && Rest() == old(Rest())[1..]
      ensures !ok ==> state == old(state) && bytesLeft == old(bytesLeft)
    {
      if bytesLeft == 0 {
        return false, 0;
      }
      b := buf[state];
      state := state + 1;
      bytesLeft := bytesLeft - 1;
      ok := true;
    }

    /** `pb_decode_varint32`. */
    method DecodeVarint32() returns (ok: bool, value: nat)
      requires Valid()
      modifies this
      ensures Valid() && bytesLeft <= old(bytesLeft) && state + bytesLeft == old(state + bytesLeft)
      ensures ok <==> Parse32(old(Rest())).Got?
      ensures ok ==> value == Parse32(old(Rest())).value && Rest() == old(Rest())[Parse32(old(Rest())).used..]
    {
      ghost var s := Rest();
      value := 0;
      var b: byte;
      ok, b := ReadByte();
      if !ok {
        return;
      }
      if b < 0x80 {
        value := b;
        return;
      }
      ok, value := LaterGroups(b % 0x80);
      if ok {
        ghost var n := Parse32(s).used;
        assert s[1..][n - 1..] == s[n..];
      }
    }

    /** Its loop over the bytes behind the first. */
    method LaterGroups(first: nat) returns (ok: bool, value: nat)
      requires Valid()
      modifies this
      ensures Valid() && bytesLeft <= old(bytesLeft) && state + bytesLeft == old(state + bytesLeft)
      ensures ok <==> Parse32From(old(Rest()), 1, first).Got?
      ensures ok ==> value == Parse32From(old(Rest()), 1, first).value
      ensures ok ==> Rest() == old(Rest())[Parse32From(old(Rest()), 1, first).used..]
    {
      ghost var s := Rest();
      ok := true;
      var b: byte;
      var groups: nat := 1;
      value := first;
      var more := true;
      while more
        invariant Valid() && bytesLeft <= |s| && Rest() == s[|s| - bytesLeft..] && ok && groups >= 1
        invariant state + bytesLeft == old(state + bytesLeft)
        invariant more ==> Parse32From(s, 1, first) == After(Parse32From(Rest(), groups, value), |s| - bytesLeft)
        invariant !more ==> Parse32From(s, 1, first) == Got(value, |s| - bytesLeft)
        decreases if more then 1 + bytesLeft else 0
      {
        ghost var rest := Rest();
        ok, b := ReadByte();
        if !ok {
          return;
        }
        ok, value := AcceptGroup(b, groups, value);
        if !ok {
          return;
        }
        groups := groups + 1;
        more := b >= 0x80;
        assert Rest() == rest[1..];
      }
    }

    /** What is left to read of `s`, which the stream held at some earlier moment. */
    ghost predicate Behind(s: seq<byte>)
      reads this
    {
      Valid() && bytesLeft <= |s| && Rest() == s[|s| - bytesLeft..]
    }

    /** One round of `pb_decode_varint`, with `groups` groups of the number in `value`. */
    method TakeGroup(groups: nat, value: nat, ghost s: seq<byte>) returns (ok: bool, more: bool, value': nat)
      requires Behind(s) && groups <= 9
      requires Parse64(s) == Ahead(Parse64From(Rest(), groups), value, groups, |s| - bytesLeft)
      modifies this
      ensures Behind(s) && state + bytesLeft == old(state + bytesLeft) && bytesLeft <= old(bytesLeft)
      ensures !ok ==> Parse64(s).Bad?
      ensures ok ==> bytesLeft < old(bytesLeft)
      ensures ok && more ==> groups < 9 && Parse64(s) == Ahead(Parse64From(Rest(), groups + 1), value', groups + 1, |s| - bytesLeft)
      ensures ok && !more ==> Parse64(s) == Got(value', |s| - bytesLeft)
    {
      ghost var rest := Rest();
      more, value' := false, value;
      var b: byte;
      ok, b := ReadByte();
      if !ok {
        return;
      }
      assert Rest() == s[|s| - bytesLeft..];
      if 7 * groups >= 63 && b / 2 != 0 {
        return false, false, value;
      }
      MaskFacts(b);
      AheadStep(rest, groups, value, |s| - |rest|);
      value' := value + Shift7(b % 0x80, groups);
      more := b >= 0x80;
    }

    /** `pb_decode_varint`. */
    method DecodeVarint() returns (ok: bool, value: nat)
      requires Valid()
      modifies this
      ensures Valid() && bytesLeft <= old(bytesLeft) && state + bytesLeft == old(state + bytesLeft)
      ensures ok <==> Parse64(old(Rest())).Got?
      ensures ok ==> value == Parse64(old(Rest())).value && Rest() == old(Rest())[Parse64(old(Rest())).used..]
    {
      ghost var s := Rest();
      var groups: nat := 0;
      value := 0;
      ok := true;
      var more := true;
      while more
        invariant ok && Behind(s) && state + bytesLeft == old(state + bytesLeft)
        invariant more ==> groups <= 9 && Parse64(s) == Ahead(Parse64From(Rest(), groups), value, groups, |s| - bytesLeft)
        invariant !more ==> Parse64(s) == Got(value, |s| - bytesLeft)
        decreases if more then 1 + bytesLeft else 0
      {
        ok, more, value := TakeGroup(groups, value, s);
        if !ok {
          return;
        }
        groups := groups + 1;
      }
    }

    method SkipVarintBytes() returns (ok: bool)
      requires Valid()
      modifies this
      ensures Valid() && bytesLeft <= old(bytesLeft) && state + bytesLeft == old(state + bytesLeft)
      ensures ok <==> SkipVarint(old(Rest())).Some?
      ensures ok ==> Rest() == old(Rest())[SkipVarint(old(Rest())).value..]
    {
      ghost var s := Rest();
      ok := true;
      var more := true;
      while more
        invariant Valid() && bytesLeft <= |s| && Rest() == s[|s| - bytesLeft..] && ok
        invariant state + bytesLeft == old(state + bytesLeft)
        invariant more ==>
                    SkipVarint(s) == match SkipVarint(Rest()) case None => None case Some(n) => Some(n + |s| - bytesLeft)
        invariant !more ==> SkipVarint(s) == Some(|s| - bytesLeft)
        decreases if more then 1 + bytesLeft else 0
      {
        ghost var rest := Rest();
        var b: byte;
        ok, b := ReadByte();
        if !ok {
          return;
        }
        more := b >= 0x80;
        assert Rest() == rest[1..];
      }
    }

    method SkipString() returns (ok: bool)
      requires Valid()
      modifies this
      ensures Valid() && bytesLeft <= old(bytesLeft) && state + bytesLeft == old(state + bytesLeft)
      ensures ok <==> Delimited(old(Rest())).Extent?
      ensures ok ==> Rest() == old(Rest())[Delimited(old(Rest())).end..]
    {
      ghost var s := Rest();
      var length: nat;
      ok, length := DecodeVarint32();
      if !ok {
        return;
      }
      ghost var mid := Rest();
      var data: seq<byte>;
      ok, data := Read(length);
      assert ok ==> mid[length..] == s[Delimited(s).end..];
    }

    /** `pb_skip_field`. */
    method SkipField(wireType: nat) returns (ok: bool)
      requires Valid()
      modifies this
      ensures Valid() && bytesLeft <= old(bytesLeft) && state + bytesLeft == old(state + bytesLeft)
      ensures ok <==> Skip(wireType, old(Rest())).Some?
      ensures ok ==> Rest() == old(Rest())[Skip(wireType, old(Rest())).value..]
    {
      var data: seq<byte>;
      if wireType == WT_VARINT {
        ok := SkipVarintBytes();
      } else if wireType == WT_64BIT {
        ok, data := Read(8);
      } else if wireType == WT_STRING {
        ok := SkipString();
      } else if wireType == WT_32BIT {
        ok, data := Read(4);
      } else {
        ok := false;
      }
    }

    /** `pb_decode_tag`; at the end of the stream it fails with `eof` set. */
    method DecodeTag() returns (ok: bool, wireType: nat, tag: nat, eof: bool)
      requires Valid()
      modifies this
      ensures Valid() && bytesLeft <= old(bytesLeft) && state + bytesLeft == old(state + bytesLeft)
      ensures eof <==> old(bytesLeft) == 0
      ensures ok <==> Parse32(old(Rest())).Got?
      ensures ok ==> tag == Parse32(old(Rest())).value / 8 && wireType == Parse32(old(Rest())).value % 8
      ensures ok ==> Rest() == old(Rest())[Parse32(old(Rest())).used..]
    {
      eof, wireType, tag := false, 0, 0;
      if bytesLeft == 0 {
        return false, 0, 0, true;
      }
      var key: nat;
      ok, key := DecodeVarint32();
      if ok {
        tag, wireType := key / 8, key % 8;
      }
    }

    /** `pb_make_string_substream`. The parent gives up the payload's bytes at once but its
        position moves only when the substream is closed. */
    method MakeSubstream() returns (ok: bool, sub: Stream)
      requires Valid()
      modifies this
      ensures Valid() && fresh(sub)
      ensures ok <==> Delimited(old(Rest())).Extent?
      ensures ok ==> var Extent(a, b) := Delimited(old(Rest()));
                     && sub.Valid() && sub.buf == buf && sub.Rest() == old(Rest())[a..b]
                     && sub.state == state == old(state) + a
                     && bytesLeft == old(bytesLeft) - b
      ensures !ok ==> state + bytesLeft == old(state + bytesLeft)
    {
      ghost var s := Rest();
      var size: nat;
      ok, size := DecodeVarint32();
      if !ok {
        sub := new Stream([], 0);
        return;
      }
      if bytesLeft < size {
        sub := new Stream([], 0);
        return false, sub;
      }
      ghost var mid := Rest();
      sub := new Stream.Limited(this, size);
      assert mid[..size] == s[Delimited(s).start..Delimited(s).end];
      bytesLeft := bytesLeft - size;
    }

    /** `pb_close_string_substream`: skip what the substream has left, then move past it. */
    method CloseSubstream(sub: Stream)
      requires Valid() && sub.Valid() && sub != this && sub.buf == buf
      requires sub.state + sub.bytesLeft + bytesLeft <= |buf|
      modifies this, sub
      ensures Valid()
      ensures state == old(sub.state + sub.bytesLeft) && bytesLeft == old(bytesLeft)
    {
      if sub.bytesLeft != 0 {
        var ok, data := sub.Read(sub.bytesLeft);
      }
      state := sub.state;
    }
  }

  /** The bit masks of the source, as ranges. */
  lemma {:induction false} MaskFacts(b: byte)
    ensures b % 0x80 == Group(b)
    ensures b / 16 % 8 != 0 && b / 8 % 16 != 15 <==> 16 <= Group(b) < 120
    ensures Group(b) < 16 ==> b % 16 == Group(b)
    ensures Group(b) >= 120 ==> b % 16 == Group(b) - 112
  {
  }
}
