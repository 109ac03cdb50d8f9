/** `pb_decode` as it runs: streams that move, a struct that is filled in field by field, and
    the loop of `pb_decode_inner`. Every method is proved to compute what module `Decoding`
    says; a successful one also leaves `state + bytesLeft` as it was, so that closing a
    substream moves the parent past exactly the prefix and the declared length. */
module Decoder {
  import opened Wire
  import opened Varint
  import opened Schema
  import opened Encoding
  import opened Decoding
  import opened InputStream
  import opened RequiredBits

  /** `pb_decode_svarint`. */
  method DecodeSVarint(stream: Stream) returns (ok: bool, value: int)
    requires stream.Valid()
    modifies stream
    ensures stream.Valid() && stream.state + stream.bytesLeft == old(stream.state + stream.bytesLeft)
    ensures ok <==> Parse64(old(stream.Rest())).Got?
    ensures ok ==> value == UnZigZag(Parse64(old(stream.Rest())).value)
    ensures ok ==> stream.Rest() == old(stream.Rest())[Parse64(old(stream.Rest())).used..]
  {
    var u: nat;
    ok, u := stream.DecodeVarint();
    value := if u % 2 == 1 then -(u / 2) - 1 else u / 2;
  }

  /** The value of the low `n` bytes of `u`, as an unsigned number. */
  function Low(u: nat, n: nat): nat
    requires IntSize(n)
  {
    if n == 8 then u % TWO64 else if n == 4 then u % TWO32 else if n == 2 then u % 0x10000 else u % 0x100
  }

  /** Cast to a signed type of `n` bytes. */
  function Cast(x: int, n: nat): int
    requires IntSize(n)
  {
    var half := IntLimit(n);
    var u := if n == 8 then x % TWO64 else if n == 4 then x % TWO32 else if n == 2 then x % 0x10000 else x % 0x100;
    if u < half then u else u - 2 * half
  }

  /** A value survives the cast exactly when it is in range. */
  lemma {:induction false} CastExact(x: int, n: nat)
    requires IntSize(n)
    ensures Cast(x, n) == x <==> -IntLimit(n) <= x < IntLimit(n)
  {
    var width := 2 * IntLimit(n);
    assert x == x / width * width + x % width;
  }

  lemma {:induction false} LowExact(u: nat, n: nat)
    requires IntSize(n)
    ensures Low(u, n) == u <==> u < 2 * IntLimit(n)
  {
  }

  /** `pb_dec_varint`. */
  method DecVarint(stream: Stream, t: LType) returns (ok: bool, v: Value)
    requires stream.Valid() && WellFormedType(t) && (t.Varint? || t.UVarint? || t.SVarint?)
    modifies stream
    ensures stream.Valid() && stream.state + stream.bytesLeft == old(stream.state + stream.bytesLeft)
    ensures ok <==> DecodeVarint(t, old(stream.Rest())).Ok?
    ensures ok ==> v == DecodeVarint(t, old(stream.Rest())).v
    ensures ok ==> stream.Rest() == old(stream.Rest())[DecodeVarint(t, old(stream.Rest())).used..]
  {
    v := Num(0);
    var value: nat;
    if t.UVarint? {
      ok, value := stream.DecodeVarint();
      if !ok {
        return;
      }
      var clamped := Low(value, t.size);
      LowExact(value, t.size);
      return clamped == value, Num(clamped);
    }
    var svalue: int;
    if t.SVarint? {
      ok, svalue := DecodeSVarint(stream);
      if !ok {
        return;
      }
    } else {
      ok, value := stream.DecodeVarint();
      if !ok {
        return;
      }
      svalue := if t.size == 8 then ToS64(value) else ToS32(value);
    }
    var clamped := Cast(svalue, t.size);
    CastExact(svalue, t.size);
    return clamped == svalue, Num(clamped);
  }

  /** A length prefix and what is behind it. */
  lemma {:induction false} DelimitedParts(s: seq<byte>)
    requires Parse32(s).Got?
    ensures var n, used := Parse32(s).value, Parse32(s).used;
            && Delimited(s).Extent? == (n <= |s| - used)
            && (n <= |s| - used ==>
                  && Delimited(s) == Extent(used, used + n)
                  && s[used..][..n] == s[used..used + n]
                  && s[used..][n..] == s[used + n..])
  {
  }

  /** `pb_dec_bytes`. */
  method DecBytes(stream: Stream, t: LType) returns (ok: bool, v: Value)
    requires stream.Valid() && t.Bytes? && WellFormedType(t)
    modifies stream
    ensures stream.Valid() && stream.state + stream.bytesLeft == old(stream.state + stream.bytesLeft)
    ensures ok <==> DecodeValue(t, Num(0), old(stream.Rest())).Ok?
    ensures ok ==> v == DecodeValue(t, Num(0), old(stream.Rest())).v
    ensures ok ==> stream.Rest() == old(stream.Rest())[DecodeValue(t, Num(0), old(stream.Rest())).used..]
  {
    ghost var s := stream.Rest();
    v := Raw([]);
    var size: nat;
    ok, size := stream.DecodeVarint32();
    if !ok {
      return;
    }
    DelimitedParts(s);
    if size > PB_SIZE_MAX {
      return false, v;
    }
    if size > t.Capacity() {
      return false, v;
    }
    var data: seq<byte>;
    ok, data := stream.Read(size);
    v := Raw(data);
  }

  /** `pb_dec_string`. */
  method DecString(stream: Stream, t: LType) returns (ok: bool, v: Value)
    requires stream.Valid() && t.String? && WellFormedType(t)
    modifies stream
    ensures stream.Valid() && stream.state + stream.bytesLeft == old(stream.state + stream.bytesLeft)
    ensures ok <==> DecodeValue(t, Num(0), old(stream.Rest())).Ok?
    ensures ok ==> v == DecodeValue(t, Num(0), old(stream.Rest())).v
    ensures ok ==> stream.Rest() == old(stream.Rest())[DecodeValue(t, Num(0), old(stream.Rest())).used..]
  {
    ghost var s := stream.Rest();
    v := Raw([]);
    var size: nat;
    ok, size := stream.DecodeVarint32();
    if !ok {
      return;
    }
    DelimitedParts(s);
    if size + 1 > t.dataSize {
      return false, v;
    }
    var data: seq<byte>;
    ok, data := stream.Read(size);
    v := Raw(data);
  }

  /** `pb_dec_fixed_length_bytes`. */
  method DecFixedLengthBytes(stream: Stream, t: LType) returns (ok: bool, v: Value)
    requires stream.Valid() && t.FixedBytes? && WellFormedType(t)
    modifies stream
    ensures stream.Valid() && stream.state + stream.bytesLeft == old(stream.state + stream.bytesLeft)
    ensures ok <==> DecodeValue(t, Num(0), old(stream.Rest())).Ok?
    ensures ok ==> v == DecodeValue(t, Num(0), old(stream.Rest())).v
    ensures ok ==> stream.Rest() == old(stream.Rest())[DecodeValue(t, Num(0), old(stream.Rest())).used..]
  {
    ghost var s := stream.Rest();
    v := Raw([]);
    var size: nat;
    ok, size := stream.DecodeVarint32();
    if !ok {
      return;
    }
    DelimitedParts(s);
    if size > PB_SIZE_MAX {
      return false, v;
    }
    if size == 0 {
      return true, Raw(seq(t.length, _ => 0));
    }
    if size != t.length {
      return false, v;
    }
    var data: seq<byte>;
    ok, data := stream.Read(t.length);
    v := Raw(data);
  }

  /** Bytes put together with shifts give the little-endian number. */
  lemma {:induction false} FixedValue(s: seq<byte>, n: nat)
    requires n <= |s|
    ensures FromLittleEndian(s[..n], n) == FromLittleEndian(s, n)
  {
    if n > 0 {
      assert s[..n][1..] == s[1..][..n - 1];
      FixedValue(s[1..], n - 1);
    }
  }

  /** `pb_decode_fixed32` and `pb_decode_fixed64`: `n` bytes, each shifted to its place. */
  method DecFixed(stream: Stream, n: nat) returns (ok: bool, value: nat)
    requires stream.Valid()
    modifies stream
    ensures stream.Valid() && stream.state + stream.bytesLeft == old(stream.state + stream.bytesLeft)
    ensures ok <==> n <= old(stream.bytesLeft)
    ensures ok ==> value == FromLittleEndian(old(stream.Rest()), n) && stream.Rest() == old(stream.Rest())[n..]
  {
    ghost var s := stream.Rest();
    var data: seq<byte>;
    ok, data := stream.Read(n);
    value := 0;
    if ok {
      FixedValue(s, n);
      value := FromLittleEndian(data, n);
    }
  }

  /** `decode_basic_field` for the types that hold no message. */
  method DecodeScalar(stream: Stream, t: LType) returns (ok: bool, v: Value)
    requires stream.Valid() && WellFormedType(t) && !t.Submsg?
    modifies stream
    ensures stream.Valid() && stream.state + stream.bytesLeft == old(stream.state + stream.bytesLeft)
    ensures ok <==> DecodeValue(t, Num(0), old(stream.Rest())).Ok?
    ensures ok ==> v == DecodeValue(t, Num(0), old(stream.Rest())).v
    ensures ok ==> stream.Rest() == old(stream.Rest())[DecodeValue(t, Num(0), old(stream.Rest())).used..]
  {
    var value: nat;
    match t
    case Bool =>
      ok, value := stream.DecodeVarint32();
      v := Num(if value != 0 then 1 else 0);
    case Fixed32 =>
      ok, value := DecFixed(stream, 4);
      v := Num(value);
    case Fixed64 =>
      ok, value := DecFixed(stream, 8);
      v := Num(value);
    case Bytes(_) =>
      ok, v := DecBytes(stream, t);
    case String(_) =>
      ok, v := DecString(stream, t);
    case FixedBytes(_) =>
      ok, v := DecFixedLengthBytes(stream, t);
    case Varint(_, _) =>
      ok, v := DecVarint(stream, t);
    case UVarint(_, _) =>
      ok, v := DecVarint(stream, t);
    case SVarint(_) =>
      ok, v := DecVarint(stream, t);
  }

  /** Only a submessage looks at the memory it is decoded into. */
  lemma {:induction false} ScalarIgnoresBase(t: LType, base: Value, s: seq<byte>)
    requires WellFormedType(t) && !t.Submsg?
    ensures DecodeValue(t, base, s) == DecodeValue(t, Num(0), s)
  {
  }

  /** `decode_basic_field`, behind its wire type check. */
  method DecodeBasicField(stream: Stream, t: LType, base: Value) returns (ok: bool, v: Value)
    requires stream.Valid() && WellFormedType(t) && GoodBase(t, base)
    modifies stream
    ensures stream.Valid() && stream.state + stream.bytesLeft <= old(stream.state + stream.bytesLeft)
    ensures ok <==> DecodeValue(t, base, old(stream.Rest())).Ok?
    ensures ok ==> v == DecodeValue(t, base, old(stream.Rest())).v
    ensures ok ==> stream.Rest() == old(stream.Rest())[DecodeValue(t, base, old(stream.Rest())).used..]
    ensures ok ==> stream.state + stream.bytesLeft == old(stream.state + stream.bytesLeft)
    decreases stream.bytesLeft, 1
  {
    if t.Submsg? {
      ok, v := DecSubmessage(stream, t.desc, base);
    } else {
      ScalarIgnoresBase(t, base, stream.Rest());
      ok, v := DecodeScalar(stream, t);
    }
  }

  /** `pb_dec_submessage`. A success moves the stream past the prefix and exactly the
      declared length. */
  method DecSubmessage(stream: Stream, d: Desc, base: Value) returns (ok: bool, v: Value)
    requires stream.Valid() && WellFormed(d) && Shaped(d, base)
    modifies stream
    ensures stream.Valid() && stream.state + stream.bytesLeft <= old(stream.state + stream.bytesLeft)
    ensures ok <==> DecodeValue(Submsg(d), base, old(stream.Rest())).Ok?
    ensures ok ==> v == DecodeValue(Submsg(d), base, old(stream.Rest())).v
    ensures ok ==> stream.Rest() == old(stream.Rest())[DecodeValue(Submsg(d), base, old(stream.Rest())).used..]
    ensures ok ==> stream.state + stream.bytesLeft == old(stream.state + stream.bytesLeft)
    ensures ok ==> Delimited(old(stream.Rest())).Extent?
                   && stream.state == old(stream.state) + Delimited(old(stream.Rest())).end
    decreases stream.bytesLeft, 0
  {
    v := base;
    var sub: Stream;
    ok, sub := stream.MakeSubstream();
    if !ok {
      return;
    }
    ok, v := DecodeInner(sub, d, base);
    stream.CloseSubstream(sub);
  }

  /** One entry of a packed array. */
  lemma {:induction false} PackedStep(t: LType, s: seq<byte>, vs: seq<Value>, size: nat, limit: nat)
    requires t.Packable() && WellFormedType(t) && AllFit(t, vs) && size <= |vs| && s != [] && size < limit
    ensures var r := DecodeValue(t, Num(0), s);
            if r.Fail? then DecodePacked(t, s, vs, size, limit).Overfull?
            else AllFit(t, Put(vs, size, r.v))
                 && DecodePacked(t, s, vs, size, limit) == DecodePacked(t, s[r.used..], Put(vs, size, r.v), size + 1, limit)
  {
  }

  /** One round of the packed loop. */
  method FillOne(sub: Stream, t: LType, vs: seq<Value>, size: nat, limit: nat) returns (ok: bool, vs': seq<Value>)
    requires sub.Valid() && sub.bytesLeft > 0 && t.Packable() && WellFormedType(t) && size <= |vs| && AllFit(t, vs) && size < limit
    modifies sub
    ensures sub.Valid() && sub.state + sub.bytesLeft == old(sub.state + sub.bytesLeft)
    ensures !ok ==> vs' == vs && DecodePacked(t, old(sub.Rest()), vs, size, limit).Overfull?
    ensures ok ==> sub.bytesLeft < old(sub.bytesLeft) && size < |vs'| && AllFit(t, vs')
                   && DecodePacked(t, old(sub.Rest()), vs, size, limit) == DecodePacked(t, sub.Rest(), vs', size + 1, limit)
  {
    PackedStep(t, sub.Rest(), vs, size, limit);
    vs' := vs;
    var v: Value;
    ok, v := DecodeScalar(sub, t);
    if ok {
      vs' := Put(vs, size, v);
    }
  }

  lemma {:induction false} PackedEnd(t: LType, s: seq<byte>, vs: seq<Value>, size: nat, limit: nat)
    requires t.Packable() && WellFormedType(t) && AllFit(t, vs) && size <= |vs| && (s == [] || size >= limit)
    ensures DecodePacked(t, s, vs, size, limit) == if s == [] then Filled(vs, size) else Overfull
  {
  }

  /** The loop of the packed branch of `decode_static_field`: entries until the substream is
      used up or the array is full. */
  method FillPacked(sub: Stream, t: LType, entries: seq<Value>, count: nat, limit: nat)
    returns (ok: bool, vs: seq<Value>, size: nat)
    requires sub.Valid() && t.Packable() && WellFormedType(t) && count <= |entries|
    requires AllFit(t, entries)
    modifies sub
    ensures sub.Valid() && sub.state + sub.bytesLeft == old(sub.state + sub.bytesLeft)
    ensures ok && sub.bytesLeft == 0 <==> DecodePacked(t, old(sub.Rest()), entries, count, limit).Filled?
    ensures ok && sub.bytesLeft == 0 ==> DecodePacked(t, old(sub.Rest()), entries, count, limit) == Filled(vs, size)
  {
    vs, size := entries, count;
    ghost var all := DecodePacked(t, sub.Rest(), entries, count, limit);
    ok := true;
    while ok && sub.bytesLeft > 0 && size < limit
      invariant sub.Valid() && sub.state + sub.bytesLeft == old(sub.state + sub.bytesLeft) && size <= |vs|
      invariant AllFit(t, vs)
      invariant if ok then all == DecodePacked(t, sub.Rest(), vs, size, limit) else all.Overfull?
      decreases ok, sub.bytesLeft
    {
      ok, vs := FillOne(sub, t, vs, size, limit);
      if ok {
        size := size + 1;
      }
    }
    if ok {
      PackedEnd(t, sub.Rest(), vs, size, limit);
    }
  }

  method DecodePackedEntries(stream: Stream, t: LType, entries: seq<Value>, count: nat, limit: nat)
    returns (ok: bool, vs: seq<Value>, size: nat)
    requires stream.Valid() && t.Packable() && WellFormedType(t) && count <= |entries|
    requires AllFit(t, entries)
    modifies stream
    ensures stream.Valid() && stream.state + stream.bytesLeft <= old(stream.state + stream.bytesLeft)
    ensures ok <==> Delimited(old(stream.Rest())).Extent?
                    && var Extent(a, b) := Delimited(old(stream.Rest()));
                       DecodePacked(t, old(stream.Rest())[a..b], entries, count, limit).Filled?
    ensures ok ==> var Extent(a, b) := Delimited(old(stream.Rest()));
                   && DecodePacked(t, old(stream.Rest())[a..b], entries, count, limit) == Filled(vs, size)
                   && stream.Rest() == old(stream.Rest())[b..]
                   && stream.state + stream.bytesLeft == old(stream.state + stream.bytesLeft)
  {
    vs, size := entries, count;
    ghost var s := stream.Rest();
    var sub: Stream;
    ok, sub := stream.MakeSubstream();
    if !ok {
      return;
    }
    ghost var e := Delimited(s);
    assert e.Extent? && sub.Rest() == s[e.start..e.end];
    ok, vs, size := FillPacked(sub, t, entries, count, limit);
    if sub.bytesLeft != 0 {
      return false, vs, size;
    }
    stream.CloseSubstream(sub);
  }

  /** `decode_static_field` for an array that has `count` entries so far. */
  method DecodeArrayField(stream: Stream, d: Desc, i: nat, wt: nat, vs: seq<Value>, count: nat, ghost st: State)
    returns (ok: bool, vs': seq<Value>, count': nat)
    requires stream.Valid() && GoodState(d, st) && i < |d.fields| && d.fields[i].htype.IsArray()
    requires st.slots[i] == Many(vs) && ArraySize(d, i, st) == Some(count)
    modifies stream
    ensures stream.Valid() && stream.state + stream.bytesLeft <= old(stream.state + stream.bytesLeft)
    ensures ok <==> DecodeArray(d, i, wt, old(stream.Rest()), st).Next?
    ensures ok ==> FitsSlot(d.fields[i], Many(vs')) && count' <= |vs'|
    ensures ok ==> DecodeArray(d, i, wt, old(stream.Rest()), st).st == StoreArray(d, i, st, vs', count')
    ensures ok ==> stream.Rest() == old(stream.Rest())[DecodeArray(d, i, wt, old(stream.Rest()), st).used..]
    ensures ok ==> stream.state + stream.bytesLeft == old(stream.state + stream.bytesLeft)
    decreases stream.bytesLeft, 2
  {
    var f := d.fields[i];
    assert WellFormedField(f, d.unions) && FitsSlot(f, st.slots[i]);
    vs', count' := vs, count;
    if wt == WT_STRING && f.ltype.Packable() {
      ok, vs', count' := DecodePackedEntries(stream, f.ltype, vs, count, f.htype.Limit());
      return;
    }
    if count >= f.htype.Limit() {
      return false, vs, count;
    }
    if wt != WireType(f.ltype) {
      return false, vs, count;
    }
    var v: Value;
    ok, v := DecodeBasicField(stream, f.ltype, EntryBase(f.ltype, vs, count));
    if ok {
      vs', count' := Put(vs, count, v), count + 1;
    }
  }

  /** The state behind field `i`: new struct, its count if it is a fixed-count array, and the
      field noted if it is required. */
  ghost function Stored(f: Field, i: nat, st: State, slots: seq<Slot>, unions: seq<Union>, count: nat): State {
    State(slots, unions,
          if f.htype.FixArray? then i else st.fixField,
          if f.htype.FixArray? then count else st.fixDone,
          if f.htype.Required? then st.seen + {i} else st.seen)
  }

  /** `decode_static_field`. `count` is the size of a fixed-count array so far; other
      sizes live in the struct. */
  method DecodeStaticField(stream: Stream, d: Desc, i: nat, wt: nat, slots: seq<Slot>, unions: seq<Union>, count: nat, ghost st: State)
    returns (ok: bool, slots': seq<Slot>, unions': seq<Union>, count': nat)
    requires stream.Valid() && GoodState(d, st) && i < |d.fields| && slots == st.slots && unions == st.unions
    requires d.fields[i].htype.FixArray? ==> ArraySize(d, i, st) == Some(count)
    modifies stream
    ensures stream.Valid() && stream.state + stream.bytesLeft <= old(stream.state + stream.bytesLeft)
    ensures ok <==> DecodeField(d, i, wt, old(stream.Rest()), st).Next?
    ensures ok ==> DecodeField(d, i, wt, old(stream.Rest()), st).st == Stored(d.fields[i], i, st, slots', unions', count')
    ensures ok ==> stream.Rest() == old(stream.Rest())[DecodeField(d, i, wt, old(stream.Rest()), st).used..]
    ensures ok ==> stream.state + stream.bytesLeft == old(stream.state + stream.bytesLeft)
    decreases stream.bytesLeft, 3
  {
    var f := d.fields[i];
    assert WellFormedField(f, d.unions) && FitsSlot(f, slots[i]) && FitsUnion(f, unions);
    slots', unions', count' := slots, unions, count;
    if f.htype.IsArray() {
      var size := if f.htype.FixArray? then count else |slots[i].vs|;
      var vs: seq<Value>;
      ok, vs, count' := DecodeArrayField(stream, d, i, wt, slots[i].vs, size, st);
      if ok {
        slots' := slots[i := Many(vs)];
      }
      return;
    }
    if wt != WireType(f.ltype) {
      return false, slots, unions, count;
    }
    var v: Value;
    if f.htype.Oneof? {
      ok, v := DecodeBasicField(stream, f.ltype, MemberBase(f, unions[f.htype.union]));
      if ok {
        unions' := unions[f.htype.union := Union(f.tag, v)];
      }
    } else {
      assert FitsType(f.ltype, slots[i].v);
      ok, v := DecodeBasicField(stream, f.ltype, slots[i].v);
      if ok {
        slots' := slots[i := Single(f.htype.Optional?, v)];
      }
    }
  }

  /** `Step` read in the order the loop does it. */
  lemma {:induction false} StepParts(d: Desc, s: seq<byte>, st: State)
    requires GoodState(d, st) && Parse32(s).Got?
    ensures var key, n := Parse32(s).value, Parse32(s).used;
            var i, rest := FindField(d, key / 8), s[n..];
            Step(d, s, st) ==
            if key / 8 == 0 then Stuck
            else if i < 0 then
              if Skip(key % 8, rest).None? then Stuck else Next(st, n + Skip(key % 8, rest).value)
            else
              if DecodeField(d, i, key % 8, rest, st).Stuck? then Stuck
              else Next(DecodeField(d, i, key % 8, rest, st).st, n + DecodeField(d, i, key % 8, rest, st).used)
  {
  }

  /** The variables of `pb_decode_inner` besides its streams and struct: the fixed-count
      array being filled, its entries so far and in all, and the words of required fields. */
  datatype Progress = Progress(fixField: int, fixDone: nat, fixTotal: nat, words: seq<nat>)

  /** The variables hold the state `st`. */
  ghost predicate Holds(d: Desc, slots: seq<Slot>, unions: seq<Union>, p: Progress, st: State) {
    && GoodState(d, st)
    && st == State(slots, unions, p.fixField, p.fixDone, st.seen)
    && (p.fixField >= 0 ==> p.fixTotal == d.fields[p.fixField].htype.count)
    && Tracks(d, p.words, st.seen)
  }

  /** The part of the loop body behind a tag that names field `i`. */
  method DecodeKnown(stream: Stream, d: Desc, i: nat, wt: nat, slots: seq<Slot>, unions: seq<Union>, p: Progress, ghost st: State)
    returns (ok: bool, slots': seq<Slot>, unions': seq<Union>, p': Progress)
    requires stream.Valid() && i < |d.fields| && Holds(d, slots, unions, p, st)
    modifies stream
    ensures stream.Valid() && stream.state + stream.bytesLeft <= old(stream.state + stream.bytesLeft)
    ensures ok <==> DecodeField(d, i, wt, old(stream.Rest()), st).Next?
    ensures ok ==> Holds(d, slots', unions', p', DecodeField(d, i, wt, old(stream.Rest()), st).st)
    ensures ok ==> stream.Rest() == old(stream.Rest())[DecodeField(d, i, wt, old(stream.Rest()), st).used..]
    ensures ok ==> stream.state + stream.bytesLeft == old(stream.state + stream.bytesLeft)
    decreases stream.bytesLeft, 4
  {
    var f := d.fields[i];
    slots', unions', p' := slots, unions, p;
    if f.htype.FixArray? && p.fixField != i {
      if p.fixField >= 0 && p.fixDone != p.fixTotal {
        return false, slots, unions, p;
      }
      p' := p'.(fixField := i, fixDone := 0, fixTotal := f.htype.count);
    }
    if f.htype.Required? {
      var words := Mark(d, i, p.words, st.seen);
      p' := p'.(words := words);
    }
    var count: nat;
    ok, slots', unions', count := DecodeStaticField(stream, d, i, wt, slots, unions, p'.fixDone, st);
    if f.htype.FixArray? {
      p' := p'.(fixDone := count);
    }
  }

  /** One round of the loop. */
  method DecodeRound(stream: Stream, d: Desc, slots: seq<Slot>, unions: seq<Union>, p: Progress, ghost st: State)
    returns (ok: bool, slots': seq<Slot>, unions': seq<Union>, p': Progress)
    requires stream.Valid() && Holds(d, slots, unions, p, st)
    modifies stream
    ensures stream.Valid() && stream.state + stream.bytesLeft <= old(stream.state + stream.bytesLeft)
    ensures ok <==> Step(d, old(stream.Rest()), st).Next?
    ensures ok ==> Holds(d, slots', unions', p', Step(d, old(stream.Rest()), st).st)
    ensures ok ==> stream.Rest() == old(stream.Rest())[Step(d, old(stream.Rest()), st).used..]
    ensures ok ==> stream.state + stream.bytesLeft == old(stream.state + stream.bytesLeft)
    decreases stream.bytesLeft, 5
  {
    ghost var s := stream.Rest();
    slots', unions', p' := slots, unions, p;
    var wt, tag, eof;
    ok, wt, tag, eof := stream.DecodeTag();
    if !ok {
      return;
    }
    StepParts(d, s, st);
    if tag == 0 {
      return false, slots, unions, p;
    }
    ghost var mid := stream.Rest();
    var i := FindField(d, tag);
    if i < 0 {
      ok := stream.SkipField(wt);
    } else {
      ok, slots', unions', p' := DecodeKnown(stream, d, i, wt, slots, unions, p, st);
    }
    if ok {
      ghost var n := Parse32(s).used;
      assert forall k :: 0 <= k <= |mid| ==> mid[k..] == s[n + k..];
    }
  }

  /** `pb_decode_inner` without initialisation: it terminates on every byte string, and its
      running variables give what the specification gives. */
  method DecodeInner(stream: Stream, d: Desc, base: Value) returns (ok: bool, v: Value)
    requires stream.Valid() && WellFormed(d) && Shaped(d, base)
    modifies stream
    ensures stream.Valid() && stream.state + stream.bytesLeft <= old(stream.state + stream.bytesLeft)
    ensures ok <==> DecodeMsg(d, old(stream.Rest()), base).Some?
    ensures ok ==> DecodeMsg(d, old(stream.Rest()), base) == Some(v)
    ensures ok ==> stream.bytesLeft == 0 && stream.state + stream.bytesLeft == old(stream.state + stream.bytesLeft)
    decreases stream.bytesLeft, 6
  {
    StartGood(d, base);
    NothingTracked(d);
    ghost var s := stream.Rest();
    v := base;
    var slots, unions, p := base.slots, base.unions, Progress(-1, 0, 0, [0, 0]);
    ghost var st := Start(base);
    while stream.bytesLeft > 0
      invariant stream.Valid() && stream.state + stream.bytesLeft == old(stream.state + stream.bytesLeft)
      invariant stream.bytesLeft <= |s|
      invariant Holds(d, slots, unions, p, st)
      invariant Run(d, s, Start(base)) == Run(d, stream.Rest(), st)
      decreases stream.bytesLeft
    {
      ghost var rest := stream.Rest();
      ok, slots, unions, p := DecodeRound(stream, d, slots, unions, p, st);
      if !ok {
        return;
      }
      st := Step(d, rest, st).st;
    }
    if p.fixField >= 0 && p.fixDone != p.fixTotal {
      return false, base;
    }
    ok := CheckRequired(d, p.words, st.seen);
    v := Msg(slots, unions);
  }

  /** `pb_decode`. */
  method DecodeInto(stream: Stream, d: Desc, mem: Value) returns (ok: bool, v: Value)
    requires stream.Valid() && WellFormed(d) && Shaped(d, mem)
    modifies stream
    ensures ok <==> Decode(d, old(stream.Rest()), mem).Some?
    ensures ok ==> Decode(d, old(stream.Rest()), mem) == Some(v) && stream.bytesLeft == 0
  {
    ToDefaultsShaped(d, mem);
    ok, v := DecodeInner(stream, d, ToDefaults(d, mem));
  }
}
