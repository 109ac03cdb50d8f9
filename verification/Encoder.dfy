/** `pb_encode` as it runs: a stream that only counts or one that fills a buffer, two passes
    over every submessage and every packed array of varints.

    Each method writes exactly what module `Encoding` says, and succeeds exactly when the
    struct is encodable and that many bytes fit; for a sizing stream everything fits. So the
    sizing pass counts what the writing pass writes, and "submsg size changed" never occurs. */
module Encoder {
  import opened Wire
  import opened Varint
  import opened Schema
  import opened Encoding
  import opened OutputStream

  // ------------------------------------------------------------------
  // Progress through a sequence of writes
  // ------------------------------------------------------------------

  /** The first `i` entries of a packed array, and the first `i` fields of a message. */
  ghost function PackedUpTo(t: LType, vs: seq<Value>, i: nat): seq<byte>
    requires t.Packable() && AllFit(t, vs) && i <= |vs|
  {
    if i == 0 then [] else PackedUpTo(t, vs, i - 1) + EncodeValue(t, vs[i - 1])
  }

  ghost function FieldsUpTo(d: Desc, m: Value, i: nat): seq<byte>
    requires Shaped(d, m) && i <= |d.fields|
  {
    if i == 0 then []
    else FieldsUpTo(d, m, i - 1) + EncodeField(d.fields[i - 1], m.slots[i - 1], m.unions, HasDefaults(d))
  }

  lemma {:induction false} PackedSplit(t: LType, vs: seq<Value>, i: nat)
    requires t.Packable() && AllFit(t, vs) && i <= |vs|
    ensures EncodePacked(t, vs) == PackedUpTo(t, vs, i) + EncodePacked(t, vs[i..])
  {
    if i == 0 {
      assert vs[0..] == vs;
    } else {
      PackedSplit(t, vs, i - 1);
      assert vs[i - 1..][1..] == vs[i..];
      Regroup(PackedUpTo(t, vs, i - 1), EncodeValue(t, vs[i - 1]), EncodePacked(t, vs[i..]));
    }
  }

  lemma {:induction false} FieldsSplit(d: Desc, m: Value, i: nat)
    requires Shaped(d, m) && i <= |d.fields|
    ensures Encode(d, m) == FieldsUpTo(d, m, i) + EncodeFields(d, m, i)
  {
    if i > 0 {
      FieldsSplit(d, m, i - 1);
      Regroup(FieldsUpTo(d, m, i - 1), EncodeField(d.fields[i - 1], m.slots[i - 1], m.unions, HasDefaults(d)), EncodeFields(d, m, i));
    }
  }

  /** What has been written stays within the whole, and is the whole at the end. */
  lemma {:induction false} PackedWithin(t: LType, vs: seq<Value>, i: nat)
    requires t.Packable() && AllFit(t, vs) && i <= |vs|
    ensures |PackedUpTo(t, vs, i)| <= |EncodePacked(t, vs)|
    ensures i == |vs| ==> PackedUpTo(t, vs, i) == EncodePacked(t, vs)
  {
    PackedSplit(t, vs, i);
  }

  lemma {:induction false} FieldsWithin(d: Desc, m: Value, i: nat)
    requires Shaped(d, m) && i <= |d.fields|
    ensures |FieldsUpTo(d, m, i)| <= |Encode(d, m)|
    ensures i == |d.fields| ==> FieldsUpTo(d, m, i) == Encode(d, m)
  {
    FieldsSplit(d, m, i);
  }

  // ------------------------------------------------------------------
  // Values
  // ------------------------------------------------------------------

  /** `*p` in the memory of a string: past what is held there is the terminator. */
  function CharAt(b: seq<byte>, k: nat): byte {
    if k < |b| then b[k] else 0
  }

  /** `pb_enc_string`. */
  method EncString(stream: Stream, t: LType, v: Value) returns (r: Outcome)
    requires stream.Valid() && t.String? && FitsType(t, v) && |v.b| < TWO64
    modifies stream, stream.buf
    ensures stream.Valid() && r != SubmsgSizeChanged
    ensures r.Done? <==> ValueEncodable(t, v) && old(stream.Room(|EncodeValue(t, v)|))
    ensures r.Done? ==> old(stream.Now()).Wrote(EncodeValue(t, v), stream.Now())
  {
    if t.dataSize == 0 {
      return ZeroLengthString;
    }
    var maxSize := t.dataSize - 1;
    var size := 0;
    while size < maxSize && CharAt(v.b, size) != 0
      invariant 0 <= size <= maxSize && size <= StrLen(v.b)
    {
      size := size + 1;
    }
    if CharAt(v.b, size) != 0 {
      return UnterminatedString;
    }
    assert size == StrLen(v.b);
    r := stream.EncodeString(v.b[..size]);
  }

  /** `pb_enc_varint`. */
  method EncVarint(stream: Stream, t: LType, v: Value) returns (r: Outcome)
    requires stream.Valid() && (t.Bool? || t.Varint? || t.UVarint? || t.SVarint?) && FitsType(t, v)
    modifies stream, stream.buf
    ensures stream.Valid()
    ensures r == if old(stream.Room(|EncodeValue(t, v)|)) then Done else StreamFull
    ensures r.Done? ==> old(stream.Now()).Wrote(EncodeValue(t, v), stream.Now())
  {
    if t.SVarint? {
      r := stream.EncodeSVarint(v.i);
    } else if t.Varint? {
      r := stream.EncodeVarint(ToU64(v.i));
    } else {
      r := stream.EncodeVarint(v.i);
    }
  }

  /** `encode_basic_field` behind its tag, for the types that hold no message. */
  method EncodeScalar(stream: Stream, t: LType, v: Value) returns (r: Outcome)
    requires stream.Valid() && !t.Submsg? && FitsType(t, v) && |EncodeValue(t, v)| < TWO64
    requires WellFormedType(t)
    modifies stream, stream.buf
    ensures stream.Valid() && r != SubmsgSizeChanged
    ensures r.Done? <==> ValueEncodable(t, v) && old(stream.Room(|EncodeValue(t, v)|))
    ensures r.Done? ==> old(stream.Now()).Wrote(EncodeValue(t, v), stream.Now())
  {
    match t
    case Fixed32 =>
      r := stream.EncodeFixed(v.i, 4);
    case Fixed64 =>
      r := stream.EncodeFixed(v.i, 8);
    case Bytes(_) =>
      if |v.b| > t.Capacity() {
        return BytesSizeExceeded;
      }
      r := stream.EncodeString(v.b);
    case String(_) =>
      r := EncString(stream, t, v);
    case FixedBytes(_) =>
      r := stream.EncodeString(v.b);
    case Bool =>
      r := EncVarint(stream, t, v);
    case Varint(_, _) =>
      r := EncVarint(stream, t, v);
    case UVarint(_, _) =>
      r := EncVarint(stream, t, v);
    case SVarint(_) =>
      r := EncVarint(stream, t, v);
  }

  // ------------------------------------------------------------------
  // Fields and messages
  // ------------------------------------------------------------------

  /** `encode_basic_field`: tag, then data. */
  method EncodeBasicField(stream: Stream, tag: nat, t: LType, v: Value) returns (r: Outcome)
    requires stream.Valid() && WellFormedType(t) && FitsType(t, v) && tag <= PB_SIZE_MAX
    requires |EncodeTagged(tag, t, v)| < TWO64
    modifies stream, stream.buf
    ensures stream.Valid() && r != SubmsgSizeChanged
    ensures r.Done? <==> ValueEncodable(t, v) && old(stream.Room(|EncodeTagged(tag, t, v)|))
    ensures r.Done? ==> old(stream.Now()).Wrote(EncodeTagged(tag, t, v), stream.Now())
    decreases t, 1
  {
    ghost var start := stream.Now();
    WroteNothing(stream.Now());
    r := stream.EncodeVarint(8 * tag + WireType(t));
    if !r.Done? {
      return;
    }
    ghost var tagged := stream.Now();
    if t.Submsg? {
      r := EncodeSubmessage(stream, t.desc, v);
    } else {
      r := EncodeScalar(stream, t, v);
    }
    if r.Done? {
      WroteBoth(start, Tag(tag, WireType(t)), tagged, EncodeValue(t, v), stream.Now());
    }
  }

  /** The writing pass of `pb_encode_submessage`, limited to the size the sizing pass found. */
  method WriteSubmessage(stream: Stream, d: Desc, m: Value, size: nat) returns (r: Outcome)
    requires stream.Valid() && !stream.sizing && WellFormed(d) && Shaped(d, m)
    requires Encodable(d, m) && size == |Encode(d, m)| < TWO64
    modifies stream, stream.buf
    ensures stream.Valid()
    ensures r == if old(stream.Room(size)) then Done else StreamFull
    ensures r.Done? ==> old(stream.Now()).Wrote(Encode(d, m), stream.Now())
    decreases d, 1
  {
    if stream.bytesWritten + size > stream.maxSize {
      return StreamFull;
    }
    var sub := new Stream.Limited(stream, size);
    r := EncodeMessage(sub, d, m);
    stream.bytesWritten := stream.bytesWritten + sub.bytesWritten;
    stream.state := sub.state;
    if sub.bytesWritten != size {
      return SubmsgSizeChanged;
    }
  }

  /** `pb_encode_submessage`: a sizing pass, the length, and a writing pass. */
  method EncodeSubmessage(stream: Stream, d: Desc, m: Value) returns (r: Outcome)
    requires stream.Valid() && WellFormed(d) && Shaped(d, m) && |Prefixed(Encode(d, m))| < TWO64
    modifies stream, stream.buf
    ensures stream.Valid() && r != SubmsgSizeChanged
    ensures r.Done? <==> Encodable(d, m) && old(stream.Room(|Prefixed(Encode(d, m))|))
    ensures r.Done? ==> old(stream.Now()).Wrote(Prefixed(Encode(d, m)), stream.Now())
    decreases d, 2
  {
    ghost var start := stream.Now();
    var sizer := new Stream.Sizing();
    r := EncodeMessage(sizer, d, m);
    if !r.Done? {
      return;
    }
    var size := sizer.bytesWritten;
    r := stream.EncodeVarint(size);
    if !r.Done? {
      return;
    }
    if stream.sizing {
      stream.Count(size);
      return Done;
    }
    ghost var mid := stream.Now();
    r := WriteSubmessage(stream, d, m, size);
    if r.Done? {
      WroteBoth(start, Base128(size), mid, Encode(d, m), stream.Now());
    }
  }

  /** The number of bytes a packed array takes, as `encode_array` finds it. */
  method PackedSize(t: LType, vs: seq<Value>) returns (size: nat)
    requires t.Packable() && AllFit(t, vs)
    ensures size == |EncodePacked(t, vs)|
  {
    PackedWithin(t, vs, |vs|);
    if t.Fixed32? {
      FixedPackedSize(t, vs, |vs|);
      size := 4 * |vs|;
    } else if t.Fixed64? {
      FixedPackedSize(t, vs, |vs|);
      size := 8 * |vs|;
    } else {
      var sizer := new Stream.Sizing();
      var i := 0;
      while i < |vs|
        invariant 0 <= i <= |vs| && sizer.Valid() && sizer.sizing && fresh(sizer) && fresh(sizer.buf)
        invariant sizer.bytesWritten == |PackedUpTo(t, vs, i)|
      {
        var r := EncVarint(sizer, t, vs[i]);
        i := i + 1;
      }
      size := sizer.bytesWritten;
    }
  }

  lemma {:induction false} FixedPackedSize(t: LType, vs: seq<Value>, i: nat)
    requires (t.Fixed32? || t.Fixed64?) && AllFit(t, vs) && i <= |vs|
    ensures |PackedUpTo(t, vs, i)| == (if t.Fixed32? then 4 * i else 8 * i)
  {
    if i > 0 {
      FixedPackedSize(t, vs, i - 1);
    }
  }

  /** One entry of a packed array. */
  method WriteEntry(stream: Stream, t: LType, v: Value) returns (r: Outcome)
    requires stream.Valid() && t.Packable() && FitsType(t, v)
    modifies stream, stream.buf
    ensures stream.Valid()
    ensures r == if old(stream.Room(|EncodeValue(t, v)|)) then Done else StreamFull
    ensures r.Done? ==> old(stream.Now()).Wrote(EncodeValue(t, v), stream.Now())
  {
    if t.Fixed32? {
      r := stream.EncodeFixed(v.i, 4);
    } else if t.Fixed64? {
      r := stream.EncodeFixed(v.i, 8);
    } else {
      r := EncVarint(stream, t, v);
    }
  }

  /** The data of a packed array, entry by entry. */
  method WritePacked(stream: Stream, t: LType, vs: seq<Value>) returns (r: Outcome)
    requires stream.Valid() && t.Packable() && WellFormedType(t) && AllFit(t, vs)
    modifies stream, stream.buf
    ensures stream.Valid()
    ensures r == if old(stream.Room(|EncodePacked(t, vs)|)) then Done else StreamFull
    ensures r.Done? ==> old(stream.Now()).Wrote(EncodePacked(t, vs), stream.Now())
  {
    ghost var start := stream.Now();
    WroteNothing(start);
    var i := 0;
    while i < |vs|
      invariant 0 <= i <= |vs| && stream.Valid() && start.Wrote(PackedUpTo(t, vs, i), stream.Now())
    {
      PackedWithin(t, vs, i + 1);
      ghost var before := stream.Now();
      r := WriteEntry(stream, t, vs[i]);
      if !r.Done? {
        return;
      }
      WroteBoth(start, PackedUpTo(t, vs, i), before, EncodeValue(t, vs[i]), stream.Now());
      i := i + 1;
    }
    PackedWithin(t, vs, i);
    return Done;
  }

  /** Length and data of a packed array; a sizing stream only counts the data. */
  method WritePackedBody(stream: Stream, t: LType, vs: seq<Value>) returns (r: Outcome)
    requires stream.Valid() && t.Packable() && WellFormedType(t) && AllFit(t, vs)
    requires |EncodePacked(t, vs)| < TWO64
    modifies stream, stream.buf
    ensures stream.Valid()
    ensures r == if old(stream.Room(|Prefixed(EncodePacked(t, vs))|)) then Done else StreamFull
    ensures r.Done? ==> old(stream.Now()).Wrote(Prefixed(EncodePacked(t, vs)), stream.Now())
  {
    ghost var start := stream.Now();
    var size := PackedSize(t, vs);
    r := stream.EncodeVarint(size);
    if !r.Done? {
      return;
    }
    if stream.sizing {
      stream.Count(size);
      return Done;
    }
    ghost var mid := stream.Now();
    r := WritePacked(stream, t, vs);
    if r.Done? {
      WroteBoth(start, Base128(size), mid, EncodePacked(t, vs), stream.Now());
    }
  }

  /** The packed branch of `encode_array`. */
  method EncodePackedArray(stream: Stream, tag: nat, t: LType, vs: seq<Value>) returns (r: Outcome)
    requires stream.Valid() && t.Packable() && WellFormedType(t) && vs != [] && tag <= PB_SIZE_MAX
    requires AllFit(t, vs)
    requires |EncodeArray(tag, t, vs)| < TWO64
    modifies stream, stream.buf
    ensures stream.Valid()
    ensures r == if old(stream.Room(|EncodeArray(tag, t, vs)|)) then Done else StreamFull
    ensures r.Done? ==> old(stream.Now()).Wrote(EncodeArray(tag, t, vs), stream.Now())
  {
    ghost var start := stream.Now();
    r := stream.EncodeVarint(8 * tag + WT_STRING);
    if !r.Done? {
      return;
    }
    ghost var mid := stream.Now();
    r := WritePackedBody(stream, t, vs);
    if r.Done? {
      WroteBoth(start, Tag(tag, WT_STRING), mid, Prefixed(EncodePacked(t, vs)), stream.Now());
    }
  }

  /** What each entry of an unpacked array is written as, and whether it can be. */
  datatype Part = Part(bytes: seq<byte>, encodable: bool)

  ghost predicate Parts(parts: seq<Part>, tag: nat, t: LType, vs: seq<Value>)
    requires AllFit(t, vs)
  {
    && |parts| == |vs|
    && forall k {:trigger EncodeTagged(tag, t, vs[k])} {:trigger ValueEncodable(t, vs[k])} :: 0 <= k < |vs| ==>
         parts[k] == Part(EncodeTagged(tag, t, vs[k]), ValueEncodable(t, vs[k]))
  }

  ghost function Flatten(parts: seq<Part>, n: nat): seq<byte>
    requires n <= |parts|
  {
    if n == 0 then [] else Flatten(parts, n - 1) + parts[n - 1].bytes
  }

  lemma {:induction false} FlattenGrows(parts: seq<Part>, i: nat, n: nat)
    requires i <= n <= |parts|
    ensures |Flatten(parts, i)| <= |Flatten(parts, n)|
    decreases n
  {
    if i < n {
      FlattenGrows(parts, i, n - 1);
    }
  }

  lemma {:induction false} FlattenParts(parts: seq<Part>, tag: nat, t: LType, vs: seq<Value>, n: nat)
    requires AllFit(t, vs) && Parts(parts, tag, t, vs) && n <= |vs|
    ensures EncodeUnpacked(tag, t, vs) == Flatten(parts, n) + EncodeUnpacked(tag, t, vs[n..])
  {
    if n == 0 {
      assert vs[0..] == vs;
    } else {
      FlattenParts(parts, tag, t, vs, n - 1);
      assert vs[n - 1..][1..] == vs[n..];
      Regroup(Flatten(parts, n - 1), EncodeTagged(tag, t, vs[n - 1]), EncodeUnpacked(tag, t, vs[n..]));
    }
  }

  ghost predicate AllCan(parts: seq<Part>) {
    forall k :: 0 <= k < |parts| ==> parts[k].encodable
  }

  lemma {:induction false} UnpackedParts(tag: nat, t: LType, vs: seq<Value>) returns (parts: seq<Part>)
    requires AllFit(t, vs)
    ensures Parts(parts, tag, t, vs)
    ensures Flatten(parts, |parts|) == EncodeUnpacked(tag, t, vs)
    ensures AllCan(parts) <==> AllEncodable(t, vs)
  {
    parts := seq(|vs|, k requires 0 <= k < |vs| => Part(EncodeTagged(tag, t, vs[k]), ValueEncodable(t, vs[k])));
    FlattenParts(parts, tag, t, vs, |vs|);
    assert EncodeUnpacked(tag, t, vs[|vs|..]) == [];
    PartsCan(parts, tag, t, vs);
  }

  lemma {:induction false} PartsCan(parts: seq<Part>, tag: nat, t: LType, vs: seq<Value>)
    requires AllFit(t, vs) && Parts(parts, tag, t, vs)
    ensures AllCan(parts) <==> AllEncodable(t, vs)
  {
    forall k | 0 <= k < |vs| ensures parts[k].encodable == ValueEncodable(t, vs[k]) {
    }
  }

  ghost predicate AllEncodable(t: LType, vs: seq<Value>)
    requires AllFit(t, vs)
  {
    forall k :: 0 <= k < |vs| ==> ValueEncodable(t, vs[k])
  }

  /** Entry `i` of an unpacked array. */
  method EncodeEntry(stream: Stream, tag: nat, t: LType, vs: seq<Value>, i: nat, ghost parts: seq<Part>) returns (r: Outcome)
    requires stream.Valid() && WellFormedType(t) && tag <= PB_SIZE_MAX && AllFit(t, vs) && i < |vs|
    requires Parts(parts, tag, t, vs) && |parts[i].bytes| < TWO64
    modifies stream, stream.buf
    ensures stream.Valid() && r != SubmsgSizeChanged
    ensures r.Done? <==> parts[i].encodable && old(stream.Room(|parts[i].bytes|))
    ensures r.Done? ==> old(stream.Now()).Wrote(parts[i].bytes, stream.Now())
    decreases t, 2
  {
    assert parts[i] == Part(EncodeTagged(tag, t, vs[i]), ValueEncodable(t, vs[i]));
    r := EncodeBasicField(stream, tag, t, vs[i]);
  }

  /** The loop of the unpacked branch of `encode_array`. */
  method EncodeEntries(stream: Stream, tag: nat, t: LType, vs: seq<Value>, ghost parts: seq<Part>) returns (r: Outcome)
    requires stream.Valid() && WellFormedType(t) && tag <= PB_SIZE_MAX && AllFit(t, vs)
    requires Parts(parts, tag, t, vs) && |Flatten(parts, |parts|)| < TWO64
    modifies stream, stream.buf
    ensures stream.Valid() && r != SubmsgSizeChanged
    ensures r.Done? <==> AllCan(parts) && old(stream.Room(|Flatten(parts, |parts|)|))
    ensures r.Done? ==> old(stream.Now()).Wrote(Flatten(parts, |parts|), stream.Now())
    decreases t, 3
  {
    ghost var start := stream.Now();
    WroteNothing(start);
    var i := 0;
    while i < |vs|
      invariant 0 <= i <= |vs| && stream.Valid() && start.Wrote(Flatten(parts, i), stream.Now())
      invariant forall k :: 0 <= k < i ==> parts[k].encodable
    {
      FlattenGrows(parts, i + 1, |parts|);
      ghost var before := stream.Now();
      r := EncodeEntry(stream, tag, t, vs, i, parts);
      if !r.Done? {
        return;
      }
      WroteBoth(start, Flatten(parts, i), before, parts[i].bytes, stream.Now());
      i := i + 1;
    }
    return Done;
  }

  /** The unpacked branch of `encode_array`. */
  method EncodeUnpackedArray(stream: Stream, tag: nat, t: LType, vs: seq<Value>) returns (r: Outcome)
    requires stream.Valid() && WellFormedType(t) && tag <= PB_SIZE_MAX && AllFit(t, vs)
    requires |EncodeUnpacked(tag, t, vs)| < TWO64
    modifies stream, stream.buf
    ensures stream.Valid() && r != SubmsgSizeChanged
    ensures r.Done? <==> AllEncodable(t, vs) && old(stream.Room(|EncodeUnpacked(tag, t, vs)|))
    ensures r.Done? ==> old(stream.Now()).Wrote(EncodeUnpacked(tag, t, vs), stream.Now())
    decreases t, 4
  {
    ghost var parts := UnpackedParts(tag, t, vs);
    r := EncodeEntries(stream, tag, t, vs, parts);
  }

  /** `encode_array`. */
  method EncodeArrayField(stream: Stream, f: Field, vs: seq<Value>, ghost unions: nat) returns (r: Outcome)
    requires stream.Valid() && WellFormedField(f, unions) && f.htype.IsArray()
    requires AllFit(f.ltype, vs)
    requires |EncodeArray(f.tag, f.ltype, vs)| < TWO64
    modifies stream, stream.buf
    ensures stream.Valid() && r != SubmsgSizeChanged
    ensures r.Done? <==> |vs| <= f.htype.Limit() && AllEncodable(f.ltype, vs)
                         && old(stream.Room(|EncodeArray(f.tag, f.ltype, vs)|))
    ensures r.Done? ==> old(stream.Now()).Wrote(EncodeArray(f.tag, f.ltype, vs), stream.Now())
    decreases f, 0
  {
    WroteNothing(stream.Now());
    if |vs| == 0 {
      return Done;
    }
    if |vs| > f.htype.Limit() {
      return ArrayMaxSizeExceeded;
    }
    if f.ltype.Packable() {
      r := EncodePackedArray(stream, f.tag, f.ltype, vs);
    } else {
      r := EncodeUnpackedArray(stream, f.tag, f.ltype, vs);
    }
  }

  /** `pb_check_proto3_default_value`: the loop over a submessage stops at the first field that
      is not at its default. */
  method CheckDefault(f: Field, slot: Slot, us: seq<Union>, hasDefaults: bool) returns (isDefault: bool)
    requires WellFormedField(f, |us|) && FitsSlot(f, slot)
    ensures isDefault == IsDefault(f, slot, us, hasDefaults)
    decreases f, 0
  {
    if f.htype.Required? {
      return false;
    } else if f.htype.IsArray() {
      return |slot.vs| == 0;
    } else if f.htype.Oneof? {
      return us[f.htype.union].which == 0;
    } else if f.htype.Optional? {
      return !slot.has;
    } else if hasDefaults {
      return false;
    }
    assert FitsType(f.ltype, slot.v);
    if !f.ltype.Submsg? {
      return IsZero(f.ltype, slot.v);
    }
    var d, v := f.ltype.desc, slot.v;
    assert WellFormedType(f.ltype);
    assert WellFormed(d) && FitsType(f.ltype, v);
    assert Shaped(d, v);
    var i := 0;
    while i < |d.fields|
      invariant 0 <= i <= |d.fields|
      invariant forall k :: 0 <= k < i ==> IsDefault(d.fields[k], v.slots[k], v.unions, HasDefaults(d))
    {
      assert WellFormedField(d.fields[i], d.unions) && FitsSlot(d.fields[i], v.slots[i]);
      isDefault := CheckDefault(d.fields[i], v.slots[i], v.unions, HasDefaults(d));
      if !isDefault {
        return;
      }
      i := i + 1;
    }
    return true;
  }

  /** The presence test at the head of `encode_field`. */
  method CheckPresent(f: Field, slot: Slot, us: seq<Union>, hasDefaults: bool) returns (present: bool)
    requires WellFormedField(f, |us|) && FitsSlot(f, slot)
    ensures present == Present(f, slot, us, hasDefaults)
  {
    if f.htype.Oneof? {
      return us[f.htype.union].which == f.tag;
    } else if f.htype.Optional? {
      return slot.has;
    } else if f.htype.Singular? {
      var isDefault := CheckDefault(f, slot, us, hasDefaults);
      return !isDefault;
    }
    return true;
  }

  /** `encode_field`. */
  method EncodeOneField(stream: Stream, f: Field, slot: Slot, us: seq<Union>, hasDefaults: bool) returns (r: Outcome)
    requires stream.Valid() && WellFormedField(f, |us|) && FitsSlot(f, slot) && FitsUnion(f, us)
    requires |EncodeField(f, slot, us, hasDefaults)| < TWO64
    modifies stream, stream.buf
    ensures stream.Valid() && r != SubmsgSizeChanged
    ensures r.Done? <==> FieldEncodable(f, slot, us, hasDefaults)
                         && old(stream.Room(|EncodeField(f, slot, us, hasDefaults)|))
    ensures r.Done? ==> old(stream.Now()).Wrote(EncodeField(f, slot, us, hasDefaults), stream.Now())
    decreases f, 1
  {
    WroteNothing(stream.Now());
    var present := CheckPresent(f, slot, us, hasDefaults);
    if !present {
      return Done;
    }
    if f.htype.IsArray() {
      r := EncodeArrayField(stream, f, slot.vs, |us|);
    } else if f.htype.Oneof? {
      r := EncodeBasicField(stream, f.tag, f.ltype, us[f.htype.union].v);
    } else {
      assert FitsType(f.ltype, slot.v);
      r := EncodeBasicField(stream, f.tag, f.ltype, slot.v);
    }
  }

  /** `pb_encode`. */
  method EncodeMessage(stream: Stream, d: Desc, m: Value) returns (r: Outcome)
    requires stream.Valid() && WellFormed(d) && Shaped(d, m) && |Encode(d, m)| < TWO64
    modifies stream, stream.buf
    ensures stream.Valid() && r != SubmsgSizeChanged
    ensures r.Done? <==> Encodable(d, m) && old(stream.Room(|Encode(d, m)|))
    ensures r.Done? ==> old(stream.Now()).Wrote(Encode(d, m), stream.Now())
    decreases d, 0
  {
    ghost var start := stream.Now();
    WroteNothing(start);
    var hasDefaults := HasDefaults(d);
    var i := 0;
    while i < |d.fields|
      invariant 0 <= i <= |d.fields| && stream.Valid() && start.Wrote(FieldsUpTo(d, m, i), stream.Now())
      invariant forall k :: 0 <= k < i ==> FieldEncodable(d.fields[k], m.slots[k], m.unions, hasDefaults)
    {
      assert WellFormedField(d.fields[i], d.unions) && FitsSlot(d.fields[i], m.slots[i]) && FitsUnion(d.fields[i], m.unions);
      FieldsWithin(d, m, i + 1);
      ghost var before := stream.Now();
      r := EncodeOneField(stream, d.fields[i], m.slots[i], m.unions, hasDefaults);
      if !r.Done? {
        return;
      }
      WroteBoth(start, FieldsUpTo(d, m, i), before, EncodeField(d.fields[i], m.slots[i], m.unions, hasDefaults), stream.Now());
      i := i + 1;
    }
    FieldsWithin(d, m, i);
    return Done;
  }

  /** `pb_get_encoded_size` gives the number of bytes `pb_encode` writes, and a buffer of
      that size is just big enough. */
  method EncodedSize(d: Desc, m: Value) returns (size: Option<nat>)
    requires WellFormed(d) && Shaped(d, m) && |Encode(d, m)| < TWO64
    ensures size == if Encodable(d, m) then Some(|Encode(d, m)|) else None
  {
    var sizer := new Stream.Sizing();
    var r := EncodeMessage(sizer, d, m);
    return if r.Done? then Some(sizer.bytesWritten) else None;
  }

  /** `pb_encode` into a buffer: it succeeds exactly when the size is within `bufsize`, and
      then the buffer holds the encoding followed by what it held before. */
  method EncodeToBuffer(buf: array<byte>, bufsize: nat, d: Desc, m: Value) returns (written: Option<nat>)
    requires bufsize <= buf.Length && WellFormed(d) && Shaped(d, m) && |Encode(d, m)| < TWO64
    modifies buf
    ensures written == if Encodable(d, m) && |Encode(d, m)| <= bufsize then Some(|Encode(d, m)|) else None
    ensures written.Some? ==> buf[..] == Encode(d, m) + old(buf[|Encode(d, m)|..])
  {
    var stream := new Stream(buf, bufsize);
    var r := EncodeMessage(stream, d, m);
    if r.Done? {
      return Some(stream.bytesWritten);
    }
    return None;
  }
}
