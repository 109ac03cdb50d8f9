/** The field lookup of `pb_decode_inner`: what the iterator finds in the packed words of a
    message is what the specification of the decoder finds in its descriptor. */
module Lookup {
  import opened Wire
  import opened Schema
  import opened Decoding
  import opened FieldInfo
  import opened FieldIterator

  /** `PB_LTYPE_*`, the low nibble of the type byte. */
  function LTypeCode(t: LType): (n: nat)
    ensures n < 16 && n != LTYPE_EXTENSION && (n == LTYPE_SUBMESSAGE <==> t.Submsg?) && n != LTYPE_SUBMSG_W_CB
  {
    match t
    case Bool => 0
    case Varint(_, _) => 1
    case UVarint(_, _) => 2
    case SVarint(_) => 3
    case Fixed32 => 4
    case Fixed64 => 5
    case Bytes(_) => 6
    case String(_) => 7
    case Submsg(_) => LTYPE_SUBMESSAGE
    case FixedBytes(_) => 11
  }

  /** `PB_HTYPE_*` shifted down. */
  function HTypeCode(h: HType): (n: nat)
    ensures n < 4 && (n == 0 <==> h.Required?)
  {
    match h
    case Required => 0
    case Optional => 1
    case Singular => 1
    case Repeated(_) => 2
    case FixArray(_) => 2
    case Oneof(_) => 3
  }

  /** The type byte of a statically allocated field. */
  function TypeByte(f: Field): nat {
    16 * HTypeCode(f.htype) + LTypeCode(f.ltype)
  }

  /** The numbers of `pb.h`: 0x00 for required, 0x10 for optional and proto3 fields, 0x20 for arrays,
      0x30 for members of a oneof, and the value type in the low nibble. */
  lemma {:induction false} TypeByteIs(f: Field)
    ensures var low := match f.ltype
                       case Bool => 0x0 case Varint(_, _) => 0x1 case UVarint(_, _) => 0x2 case SVarint(_) => 0x3
                       case Fixed32 => 0x4 case Fixed64 => 0x5 case Bytes(_) => 0x6 case String(_) => 0x7
                       case Submsg(_) => 0x8 case FixedBytes(_) => 0xB;
            var high := match f.htype
                        case Required => 0x00 case Optional => 0x10 case Singular => 0x10
                        case Repeated(_) => 0x20 case FixArray(_) => 0x20 case Oneof(_) => 0x30;
            TypeByte(f) == high + low
  {
  }

  /** What the iterator reads from any type byte. */
  lemma {:induction false} KindsMean(high: nat, low: nat)
    requires high < 4 && low < 16
    ensures IsRequired(16 * high + low) <==> high == 0
    ensures IsSubmsg(16 * high + low) <==> low == 8 || low == 9
    ensures IsExtension(16 * high + low) <==> low == 10
  {
    assert (16 * high + low) % 16 == low && (16 * high + low) / 16 == high;
  }

  /** `fs` are descriptors of the fields of `d`, at whatever offsets and in whatever formats
      their values fit. */
  ghost predicate PackedForm(d: Desc, fs: seq<FieldDesc>) {
    && |fs| == |d.fields|
    && forall k :: 0 <= k < |fs| ==>
         && Fits(fs[k].info, fs[k].format)
         && fs[k].info.tag == d.fields[k].tag
         && fs[k].info.kind == TypeByte(d.fields[k])
  }

  /** The type byte says which fields are required, are submessages, and that none is an
      extension range. */
  lemma {:induction false} TypeByteParts(f: Field)
    ensures IsRequired(TypeByte(f)) == f.htype.Required?
    ensures IsSubmsg(TypeByte(f)) == f.ltype.Submsg?
    ensures !IsExtension(TypeByte(f))
  {
    var h, l := HTypeCode(f.htype), LTypeCode(f.ltype);
    assert (16 * h + l) % 16 == l && (16 * h + l) / 16 == h;
  }

  lemma {:induction false} PackedGood(d: Desc, fs: seq<FieldDesc>)
    requires WellFormed(d) && PackedForm(d, fs) && fs != []
    ensures Good(fs)
  {
    forall i, j | 0 <= i < j < |fs| ensures fs[i].info.tag < fs[j].info.tag {
      assert d.fields[i].tag < d.fields[j].tag;
    }
  }

  /** The iterator's counter of required fields is the bit the decoder sets for the field. */
  lemma {:induction false} SameRequiredIndex(d: Desc, fs: seq<FieldDesc>, k: nat)
    requires PackedForm(d, fs) && k <= |fs|
    ensures RequiredBefore(fs, k) == RequiredIndex(d, k)
  {
    if k > 0 {
      SameRequiredIndex(d, fs, k - 1);
      TypeByteParts(d.fields[k - 1]);
    }
  }

  /** A linear search of the packed form is a linear search of the descriptor. */
  lemma {:induction false} SameSearch(d: Desc, fs: seq<FieldDesc>, tag: nat, k: nat)
    requires WellFormed(d) && PackedForm(d, fs) && k < |fs|
    ensures Matches(fs[k], tag) <==> FindField(d, tag) == k
  {
    TypeByteParts(d.fields[k]);
    var i := FindField(d, tag);
    if i >= 0 && i < k {
      assert d.fields[i].tag < d.fields[k].tag;
    } else if i > k {
      assert d.fields[k].tag < d.fields[i].tag;
    }
  }

  /** Wherever the iterator stands, it finds the field the decoder's specification names, with
      the index of its required bit, and otherwise stays where it is. */
  method LookUp(it: Iterator, ghost d: Desc, tag: nat) returns (found: bool)
    requires it.Valid() && WellFormed(d) && PackedForm(d, it.fields)
    modifies it
    ensures it.Valid() && (found <==> FindField(d, tag) >= 0)
    ensures found ==> it.index == FindField(d, tag) && it.requiredFieldIndex == RequiredIndex(d, it.index)
    ensures found ==> it.loaded.tag == tag && it.loaded.kind == TypeByte(d.fields[it.index])
    ensures !found ==> it.index == old(it.index) && it.loaded == old(it.loaded)
  {
    ghost var at := it.index;
    TypeByteParts(d.fields[at]);
    ghost var steps;
    found, steps := it.Find(tag);
    if found {
      SameSearch(d, it.fields, tag, it.index);
      SameRequiredIndex(d, it.fields, it.index);
    } else if FindField(d, tag) >= 0 {
      SameSearch(d, it.fields, tag, FindField(d, tag));
    }
  }

  /** From the first field on, as `pb_decode_inner` begins. */
  method LookUpFirst(d: Desc, fs: seq<FieldDesc>, tag: nat) returns (i: int)
    requires WellFormed(d) && PackedForm(d, fs)
    ensures i == FindField(d, tag)
  {
    if fs == [] {
      return -1;
    }
    PackedGood(d, fs);
    var it := new Iterator(fs, AllWords(fs), |fs|, fs[|fs| - 1].info.tag);
    var found := LookUp(it, d, tag);
    i := if found then it.index else -1;
  }
}
