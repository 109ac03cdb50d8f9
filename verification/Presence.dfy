/** Which fields the encoder writes, and which structs it accepts, in terms of what they hold. */
module Presence {
  import opened Wire
  import opened Varint
  import opened Schema
  import opened Encoding

  /** Some field of the message has a declared default value. */
  predicate DeclaresDefault(d: Desc) {
    exists i :: 0 <= i < |d.fields| && d.fields[i].dflt.Some?
  }

  /** The oneofs the message has members of have none set, not even one it does not know. */
  predicate NoOneofSet(d: Desc, us: seq<Union>) {
    forall i :: 0 <= i < |d.fields| && d.fields[i].htype.Oneof? && d.fields[i].htype.union < |us| ==>
      us[d.fields[i].htype.union].which == 0
  }

  /** Number 0, no bytes, a string that begins with its terminator, a submessage that writes
      nothing. A byte string of fixed length is never empty. */
  ghost predicate Blank(t: LType, v: Value)
    requires FitsType(t, v)
  {
    match t
    case Bytes(_) => v.b == []
    case String(_) => |v.b| == 0 || v.b[0] == 0
    case FixedBytes(_) => false
    case Submsg(d) => assert Shaped(d, v); EncodeFields(d, v, 0) == [] && NoOneofSet(d, v.unions)
    case _ => v.i == 0
  }

  lemma {:induction false} TaggedNotEmpty(tag: nat, t: LType, v: Value)
    requires FitsType(t, v)
    ensures EncodeTagged(tag, t, v) != []
  {
  }

  lemma {:induction false} ArrayEmpty(tag: nat, t: LType, vs: seq<Value>)
    requires forall k :: 0 <= k < |vs| ==> FitsType(t, vs[k])
    ensures EncodeArray(tag, t, vs) == [] <==> vs == []
  {
    if vs != [] && !t.Packable() {
      TaggedNotEmpty(tag, t, vs[0]);
    }
  }

  lemma {:induction false} FieldsEmpty(d: Desc, m: Value, i: nat)
    requires Shaped(d, m) && i <= |d.fields|
    ensures EncodeFields(d, m, i) == []
            <==> forall k :: i <= k < |d.fields| ==> EncodeField(d.fields[k], m.slots[k], m.unions, HasDefaults(d)) == []
    decreases |d.fields| - i
  {
    if i < |d.fields| {
      FieldsEmpty(d, m, i + 1);
    }
  }

  /** A field of a submessage counts as being at its default exactly when it is not written, and
      its oneof, if it is in one, has nothing set. */
  lemma {:induction false} DefaultIsUnwritten(f: Field, s: Slot, us: seq<Union>, hasDefaults: bool)
    requires WellFormedField(f, |us|) && FitsSlot(f, s) && FitsUnion(f, us)
    ensures IsDefault(f, s, us, hasDefaults)
            <==> EncodeField(f, s, us, hasDefaults) == [] && (f.htype.Oneof? ==> us[f.htype.union].which == 0)
  {
    if f.htype.IsArray() {
      ArrayEmpty(f.tag, f.ltype, s.vs);
    } else if f.htype.Oneof? {
      if us[f.htype.union].which == f.tag {
        TaggedNotEmpty(f.tag, f.ltype, us[f.htype.union].v);
      }
    } else {
      assert FitsType(f.ltype, s.v);
      TaggedNotEmpty(f.tag, f.ltype, s.v);
    }
  }

  lemma {:induction false} ZeroIsBlank(t: LType, v: Value)
    requires WellFormedType(t) && FitsType(t, v)
    ensures IsZero(t, v) <==> Blank(t, v)
  {
    if t.Submsg? {
      var d := t.desc;
      assert WellFormed(d) && Shaped(d, v);
      FieldsEmpty(d, v, 0);
      forall i | 0 <= i < |d.fields|
        ensures IsDefault(d.fields[i], v.slots[i], v.unions, HasDefaults(d))
                <==> EncodeField(d.fields[i], v.slots[i], v.unions, HasDefaults(d)) == []
                     && (d.fields[i].htype.Oneof? ==> v.unions[d.fields[i].htype.union].which == 0)
      {
        assert WellFormedField(d.fields[i], d.unions) && FitsSlot(d.fields[i], v.slots[i]) && FitsUnion(d.fields[i], v.unions);
        DefaultIsUnwritten(d.fields[i], v.slots[i], v.unions, HasDefaults(d));
      }
    }
  }

  /** What a field of each kind contributes: a proto3 field is left out exactly when it holds a
      blank value and no field of the message has a declared default; an optional one exactly when
      its flag is off, a repeated one exactly when it has no entries, a member of a oneof exactly
      when another tag is set, and others never. */
  lemma {:induction false} LeftOutExactly(d: Desc, m: Value, i: nat)
    requires WellFormed(d) && Shaped(d, m) && i < |d.fields|
    ensures FitsSlot(d.fields[i], m.slots[i]) && FitsUnion(d.fields[i], m.unions)
    ensures var f, s := d.fields[i], m.slots[i];
            EncodeField(f, s, m.unions, HasDefaults(d)) == []
            <==> match f.htype
                 case Required => false
                 case Optional => !s.has
                 case Singular => assert FitsType(f.ltype, s.v); Blank(f.ltype, s.v) && !DeclaresDefault(d)
                 case Repeated(_) => |s.vs| == 0
                 case FixArray(_) => false
                 case Oneof(g) => g < |m.unions| && m.unions[g].which != f.tag
  {
    var f, s := d.fields[i], m.slots[i];
    assert WellFormedField(f, d.unions) && FitsSlot(f, s) && FitsUnion(f, m.unions);
    if f.htype.IsArray() {
      ArrayEmpty(f.tag, f.ltype, s.vs);
    } else if f.htype.Oneof? {
      if m.unions[f.htype.union].which == f.tag {
        TaggedNotEmpty(f.tag, f.ltype, m.unions[f.htype.union].v);
      }
    } else {
      assert FitsType(f.ltype, s.v);
      TaggedNotEmpty(f.tag, f.ltype, s.v);
      ZeroIsBlank(f.ltype, s.v);
    }
  }

  /** And what is written, when something is, is the value with its tag. */
  lemma {:induction false} WrittenAs(d: Desc, m: Value, i: nat)
    requires WellFormed(d) && Shaped(d, m) && i < |d.fields|
    ensures FitsSlot(d.fields[i], m.slots[i]) && FitsUnion(d.fields[i], m.unions)
    ensures var f, s := d.fields[i], m.slots[i];
            var e := EncodeField(f, s, m.unions, HasDefaults(d));
            e != [] ==>
              match f.htype
              case Repeated(_) => e == EncodeArray(f.tag, f.ltype, s.vs)
              case FixArray(_) => e == EncodeArray(f.tag, f.ltype, s.vs)
              case Oneof(g) => g < |m.unions| && m.unions[g].which == f.tag && FitsType(f.ltype, m.unions[g].v)
                               && e == EncodeTagged(f.tag, f.ltype, m.unions[g].v)
              case _ => assert FitsType(f.ltype, s.v); e == EncodeTagged(f.tag, f.ltype, s.v)
  {
    assert WellFormedField(d.fields[i], d.unions) && FitsSlot(d.fields[i], m.slots[i]) && FitsUnion(d.fields[i], m.unions);
  }

  // ------------------------------------------------------------------
  // Structs the encoder accepts
  // ------------------------------------------------------------------

  /** A byte string fits its padded struct, and a string has its terminator within its memory. */
  ghost predicate Writable(t: LType, v: Value)
    requires FitsType(t, v)
  {
    match t
    case Bytes(n) => |v.b| <= n || (n % 2 == 1 && |v.b| == n + 1)
    case String(n) => |v.b| < n || 0 in v.b
    case Submsg(d) => assert Shaped(d, v); Encodable(d, v)
    case _ => true
  }

  lemma {:induction false} WritableExactly(t: LType, v: Value)
    requires FitsType(t, v)
    ensures ValueEncodable(t, v) <==> Writable(t, v)
  {
    if t.String? && 0 in v.b {
      var k :| 0 <= k < |v.b| && v.b[k] == 0;
      if StrLen(v.b) > k {
        assert false;
      }
    }
  }

  /** The encoder accepts a struct exactly when each field that it writes holds writable values,
      and no repeated field has more entries than declared. */
  lemma {:induction false} EncodableExactly(d: Desc, m: Value)
    requires WellFormed(d) && Shaped(d, m)
    ensures Encodable(d, m)
            <==> forall i :: 0 <= i < |d.fields| ==>
                   FieldWritable(d.fields[i], m.slots[i], m.unions, EncodeField(d.fields[i], m.slots[i], m.unions, HasDefaults(d)))
  {
    forall i | 0 <= i < |d.fields|
      ensures FieldEncodable(d.fields[i], m.slots[i], m.unions, HasDefaults(d))
              <==> FieldWritable(d.fields[i], m.slots[i], m.unions, EncodeField(d.fields[i], m.slots[i], m.unions, HasDefaults(d)))
    {
      OneFieldWritable(d, m, i);
    }
  }

  /** The same of one field, of which `written` is what it contributes. */
  ghost predicate FieldWritable(f: Field, s: Slot, us: seq<Union>, written: seq<byte>)
    requires FitsSlot(f, s) && FitsUnion(f, us)
  {
    written != [] ==>
      match f.htype
      case Repeated(n) => |s.vs| <= n && forall k :: 0 <= k < |s.vs| ==> Writable(f.ltype, s.vs[k])
      case FixArray(_) => forall k :: 0 <= k < |s.vs| ==> Writable(f.ltype, s.vs[k])
      case Oneof(g) => g < |us| && us[g].which == f.tag && Writable(f.ltype, us[g].v)
      case _ => assert FitsType(f.ltype, s.v); Writable(f.ltype, s.v)
  }

  lemma {:induction false} OneFieldWritable(d: Desc, m: Value, i: nat)
    requires WellFormed(d) && Shaped(d, m) && i < |d.fields|
    ensures FitsSlot(d.fields[i], m.slots[i]) && FitsUnion(d.fields[i], m.unions)
    ensures FieldEncodable(d.fields[i], m.slots[i], m.unions, HasDefaults(d))
            <==> FieldWritable(d.fields[i], m.slots[i], m.unions, EncodeField(d.fields[i], m.slots[i], m.unions, HasDefaults(d)))
  {
    var f, s := d.fields[i], m.slots[i];
    LeftOutExactly(d, m, i);
    assert WellFormedField(f, d.unions);
    if f.htype.IsArray() {
      forall k | 0 <= k < |s.vs| ensures ValueEncodable(f.ltype, s.vs[k]) <==> Writable(f.ltype, s.vs[k]) {
        WritableExactly(f.ltype, s.vs[k]);
      }
    } else if f.htype.Oneof? {
      if m.unions[f.htype.union].which == f.tag {
        WritableExactly(f.ltype, m.unions[f.htype.union].v);
      }
    } else {
      assert FitsType(f.ltype, s.v);
      WritableExactly(f.ltype, s.v);
      if f.htype.Singular? {
        ZeroIsBlank(f.ltype, s.v);
      }
    }
  }

  /** A sensor reading of zero in a proto3 field is not sent; one that is not zero is. */
  lemma {:induction false} ZeroReading()
    ensures var d := Desc([Field(1, Singular, Varint(4, []), None)], 0);
            && Shaped(d, Msg([Single(false, Num(0))], [])) && Encode(d, Msg([Single(false, Num(0))], [])) == []
            && Shaped(d, Msg([Single(false, Num(5))], [])) && Encode(d, Msg([Single(false, Num(5))], [])) == [0x08, 5]
  {
    var f := Field(1, Singular, Varint(4, []), None);
    var d := Desc([f], 0);
    var m, n := Msg([Single(false, Num(0))], []), Msg([Single(false, Num(5))], []);
    assert FitsSlot(f, m.slots[0]) && FitsSlot(f, n.slots[0]) && FitsUnion(f, []) && !HasDefaults(d);
    assert Shaped(d, m) && Shaped(d, n);
    assert EncodeFields(d, m, 1) == [] && EncodeFields(d, n, 1) == [];
    assert EncodeField(f, n.slots[0], [], false) == [0x08, 5];
  }
}
