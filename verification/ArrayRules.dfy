/** Arrays on the wire: a packed field adds all its entries, any other one adds one, and both forms
    may be mixed. */
module ArrayRules {
  import opened Wire
  import opened Varint
  import opened Schema
  import opened Encoding
  import opened ProtoWire
  import opened Decoding
  import opened Framing
  import opened RoundTrip
  import opened FieldRules

  // ------------------------------------------------------------------
  // Entries so far, and more of them
  // ------------------------------------------------------------------

  /** How many entries the array at `i` has received. A fixed-count array can only be begun when the
      one begun before it is full. */
  ghost function Received(d: Desc, i: nat, st: State): Option<nat>
    requires GoodState(d, st) && i < |d.fields| && d.fields[i].htype.IsArray()
  {
    assert FitsSlot(d.fields[i], st.slots[i]);
    if d.fields[i].htype.Repeated? then Some(|st.slots[i].vs|)
    else if st.fixField == i then Some(st.fixDone)
    else if st.fixField < 0 || d.fields[st.fixField].htype == FixArray(st.fixDone) then Some(0)
    else None
  }

  /** `vs` put over or behind `cur` from position `n` on. */
  function Spliced(cur: seq<Value>, n: nat, vs: seq<Value>): (r: seq<Value>)
    requires n <= |cur|
    ensures |r| == if n + |vs| < |cur| then |cur| else n + |vs|
  {
    cur[..n] + vs + if n + |vs| < |cur| then cur[n + |vs|..] else []
  }

  /** The state with `vs` added to the `n` entries of the array at `i`. */
  function Grown(d: Desc, i: nat, st: State, n: nat, vs: seq<Value>): State
    requires i < |d.fields| && i < |st.slots| && st.slots[i].Many? && n <= |st.slots[i].vs|
  {
    var st' := st.(slots := st.slots[i := Many(Spliced(st.slots[i].vs, n, vs))]);
    if d.fields[i].htype.FixArray? then st'.(fixField := i, fixDone := n + |vs|) else st'
  }

  /** The array at `i` has `n` entries and room for `more`. */
  ghost predicate Room(d: Desc, i: nat, st: State, n: nat, more: nat) {
    && GoodState(d, st) && i < |d.fields| && d.fields[i].htype.IsArray() && WellFormedType(d.fields[i].ltype)
    && FitsSlot(d.fields[i], st.slots[i]) && n <= |st.slots[i].vs|
    && Received(d, i, st) == Some(n) && n + more <= d.fields[i].htype.Limit()
  }

  lemma {:induction false} SplicedFits(t: LType, cur: seq<Value>, n: nat, vs: seq<Value>)
    requires n <= |cur| && AllFit(t, cur) && AllFit(t, vs)
    ensures AllFit(t, Spliced(cur, n, vs))
  {
    var r := Spliced(cur, n, vs);
    forall k | 0 <= k < |r| ensures FitsType(t, r[k]) {
      if k < n {
        assert r[k] == cur[k];
      } else if k < n + |vs| {
        assert r[k] == vs[k - n];
      } else {
        assert r[k] == cur[k];
      }
    }
  }

  lemma {:induction false} GrownRoom(d: Desc, i: nat, st: State, n: nat, vs: seq<Value>, more: nat)
    requires Room(d, i, st, n, |vs| + more) && AllFit(d.fields[i].ltype, vs)
    ensures Room(d, i, Grown(d, i, st, n, vs), n + |vs|, more)
  {
    var f, cur := d.fields[i], st.slots[i].vs;
    assert WellFormedField(f, d.unions);
    SplicedFits(f.ltype, cur, n, vs);
    SlotUpdateGood(d, st, i, Many(Spliced(cur, n, vs)));
  }

  lemma {:induction false} SplicedTwice(cur: seq<Value>, n: nat, a: seq<Value>, b: seq<Value>)
    requires n <= |cur|
    ensures Spliced(Spliced(cur, n, a), n + |a|, b) == Spliced(cur, n, a + b)
  {
  }

  lemma {:induction false} GrownTwice(d: Desc, i: nat, st: State, n: nat, a: seq<Value>, b: seq<Value>)
    requires i < |d.fields| && i < |st.slots| && st.slots[i].Many? && n <= |st.slots[i].vs|
    ensures Grown(d, i, Grown(d, i, st, n, a), n + |a|, b) == Grown(d, i, st, n, a + b)
  {
    SplicedTwice(st.slots[i].vs, n, a, b);
    var slots := st.slots[i := Many(Spliced(st.slots[i].vs, n, a))];
    assert slots[i := Many(Spliced(st.slots[i].vs, n, a + b))] == st.slots[i := Many(Spliced(st.slots[i].vs, n, a + b))];
  }

  // ------------------------------------------------------------------
  // One entry, and one packed field
  // ------------------------------------------------------------------

  lemma {:induction false} PutIsSpliced(cur: seq<Value>, n: nat, v: Value)
    requires n <= |cur|
    ensures Put(cur, n, v) == Spliced(cur, n, [v])
  {
  }

  /** Storing an array in the state is growing it. */
  lemma {:induction false} StoreIsGrown(d: Desc, i: nat, st: State, n: nat, vs: seq<Value>)
    requires Room(d, i, st, n, |vs|) && AllFit(d.fields[i].ltype, vs)
    ensures ArraySize(d, i, st) == Some(n) && FitsSlot(d.fields[i], Many(Spliced(st.slots[i].vs, n, vs)))
    ensures StoreArray(d, i, st, Spliced(st.slots[i].vs, n, vs), n + |vs|) == Grown(d, i, st, n, vs)
  {
    assert WellFormedField(d.fields[i], d.unions);
    SplicedFits(d.fields[i].ltype, st.slots[i].vs, n, vs);
  }

  lemma {:induction false} EntryStored(d: Desc, i: nat, s: seq<byte>, used: nat, v: Value, st: State, n: nat)
    requires Room(d, i, st, n, 1) && AllFit(d.fields[i].ltype, [v])
    requires DecodeValue(d.fields[i].ltype, EntryBase(d.fields[i].ltype, st.slots[i].vs, n), s) == Ok(v, used)
    ensures DecodeField(d, i, WireNumber(d.fields[i].ltype), s, st) == Next(Grown(d, i, st, n, [v]), used)
  {
    StoreIsGrown(d, i, st, n, [v]);
    PutIsSpliced(st.slots[i].vs, n, v);
  }

  /** A field with the wire type of its entries adds one, whether or not the array could be packed.
      A message among them begins in the memory of a new entry. */
  lemma {:induction false} EntryAdds(d: Desc, i: nat, payload: seq<byte>, v: Value, rest: seq<byte>, st: State, n: nat)
    requires Room(d, i, st, n, 1)
    requires DecodeValue(d.fields[i].ltype, EntryBase(d.fields[i].ltype, st.slots[i].vs, n), payload + rest) == Ok(v, |payload|)
    ensures GoodState(d, Grown(d, i, st, n, [v]))
    ensures Run(d, Tag(d.fields[i].tag, WireNumber(d.fields[i].ltype)) + (payload + rest), st) == Run(d, rest, Grown(d, i, st, n, [v]))
  {
    assert AllFit(d.fields[i].ltype, [v]);
    GrownRoom(d, i, st, n, [v], 0);
    EntryStored(d, i, payload + rest, |payload|, v, st, n);
    FieldRun(d, i, WireNumber(d.fields[i].ltype), payload, rest, st, Grown(d, i, st, n, [v]));
  }

  lemma {:induction false} FieldRun(d: Desc, i: nat, wt: nat, payload: seq<byte>, rest: seq<byte>, st: State, st': State)
    requires GoodState(d, st) && i < |d.fields| && wt < 8 && DecodeField(d, i, wt, payload + rest, st) == Next(st', |payload|)
    ensures Run(d, Tag(d.fields[i].tag, wt) + (payload + rest), st) == Run(d, rest, st')
  {
    KnownKey(d, i, wt, payload + rest, st);
    assert (payload + rest)[|payload|..] == rest;
  }

  /** One over the limit is refused. */
  lemma {:induction false} EntryRefused(d: Desc, i: nat, rest: seq<byte>, st: State)
    requires GoodState(d, st) && i < |d.fields| && d.fields[i].htype.IsArray()
    requires Received(d, i, st).None? || Received(d, i, st).value >= d.fields[i].htype.Limit()
    requires !d.fields[i].ltype.Packable() || WireNumber(d.fields[i].ltype) != 2
    ensures Run(d, Tag(d.fields[i].tag, WireNumber(d.fields[i].ltype)) + rest, st).None?
  {
    assert WellFormedField(d.fields[i], d.unions) && FitsSlot(d.fields[i], st.slots[i]);
    KnownKey(d, i, WireNumber(d.fields[i].ltype), rest, st);
  }

  lemma {:induction false} PackedFills(t: LType, vs: seq<Value>, cur: seq<Value>, n: nat, limit: nat)
    requires t.Packable() && WellFormedType(t) && AllFit(t, vs) && AllFit(t, cur) && n <= |cur| && n + |vs| <= limit
    ensures DecodePacked(t, EncodePacked(t, vs), cur, n, limit) == Filled(Spliced(cur, n, vs), n + |vs|)
    decreases |vs|
  {
    if vs == [] {
      assert Spliced(cur, n, vs) == cur;
    } else {
      OneFilled(t, vs, cur, n, limit);
      PackedFills(t, vs[1..], Put(cur, n, vs[0]), n + 1, limit);
      FirstSpliced(cur, n, vs);
    }
  }

  lemma {:induction false} FirstSpliced(cur: seq<Value>, n: nat, vs: seq<Value>)
    requires n <= |cur| && vs != []
    ensures Spliced(Put(cur, n, vs[0]), n + 1, vs[1..]) == Spliced(cur, n, vs)
  {
    PutIsSpliced(cur, n, vs[0]);
    SplicedTwice(cur, n, [vs[0]], vs[1..]);
    assert [vs[0]] + vs[1..] == vs;
  }

  lemma {:induction false} OneFilled(t: LType, vs: seq<Value>, cur: seq<Value>, n: nat, limit: nat)
    requires t.Packable() && WellFormedType(t) && AllFit(t, vs) && AllFit(t, cur) && n <= |cur| && n < limit && vs != []
    ensures AllFit(t, Put(cur, n, vs[0])) && AllFit(t, vs[1..])
    ensures DecodePacked(t, EncodePacked(t, vs), cur, n, limit) == DecodePacked(t, EncodePacked(t, vs[1..]), Put(cur, n, vs[0]), n + 1, limit)
  {
    PackableRoundTrip(t, vs[0], EncodePacked(t, vs[1..]));
    assert FitsType(t, vs[0]);
    assert EncodePacked(t, vs)[|EncodeValue(t, vs[0])|..] == EncodePacked(t, vs[1..]);
  }

  lemma {:induction false} PackedOverfull(t: LType, vs: seq<Value>, cur: seq<Value>, n: nat, limit: nat)
    requires t.Packable() && WellFormedType(t) && AllFit(t, vs) && AllFit(t, cur) && n <= |cur| && n + |vs| > limit && vs != []
    ensures DecodePacked(t, EncodePacked(t, vs), cur, n, limit) == Overfull
    decreases |vs|
  {
    if n < limit {
      OneFilled(t, vs, cur, n, limit);
      PackedOverfull(t, vs[1..], Put(cur, n, vs[0]), n + 1, limit);
    }
  }

  lemma {:induction false} PackedStored(d: Desc, i: nat, vs: seq<Value>, rest: seq<byte>, st: State, n: nat)
    requires Room(d, i, st, n, |vs|) && d.fields[i].ltype.Packable() && AllFit(d.fields[i].ltype, vs)
    requires |EncodePacked(d.fields[i].ltype, vs)| < TWO32
    ensures var s := Prefixed(EncodePacked(d.fields[i].ltype, vs));
            DecodeField(d, i, 2, s + rest, st) == Next(Grown(d, i, st, n, vs), |s|)
  {
    var body := EncodePacked(d.fields[i].ltype, vs);
    StoreIsGrown(d, i, st, n, vs);
    PackedFills(d.fields[i].ltype, vs, st.slots[i].vs, n, d.fields[i].htype.Limit());
    PrefixedRoundTrip(body, rest);
  }

  /** A packed field adds all its entries. */
  lemma {:induction false} PackedAdds(d: Desc, i: nat, vs: seq<Value>, rest: seq<byte>, st: State, n: nat)
    requires Room(d, i, st, n, |vs|) && d.fields[i].ltype.Packable() && AllFit(d.fields[i].ltype, vs)
    requires |EncodePacked(d.fields[i].ltype, vs)| < TWO32
    ensures GoodState(d, Grown(d, i, st, n, vs))
    ensures Run(d, Tag(d.fields[i].tag, 2) + (Prefixed(EncodePacked(d.fields[i].ltype, vs)) + rest), st) == Run(d, rest, Grown(d, i, st, n, vs))
  {
    GrownRoom(d, i, st, n, vs, 0);
    PackedStored(d, i, vs, rest, st, n);
    FieldRun(d, i, 2, Prefixed(EncodePacked(d.fields[i].ltype, vs)), rest, st, Grown(d, i, st, n, vs));
  }

  /** With more entries than there is room for, all of it is refused. */
  lemma {:induction false} PackedRefused(d: Desc, i: nat, vs: seq<Value>, rest: seq<byte>, st: State, n: nat)
    requires Room(d, i, st, n, 0) && n + |vs| > d.fields[i].htype.Limit()
    requires d.fields[i].ltype.Packable() && AllFit(d.fields[i].ltype, vs) && |EncodePacked(d.fields[i].ltype, vs)| < TWO32
    ensures Run(d, Tag(d.fields[i].tag, 2) + (Prefixed(EncodePacked(d.fields[i].ltype, vs)) + rest), st).None?
  {
    var f, body := d.fields[i], EncodePacked(d.fields[i].ltype, vs);
    PackedOverfull(f.ltype, vs, st.slots[i].vs, n, f.htype.Limit());
    PrefixedRoundTrip(body, rest);
    KnownKey(d, i, 2, Prefixed(body) + rest, st);
  }

  // ------------------------------------------------------------------
  // Both forms mixed
  // ------------------------------------------------------------------

  /** A part of an array of numbers: a packed field, or a single entry. */
  datatype Piece = Packed(vs: seq<Value>) | One(v: Value)
  {
    function Entries(): seq<Value> {
      if Packed? then vs else [v]
    }
  }

  ghost predicate PieceFits(t: LType, p: Piece) {
    t.Packable() && AllFit(t, p.Entries()) && (p.Packed? ==> |EncodePacked(t, p.vs)| < TWO32)
  }

  function PieceBytes(tag: nat, t: LType, p: Piece): seq<byte>
    requires PieceFits(t, p)
  {
    match p
    case Packed(vs) => assert p.Entries() == vs; Tag(tag, 2) + Prefixed(EncodePacked(t, vs))
    case One(v) => assert p.Entries()[0] == v; Tag(tag, WireNumber(t)) + EncodeValue(t, v)
  }

  ghost predicate PiecesFit(t: LType, ps: seq<Piece>) {
    forall k :: 0 <= k < |ps| ==> PieceFits(t, ps[k])
  }

  function AllBytes(tag: nat, t: LType, ps: seq<Piece>): seq<byte>
    requires PiecesFit(t, ps)
  {
    if ps == [] then [] else PieceBytes(tag, t, ps[0]) + AllBytes(tag, t, ps[1..])
  }

  function AllEntries(ps: seq<Piece>): seq<Value> {
    if ps == [] then [] else ps[0].Entries() + AllEntries(ps[1..])
  }

  lemma {:induction false} PieceAdds(d: Desc, i: nat, p: Piece, rest: seq<byte>, st: State, n: nat)
    requires Room(d, i, st, n, |p.Entries()|) && PieceFits(d.fields[i].ltype, p)
    ensures GoodState(d, Grown(d, i, st, n, p.Entries()))
    ensures Run(d, PieceBytes(d.fields[i].tag, d.fields[i].ltype, p) + rest, st) == Run(d, rest, Grown(d, i, st, n, p.Entries()))
  {
    var f := d.fields[i];
    match p
    case Packed(vs) =>
      PackedAdds(d, i, vs, rest, st, n);
      Regroup(Tag(f.tag, 2), Prefixed(EncodePacked(f.ltype, vs)), rest);
    case One(v) =>
      assert p.Entries()[0] == v;
      PackableRoundTrip(f.ltype, v, rest);
      ScalarMemory(f.ltype, Num(0), EntryBase(f.ltype, st.slots[i].vs, n), EncodeValue(f.ltype, v) + rest);
      EntryAdds(d, i, EncodeValue(f.ltype, v), v, rest, st, n);
      Regroup(Tag(f.tag, WireNumber(f.ltype)), EncodeValue(f.ltype, v), rest);
  }

  /** Whatever follows, these bytes take the decoder from one state to the other. */
  ghost predicate Moves(d: Desc, st: State, s: seq<byte>, st': State) {
    GoodState(d, st) && GoodState(d, st') && forall rest: seq<byte> :: Run(d, s + rest, st) == Run(d, rest, st')
  }

  lemma {:induction false} MovesOn(d: Desc, st: State, a: seq<byte>, st1: State, b: seq<byte>, st2: State)
    requires Moves(d, st, a, st1) && Moves(d, st1, b, st2)
    ensures Moves(d, st, a + b, st2)
  {
    forall rest: seq<byte> ensures Run(d, a + b + rest, st) == Run(d, rest, st2) {
      Regroup(a, b, rest);
    }
  }

  lemma {:induction false} PieceMoves(d: Desc, i: nat, p: Piece, st: State, n: nat)
    requires Room(d, i, st, n, |p.Entries()|) && PieceFits(d.fields[i].ltype, p)
    ensures Moves(d, st, PieceBytes(d.fields[i].tag, d.fields[i].ltype, p), Grown(d, i, st, n, p.Entries()))
  {
    PieceAdds(d, i, p, [], st, n);
    forall rest: seq<byte>
      ensures Run(d, PieceBytes(d.fields[i].tag, d.fields[i].ltype, p) + rest, st) == Run(d, rest, Grown(d, i, st, n, p.Entries()))
    {
      PieceAdds(d, i, p, rest, st, n);
    }
  }

  /** An array of numbers, in whatever pieces it comes: the entries of all of them are added, in
      order, to those that are there, and nothing else changes. */
  lemma {:induction false} PiecesAdd(d: Desc, i: nat, ps: seq<Piece>, st: State, n: nat)
    requires i < |d.fields| && PiecesFit(d.fields[i].ltype, ps) && ps != [] && Room(d, i, st, n, |AllEntries(ps)|)
    ensures Moves(d, st, AllBytes(d.fields[i].tag, d.fields[i].ltype, ps), Grown(d, i, st, n, AllEntries(ps)))
    decreases |ps|
  {
    if |ps| == 1 {
      LastPiece(d.fields[i].tag, d.fields[i].ltype, ps);
      PieceMoves(d, i, ps[0], st, n);
    } else {
      var st1 := Grown(d, i, st, n, ps[0].Entries());
      GrownRoom(d, i, st, n, ps[0].Entries(), |AllEntries(ps[1..])|);
      PieceMoves(d, i, ps[0], st, n);
      PiecesAdd(d, i, ps[1..], st1, n + |ps[0].Entries()|);
      BothAdd(d, i, st, n, PieceBytes(d.fields[i].tag, d.fields[i].ltype, ps[0]), ps[0].Entries(),
              AllBytes(d.fields[i].tag, d.fields[i].ltype, ps[1..]), AllEntries(ps[1..]));
    }
  }

  /** What adds some entries, followed by what adds others, adds both. */
  lemma {:induction false} BothAdd(d: Desc, i: nat, st: State, n: nat, a: seq<byte>, va: seq<Value>, b: seq<byte>, vb: seq<Value>)
    requires i < |d.fields| && i < |st.slots| && st.slots[i].Many? && n <= |st.slots[i].vs|
    requires Moves(d, st, a, Grown(d, i, st, n, va))
    requires Moves(d, Grown(d, i, st, n, va), b, Grown(d, i, Grown(d, i, st, n, va), n + |va|, vb))
    ensures Moves(d, st, a + b, Grown(d, i, st, n, va + vb))
  {
    GrownTwice(d, i, st, n, va, vb);
    MovesOn(d, st, a, Grown(d, i, st, n, va), b, Grown(d, i, st, n, va + vb));
  }

  lemma {:induction false} LastPiece(tag: nat, t: LType, ps: seq<Piece>)
    requires |ps| == 1 && PieceFits(t, ps[0])
    ensures AllBytes(tag, t, ps) == PieceBytes(tag, t, ps[0]) && AllEntries(ps) == ps[0].Entries()
  {
    assert ps[1..] == [];
  }

  /** The pieces of an array written entry by entry, as a sender without packing does. */
  function Singles(vs: seq<Value>): seq<Piece> {
    seq(|vs|, k requires 0 <= k < |vs| => One(vs[k]))
  }

  lemma {:induction false} SinglesAre(tag: nat, t: LType, vs: seq<Value>)
    requires t.Packable() && AllFit(t, vs)
    ensures PiecesFit(t, Singles(vs))
    ensures AllBytes(tag, t, Singles(vs)) == EncodeUnpacked(tag, t, vs) && AllEntries(Singles(vs)) == vs
  {
    if vs != [] {
      SinglesAre(tag, t, vs[1..]);
      SinglesFirst(vs);
    }
  }

  lemma {:induction false} SinglesFirst(vs: seq<Value>)
    requires vs != []
    ensures Singles(vs)[0] == One(vs[0]) && Singles(vs)[1..] == Singles(vs[1..]) && [vs[0]] + vs[1..] == vs
  {
  }

  /** What a sender without packing wrote adds the same entries. */
  lemma {:induction false} UnpackedAdds(d: Desc, i: nat, vs: seq<Value>, rest: seq<byte>, st: State, n: nat)
    requires Room(d, i, st, n, |vs|) && d.fields[i].ltype.Packable() && AllFit(d.fields[i].ltype, vs) && vs != []
    ensures GoodState(d, Grown(d, i, st, n, vs))
    ensures Run(d, EncodeUnpacked(d.fields[i].tag, d.fields[i].ltype, vs) + rest, st) == Run(d, rest, Grown(d, i, st, n, vs))
  {
    SinglesAre(d.fields[i].tag, d.fields[i].ltype, vs);
    PiecesAdd(d, i, Singles(vs), st, n);
  }

  /** For a repeated field the entries are what was there followed by the new ones. */
  lemma {:induction false} RepeatedGrown(d: Desc, i: nat, st: State, vs: seq<Value>)
    requires i < |d.fields| && d.fields[i].htype.Repeated? && i < |st.slots| && st.slots[i].Many?
    ensures Grown(d, i, st, |st.slots[i].vs|, vs) == st.(slots := st.slots[i := Many(st.slots[i].vs + vs)])
  {
    var cur := st.slots[i].vs;
    assert Spliced(cur, |cur|, vs) == cur + vs;
  }

  /** An int32 5 that comes as a single entry is appended to the array, packed or not. */
  lemma {:induction false} SingleEntryExample(rest: seq<byte>)
    ensures var d := Desc([Field(1, Repeated(4), Varint(4, []), None)], 0);
            var st, st' := State([Many([Num(1)])], [], -1, 0, {}), State([Many([Num(1), Num(5)])], [], -1, 0, {});
            GoodState(d, st) && GoodState(d, st') && Run(d, [0x08, 5] + rest, st) == Run(d, rest, st')
  {
    var f := Field(1, Repeated(4), Varint(4, []), None);
    var d, st := Desc([f], 0), State([Many([Num(1)])], [], -1, 0, {});
    assert d.fields[0] == f && FitsSlot(f, st.slots[0]) && WellFormedField(f, 0);
    assert Shaped(d, Msg(st.slots, st.unions));
    assert AllFit(f.ltype, [Num(5)]);
    UnpackedAdds(d, 0, [Num(5)], rest, st, 1);
    RepeatedGrown(d, 0, st, [Num(5)]);
    assert EncodeTagged(1, f.ltype, Num(5)) == [0x08, 5];
    assert EncodeUnpacked(1, f.ltype, [Num(5)]) == [0x08, 5];
    assert [Num(1)] + [Num(5)] == [Num(1), Num(5)] && st.slots[0 := Many([Num(1), Num(5)])] == [Many([Num(1), Num(5)])];
  }

  // ------------------------------------------------------------------
  // Messages that come in parts
  // ------------------------------------------------------------------

  /** The message has no fixed-count arrays. */
  predicate NoFixArrays(d: Desc) {
    forall i :: 0 <= i < |d.fields| ==> !d.fields[i].htype.FixArray?
  }

  /** The same state with more required fields seen. */
  function SeenToo(st: State, extra: set<nat>): State {
    st.(seen := st.seen + extra)
  }

  lemma {:induction false} FieldSeenToo(d: Desc, i: nat, wt: nat, s: seq<byte>, st: State, extra: set<nat>)
    requires GoodState(d, st) && GoodState(d, SeenToo(st, extra)) && i < |d.fields| && NoFixArrays(d) && st.fixField == -1
    ensures var r := DecodeField(d, i, wt, s, st);
            if r.Stuck? then DecodeField(d, i, wt, s, SeenToo(st, extra)).Stuck?
            else r.st.fixField == -1 && r.st.fixDone == st.fixDone && DecodeField(d, i, wt, s, SeenToo(st, extra)) == Next(SeenToo(r.st, extra), r.used)
  {
    var f := d.fields[i];
    assert WellFormedField(f, d.unions) && FitsSlot(f, st.slots[i]) && FitsUnion(f, st.unions);
    assert st.seen + extra + {i} == st.seen + {i} + extra;
  }

  lemma {:induction false} StepSeenToo(d: Desc, s: seq<byte>, st: State, extra: set<nat>)
    requires GoodState(d, st) && GoodState(d, SeenToo(st, extra)) && NoFixArrays(d) && st.fixField == -1
    ensures var r := Step(d, s, st);
            if r.Stuck? then Step(d, s, SeenToo(st, extra)).Stuck?
            else r.st.fixField == -1 && r.st.fixDone == st.fixDone && Step(d, s, SeenToo(st, extra)) == Next(SeenToo(r.st, extra), r.used)
  {
    if Parse32(s).Got? {
      var key, n := Parse32(s).value, Parse32(s).used;
      var i := FindField(d, key / 8);
      if i >= 0 {
        FieldSeenToo(d, i, key % 8, s[n..], st, extra);
      }
    }
  }

  lemma {:induction false} RunSeenToo(d: Desc, s: seq<byte>, st: State, extra: set<nat>)
    requires GoodState(d, st) && GoodState(d, SeenToo(st, extra)) && NoFixArrays(d) && st.fixField == -1
    ensures Run(d, s, SeenToo(st, extra)) == match Run(d, s, st) case None => None case Some(end) => Some(SeenToo(end, extra))
    ensures Run(d, s, st).Some? ==> Run(d, s, st).value.fixField == -1 && Run(d, s, st).value.fixDone == st.fixDone
    decreases |s|
  {
    if s != [] {
      StepSeenToo(d, s, st, extra);
      var r := Step(d, s, st);
      if r.Next? {
        RunSeenToo(d, s[r.used..], r.st, extra);
      }
    }
  }

  /** Decoding one part after the other is decoding both together: what comes second is merged into
      what came first. The message must have no fixed-count array, which could not go on. */
  lemma {:induction false} PartsMerge(d: Desc, x: seq<byte>, y: seq<byte>, base: Value)
    requires WellFormed(d) && Shaped(d, base) && NoFixArrays(d) && Framed(x)
    requires DecodeMsg(d, x, base).Some? && DecodeMsg(d, y, DecodeMsg(d, x, base).value).Some?
    ensures DecodeMsg(d, x + y, base) == DecodeMsg(d, y, DecodeMsg(d, x, base).value)
  {
    StartGood(d, base);
    RunConcat(d, x, y, Start(base));
    RunSeenToo(d, x, Start(base), {});
    assert SeenToo(Start(base), {}) == Start(base);
    var mid, m := Run(d, x, Start(base)).value, DecodeMsg(d, x, base).value;
    StartGood(d, m);
    assert mid == SeenToo(Start(m), mid.seen);
    RunSeenToo(d, y, Start(m), mid.seen);
  }

  /** So a submessage that occurs twice is the one with the contents of both. */
  lemma {:induction false} TwiceIsMerged(d: Desc, i: nat, x: seq<byte>, y: seq<byte>, old': Value, rest: seq<byte>)
    requires i < |d.fields| && d.fields[i].ltype.Submsg? && WellFormed(d.fields[i].ltype.desc) && NoFixArrays(d.fields[i].ltype.desc)
    requires Shaped(d.fields[i].ltype.desc, old') && Framed(x) && |x + y| < TWO32
    requires DecodeMsg(d.fields[i].ltype.desc, x, old').Some?
    requires DecodeMsg(d.fields[i].ltype.desc, y, DecodeMsg(d.fields[i].ltype.desc, x, old').value).Some?
    ensures var t := d.fields[i].ltype;
            var first := DecodeValue(t, old', Prefixed(x) + rest);
            first.Ok? && GoodBase(t, first.v)
            && DecodeValue(t, first.v, Prefixed(y) + rest).Ok? && DecodeValue(t, old', Prefixed(x + y) + rest).Ok?
            && DecodeValue(t, first.v, Prefixed(y) + rest).v == DecodeValue(t, old', Prefixed(x + y) + rest).v
  {
    PrefixedRoundTrip(x, rest);
    PrefixedRoundTrip(y, rest);
    PrefixedRoundTrip(x + y, rest);
    PartsMerge(d.fields[i].ltype.desc, x, y, old');
  }
}
