/** Forward compatibility inside nested messages. */
module Nesting {
  import opened Wire
  import opened Varint
  import opened Schema
  import opened Encoding
  import opened Decoding
  import opened Framing
  import opened RoundTrip

  /** Both byte strings decode to the same, into whatever memory. */
  ghost predicate Same(d: Desc, x: seq<byte>, y: seq<byte>)
    requires WellFormed(d)
  {
    forall base :: Shaped(d, base) ==> DecodeMsg(d, x, base) == DecodeMsg(d, y, base)
  }

  lemma {:induction false} InsertSame(d: Desc, a: seq<byte>, u: seq<byte>, b: seq<byte>)
    requires WellFormed(d) && Framed(a) && UnknownField(d, u)
    ensures Same(d, a + u + b, a + b)
  {
    forall base | Shaped(d, base) ensures DecodeMsg(d, a + u + b, base) == DecodeMsg(d, a + b, base) {
      InsertUnknown(d, a, u, b, base);
    }
  }

  lemma {:induction false} ValueSame(d: Desc, base: Value, x: seq<byte>, y: seq<byte>, rest: seq<byte>)
    requires WellFormed(d) && Shaped(d, base) && Same(d, x, y) && |x| < TWO32 && |y| < TWO32
    ensures match DecodeValue(Submsg(d), base, Prefixed(x) + rest)
            case Fail => DecodeValue(Submsg(d), base, Prefixed(y) + rest).Fail?
            case Ok(v, n) => n == |Prefixed(x)| && DecodeValue(Submsg(d), base, Prefixed(y) + rest) == Ok(v, |Prefixed(y)|)
  {
    PrefixedRoundTrip(x, rest);
    PrefixedRoundTrip(y, rest);
    assert DecodeMsg(d, x, base) == DecodeMsg(d, y, base);
  }

  /** One outcome for both fields, each of which is used up. */
  ghost predicate Alike(a: Stepped, m: nat, b: Stepped, n: nat) {
    if a.Stuck? then b.Stuck? else a.used == m && b == Next(a.st, n)
  }

  lemma {:induction false} ArraySame(d: Desc, i: nat, x: seq<byte>, y: seq<byte>, rest: seq<byte>, st: State)
    requires GoodState(d, st) && i < |d.fields| && d.fields[i].ltype.Submsg? && d.fields[i].htype.IsArray()
    requires WellFormed(d.fields[i].ltype.desc) && Same(d.fields[i].ltype.desc, x, y) && |x| < TWO32 && |y| < TWO32
    ensures Alike(DecodeArray(d, i, WT_STRING, Prefixed(x) + rest, st), |Prefixed(x)|,
                  DecodeArray(d, i, WT_STRING, Prefixed(y) + rest, st), |Prefixed(y)|)
  {
    var f := d.fields[i];
    assert WellFormedField(f, d.unions) && FitsSlot(f, st.slots[i]);
    var size := ArraySize(d, i, st);
    if size.Some? {
      ValueSame(f.ltype.desc, EntryBase(f.ltype, st.slots[i].vs, size.value), x, y, rest);
    }
  }

  lemma {:induction false} FieldSame(d: Desc, i: nat, x: seq<byte>, y: seq<byte>, rest: seq<byte>, st: State)
    requires GoodState(d, st) && i < |d.fields| && d.fields[i].ltype.Submsg?
    requires WellFormed(d.fields[i].ltype.desc) && Same(d.fields[i].ltype.desc, x, y) && |x| < TWO32 && |y| < TWO32
    ensures Alike(DecodeField(d, i, WT_STRING, Prefixed(x) + rest, st), |Prefixed(x)|,
                  DecodeField(d, i, WT_STRING, Prefixed(y) + rest, st), |Prefixed(y)|)
  {
    var f := d.fields[i];
    assert WellFormedField(f, d.unions) && FitsSlot(f, st.slots[i]) && FitsUnion(f, st.unions);
    if f.htype.IsArray() {
      ArraySame(d, i, x, y, rest, st);
    } else if f.htype.Oneof? {
      ValueSame(f.ltype.desc, MemberBase(f, st.unions[f.htype.union]), x, y, rest);
    } else {
      assert FitsType(f.ltype, st.slots[i].v);
      ValueSame(f.ltype.desc, st.slots[i].v, x, y, rest);
    }
  }

  lemma {:induction false} TaggedStuck(d: Desc, i: nat, payload: seq<byte>, rest: seq<byte>, st: State)
    requires GoodState(d, st) && i < |d.fields| && DecodeField(d, i, WT_STRING, payload + rest, st).Stuck?
    ensures Run(d, Tag(d.fields[i].tag, WT_STRING) + payload + rest, st) == None
  {
    var f := d.fields[i];
    assert WellFormedField(f, d.unions);
    var key := 8 * f.tag + WT_STRING;
    var s := Tag(f.tag, WT_STRING) + payload + rest;
    assert s == Base128(key) + (payload + rest);
    Parse32Base128(key, payload + rest);
    assert s[|Base128(key)|..] == payload + rest;
    assert FindField(d, f.tag) == i;
    assert Step(d, s, st).Stuck?;
  }

  lemma {:induction false} RunSame(d: Desc, i: nat, x: seq<byte>, y: seq<byte>, rest: seq<byte>, st: State)
    requires GoodState(d, st) && i < |d.fields| && d.fields[i].ltype.Submsg?
    requires WellFormed(d.fields[i].ltype.desc) && Same(d.fields[i].ltype.desc, x, y) && |x| < TWO32 && |y| < TWO32
    ensures var tag := Tag(d.fields[i].tag, WT_STRING);
            Run(d, tag + Prefixed(x) + rest, st) == Run(d, tag + Prefixed(y) + rest, st)
  {
    FieldSame(d, i, x, y, rest, st);
    var a := DecodeField(d, i, WT_STRING, Prefixed(x) + rest, st);
    if a.Stuck? {
      TaggedStuck(d, i, Prefixed(x), rest, st);
      TaggedStuck(d, i, Prefixed(y), rest, st);
    } else {
      TaggedRun(d, i, WT_STRING, Prefixed(x), rest, st, a.st);
      TaggedRun(d, i, WT_STRING, Prefixed(y), rest, st, a.st);
    }
  }

  /** A message with the submessage `body` at field `i`, its length prefix written for it. */
  function Around(d: Desc, i: nat, pre: seq<byte>, body: seq<byte>, post: seq<byte>): seq<byte>
    requires i < |d.fields|
  {
    pre + (Tag(d.fields[i].tag, WT_STRING) + Prefixed(body) + post)
  }

  /** What cannot be told apart inside a submessage cannot be told apart outside, with the length
      prefix rewritten. */
  lemma {:induction false} NestedSame(d: Desc, i: nat, pre: seq<byte>, x: seq<byte>, y: seq<byte>, post: seq<byte>)
    requires WellFormed(d) && i < |d.fields| && d.fields[i].ltype.Submsg? && Framed(pre)
    requires WellFormed(d.fields[i].ltype.desc) && Same(d.fields[i].ltype.desc, x, y) && |x| < TWO32 && |y| < TWO32
    ensures Same(d, Around(d, i, pre, x, post), Around(d, i, pre, y, post))
  {
    forall base | Shaped(d, base)
      ensures DecodeMsg(d, Around(d, i, pre, x, post), base) == DecodeMsg(d, Around(d, i, pre, y, post), base)
    {
      StartGood(d, base);
      var tag, st := Tag(d.fields[i].tag, WT_STRING), Start(base);
      RunConcat(d, pre, tag + Prefixed(x) + post, st);
      RunConcat(d, pre, tag + Prefixed(y) + post, st);
      if Run(d, pre, st).Some? {
        RunSame(d, i, x, y, post, Run(d, pre, st).value);
      }
    }
  }

  /** One level of nesting: the field that holds the submessage, and what stands around it. */
  datatype Level = Level(i: nat, pre: seq<byte>, post: seq<byte>)

  /** The path leads from `d` through submessage fields. */
  predicate Leads(d: Desc, path: seq<Level>) {
    path == []
    || (path[0].i < |d.fields| && d.fields[path[0].i].ltype.Submsg? && Leads(d.fields[path[0].i].ltype.desc, path[1..]))
  }

  /** The message type at its end. */
  function Inner(d: Desc, path: seq<Level>): Desc
    requires Leads(d, path)
  {
    if path == [] then d else Inner(d.fields[path[0].i].ltype.desc, path[1..])
  }

  /** `body` at the end of the path, with every length prefix on the way written for it. */
  function Within(d: Desc, path: seq<Level>, body: seq<byte>): seq<byte>
    requires Leads(d, path)
  {
    if path == [] then body
    else Around(d, path[0].i, path[0].pre, Within(d.fields[path[0].i].ltype.desc, path[1..], body), path[0].post)
  }

  /** On every level whole fields stand in front, and the length fits its prefix. */
  predicate Prefixable(d: Desc, path: seq<Level>, body: seq<byte>)
    requires Leads(d, path)
  {
    path == []
    || (var inner := d.fields[path[0].i].ltype.desc;
        Framed(path[0].pre) && |Within(inner, path[1..], body)| < TWO32 && Prefixable(inner, path[1..], body))
  }

  /** What cannot be told apart at the end of a path of any length cannot be told apart outside. */
  lemma {:induction false} SameAtDepth(d: Desc, path: seq<Level>, x: seq<byte>, y: seq<byte>)
    requires WellFormed(d) && Leads(d, path) && Prefixable(d, path, x) && Prefixable(d, path, y)
    requires WellFormed(Inner(d, path)) && Same(Inner(d, path), x, y)
    ensures Same(d, Within(d, path, x), Within(d, path, y))
    decreases |path|
  {
    if path != [] {
      var f, inner := d.fields[path[0].i], d.fields[path[0].i].ltype.desc;
      assert WellFormedField(f, d.unions) && WellFormedType(f.ltype);
      SameAtDepth(inner, path[1..], x, y);
      NestedSame(d, path[0].i, path[0].pre, Within(inner, path[1..], x), Within(inner, path[1..], y), path[0].post);
    }
  }

  lemma {:induction false} InnerWellFormed(d: Desc, path: seq<Level>)
    requires WellFormed(d) && Leads(d, path)
    ensures WellFormed(Inner(d, path))
    decreases |path|
  {
    if path != [] {
      assert WellFormedField(d.fields[path[0].i], d.unions) && WellFormedType(d.fields[path[0].i].ltype);
      InnerWellFormed(d.fields[path[0].i].ltype.desc, path[1..]);
    }
  }

  /** An unknown field at any depth leaves the result of the whole unchanged. */
  lemma {:induction false} NestedForwardCompatible(d: Desc, path: seq<Level>, a: seq<byte>, u: seq<byte>, b: seq<byte>, mem: Value)
    requires WellFormed(d) && Shaped(d, mem) && Leads(d, path)
    requires Framed(a) && UnknownField(Inner(d, path), u) && Prefixable(d, path, a + u + b) && Prefixable(d, path, a + b)
    ensures Decode(d, Within(d, path, a + u + b), mem) == Decode(d, Within(d, path, a + b), mem)
  {
    InnerWellFormed(d, path);
    InsertSame(Inner(d, path), a, u, b);
    SameAtDepth(d, path, a + u + b, a + b);
    ToDefaultsShaped(d, mem);
  }
}
