/** The parser of an arriving MQTT 5 PUBLISH. */
module Mqtt5Parse {
  import opened Wire
  import opened Varint
  import opened MqttKinds
  import opened MqttPacket
  import opened Mqtt5Properties
  import opened Mqtt5Publish

  predicate Known(id: byte) {
    IsText(id) || id == PAYLOAD_FORMAT_INDICATOR || id == MESSAGE_EXPIRY_INTERVAL || id == TOPIC_ALIAS || id == SUBSCRIBE_IDENTIFIER
  }

  /** No property the parser knows is cut off by the end of the block. */
  predicate Complete(s: seq<byte>) {
    s == [] || !Known(s[0]) || (ParseOne(s, NOTHING).Took? && Complete(s[ParseOne(s, NOTHING).n..]))
  }

  /** How long a property is does not depend on what came before. */
  lemma {:induction false} SameLength(s: seq<byte>, r: Received)
    requires s != []
    ensures ParseOne(s, r).Took? == ParseOne(s, NOTHING).Took?
    ensures ParseOne(s, r).Took? ==> ParseOne(s, r).n == ParseOne(s, NOTHING).n
    ensures !Known(s[0]) ==> ParseOne(s, r).Refused?
  {
  }

  /** A block that parses is complete. */
  lemma {:induction false} ParsedIsComplete(s: seq<byte>, r: Received)
    requires ParseProps(s, r).Some?
    ensures Complete(s)
    decreases |s|
  {
    if s != [] {
      SameLength(s, r);
      ParsedIsComplete(s[ParseOne(s, r).n..], ParseOne(s, r).r);
    }
  }

  /** A length and its bytes, seen from `i` bytes further on. */
  lemma {:induction false} TextEndShift(block: seq<byte>, i: nat, k: nat)
    requires i <= |block|
    ensures TextEnd(block, i + k) == match TextEnd(block[i..], k) case None => None case Some(end) => Some(i + end)
  {
  }

  /** Two length bytes and the text behind them. */
  method ReadText(block: seq<byte>, at: nat) returns (text: seq<byte>, end: nat)
    requires TextEnd(block, at).Some?
    ensures TextEnd(block, at) == Some(end) && text == block[at + 2..end]
  {
    var len := Word(block[at], block[at + 1]);
    end := at + 2 + len;
    text := block[at + 2..end];
  }

  /** The text properties of the parser's switch. */
  method ReadTextProperty(block: seq<byte>, i: nat, r: Received) returns (i': nat, r': Received)
    requires i < |block| && IsText(block[i]) && ParseText(block[i..], r).Took?
    ensures i < i' <= |block| && ParseText(block[i..], r) == Took(i' - i, r')
  {
    ghost var s := block[i..];
    TextEndShift(block, i, 1);
    var text, end := ReadText(block, i + 1);
    assert text == s[3..end - i];
    i', r' := end, r;
    if block[i] == RESPONSE_TOPIC {
      r' := r.(responseTopic := Some(text));
    } else if block[i] == CORRELATION_DATA {
      r' := r.(correlation := Some(text));
    } else if block[i] == CONTENT_TYPE {
      r' := r.(contentType := Some(text));
    } else if block[i] == USER_PROPERTY {
      TextEndShift(block, i, end - i);
      var value, end' := ReadText(block, end);
      assert value == s[end - i + 2..end' - i];
      i', r' := end', r.(user := r.user + [Pair(text, value)]);
    }
  }

  /** One round of the parser's loop, at a property that is not cut off. */
  method ReadProperty(block: seq<byte>, i: nat, r: Received) returns (known: bool, i': nat, r': Received)
    requires i < |block| && (Known(block[i]) ==> ParseOne(block[i..], r).Took?)
    ensures known <==> Known(block[i])
    ensures known ==> i < i' <= |block| && ParseOne(block[i..], r) == Took(i' - i, r')
  {
    ghost var s := block[i..];
    assert s[0] == block[i];
    known, i', r' := true, i, r;
    if IsText(block[i]) {
      i', r' := ReadTextProperty(block, i, r);
    } else if block[i] == PAYLOAD_FORMAT_INDICATOR {
      assert s[1] == block[i + 1];
      i', r' := i + 2, r.(format := block[i + 1] != 0);
    } else if block[i] == MESSAGE_EXPIRY_INTERVAL {
      assert s[1] == block[i + 1] && s[2] == block[i + 2] && s[3] == block[i + 3] && s[4] == block[i + 4];
      i', r' := i + 5, r.(expiry := Long(block[i + 1], block[i + 2], block[i + 3], block[i + 4]));
    } else if block[i] == TOPIC_ALIAS {
      assert s[1] == block[i + 1] && s[2] == block[i + 2];
      i', r' := i + 3, r.(alias := Word(block[i + 1], block[i + 2]));
    } else if block[i] == SUBSCRIBE_IDENTIFIER {
      assert s[1..] == block[i + 1..];
      var value, bytes := GetVariableLen(block, i + 1);
      i', r' := i + 1 + bytes, r.(subscribeId := value % 0x1_0000);
    } else {
      known := false;
    }
  }

  /** The loop over the property block: `None` when it meets a property it does not know. */
  method ParseBlock(block: seq<byte>) returns (received: Option<Received>)
    requires Complete(block)
    ensures received == ParseProps(block, NOTHING)
  {
    var i, r := 0, NOTHING;
    assert block[0..] == block;
    while i < |block|
      invariant 0 <= i <= |block| && Complete(block[i..])
      invariant ParseProps(block, NOTHING) == ParseProps(block[i..], r)
      decreases |block| - i
    {
      ghost var rest := block[i..];
      SameLength(rest, r);
      var known, i', r' := ReadProperty(block, i, r);
      if !known {
        return None;
      }
      assert rest[i' - i..] == block[i'..];
      i, r := i', r';
    }
    return Some(r);
  }

  /** An MQTT 5 PUBLISH as it arrives. */
  datatype Arriving5 = Arriving5(b: byte, topic: seq<byte>, id: nat, block: seq<byte>, payload: seq<byte>)
  {
    ghost predicate Valid() {
      |topic| < 0x1_0000 && id < 0x1_0000 && |block| < 0x1_0000 && Complete(block)
    }

    ghost function Header(): seq<byte> {
      FixedHeader(b, |Variable()| + |payload|)
    }

    ghost function Variable(): seq<byte> {
      VariableHeader5(Qos(b), topic, id, block)
    }

    ghost function Packet(): seq<byte> {
      Header() + (Variable() + payload)
    }

    ghost function DataStart(): nat {
      |Header()| + |Variable()|
    }
  }

  lemma {:induction false} Parts(h: seq<byte>, u: seq<byte>, t: seq<byte>, i: seq<byte>, c: seq<byte>, b: seq<byte>, p: seq<byte>)
    requires |u| == 2
    ensures var s := h + ((u + t + i + (c + b)) + p);
            && s[|h|..] == u + t + i + (c + b) + p
            && s[|h|] == u[0] && s[|h| + 1] == u[1]
            && s[|h| + 2..|h| + 2 + |t|] == t
            && s[|h| + 2 + |t|..] == i + (c + (b + p))
  {
  }

  /** The identifier's bytes. */
  ghost function IdBytes(a: Arriving5): seq<byte> {
    if Qos(a.b) > 0 then U16(a.id) else []
  }

  /** What is behind each part of the packet. */
  lemma {:induction false} Layout5(a: Arriving5)
    requires a.Valid()
    ensures var s, h, t := a.Packet(), |a.Header()|, |a.Header()| + 2 + |a.topic|;
            && h + 2 <= t <= |s| && s[0] == a.b
            && s[1..] == Base128(|a.Variable()| + |a.payload|) + (a.Variable() + a.payload)
            && Word(s[h], s[h + 1]) == |a.topic| && s[h + 2..t] == a.topic
            && s[t..] == IdBytes(a) + (Base128(|a.block|) + (a.block + a.payload))
  {
    U16Value(|a.topic|);
    Parts(a.Header(), U16(|a.topic|), a.topic, IdBytes(a), Base128(|a.block|), a.block, a.payload);
    BehindType(a.b, Base128(|a.Variable()| + |a.payload|), a.Variable() + a.payload);
  }

  lemma {:induction false} BehindType(b: byte, c: seq<byte>, rest: seq<byte>)
    ensures ([b] + c + rest)[1..] == c + rest
  {
  }

  /** The beginning of a packet of which one part is at `at`. */
  lemma {:induction false} Cut(s: seq<byte>, n: nat, at: nat, c: seq<byte>, rest: seq<byte>)
    requires at <= |s| && s[at..] == c + rest && at + |c| <= n <= |s|
    ensures s[..n][at..] == c + rest[..n - at - |c|]
    ensures s[..n][at..at + |c|] == c
  {
    assert s[..n][at..] == s[at..][..n - at];
  }

  /** The same one part further on. */
  lemma {:induction false} Onward(s: seq<byte>, at: nat, c: seq<byte>, rest: seq<byte>)
    requires at <= |s| && s[at..] == c + rest
    ensures at + |c| <= |s| && s[at + |c|..] == rest
  {
    assert s[at + |c|..] == s[at..][|c|..];
  }

  /** The variable byte integer `n` at `at`, in a buffer that holds it. */
  method ReadLength(buf: seq<byte>, at: nat, ghost s: seq<byte>, ghost n: nat, ghost rest: seq<byte>) returns (len: nat, bytes: nat)
    requires |buf| <= |s| && buf == s[..|buf|] && at + |Base128(n)| <= |buf| && s[at..] == Base128(n) + rest
    ensures len == n && bytes == |Base128(n)|
  {
    Cut(s, |buf|, at, Base128(n), rest);
    VariableIntBase128(n, rest[..|buf| - at - |Base128(n)|]);
    len, bytes := GetVariableLen(buf, at);
  }

  /** The bounds of the parts, and that the headers are not longer than the packet. */
  lemma {:induction false} Sizes(a: Arriving5)
    ensures a.DataStart() == |a.Header()| + 2 + |a.topic| + |IdBytes(a)| + |Base128(|a.block|)| + |a.block|
    ensures |a.Packet()| == a.DataStart() + |a.payload|
    ensures |a.Header()| == 1 + |Base128(|a.Variable()| + |a.payload|)|
  {
  }

  /** `mqtt5_get_publish_property_payload`, with the headers and properties all in the buffer:
      it finds the topic, what the properties say, and the part of the payload that is there. */
  method GetPublish5(buf: seq<byte>, ghost a: Arriving5) returns (topic: seq<byte>, received: Option<Received>, payload: seq<byte>)
    requires a.Valid() && a.DataStart() <= |buf| <= |a.Packet()| && buf == a.Packet()[..|buf|]
    ensures received == ParseProps(a.block, NOTHING)
    ensures received.Some? ==> topic == a.topic && payload == a.payload[..|buf| - a.DataStart()]
  {
    ghost var s := a.Packet();
    Sizes(a);
    Layout5(a);
    topic, received, payload := [], None, [];
    var totlen, bytes := ReadLength(buf, 1, s, |a.Variable()| + |a.payload|, a.Variable() + a.payload);
    var offset := 1 + bytes;
    totlen := totlen + offset;
    var topicLen := Word(buf[offset], buf[offset + 1]);
    offset := offset + 2;
    topic := buf[offset..offset + topicLen];
    assert topic == s[offset..offset + topicLen];
    offset := offset + topicLen;
    if offset >= |buf| {
      assert false;
    }
    received, payload := GetBlock(buf, offset, totlen, a);
  }

  lemma {:induction false} SeenPart(buf: seq<byte>, s: seq<byte>, from: nat, n: nat)
    requires |buf| <= |s| && buf == s[..|buf|] && from + n <= |buf|
    ensures buf[from..from + n] == s[from..][..n]
  {
  }

  /** The part of the parser behind the identifier. */
  method GetProperties(buf: seq<byte>, at: nat, totlen: nat, ghost s: seq<byte>, ghost block: seq<byte>, ghost data: seq<byte>)
    returns (received: Option<Received>, payload: seq<byte>)
    requires |buf| <= |s| == totlen && buf == s[..|buf|] && Complete(block)
    requires at + |Base128(|block|)| + |block| <= |buf| && s[at..] == Base128(|block|) + (block + data)
    ensures received == ParseProps(block, NOTHING)
    ensures |buf| - at - |Base128(|block|)| - |block| <= |data|
    ensures payload == data[..|buf| - at - |Base128(|block|)| - |block|]
  {
    var propertyLen, bytes := ReadLength(buf, at, s, |block|, block + data);
    Onward(s, at, Base128(|block|), block + data);
    var offset := at + bytes;
    Cut(s, |buf|, offset, block, data);
    received := ParseBlock(buf[offset..offset + propertyLen]);
    Onward(s, offset, block, data);
    payload := PayloadFrom(buf, offset + propertyLen, totlen, s, data);
  }

  /** The payload as far as it is in the buffer. */
  method PayloadFrom(buf: seq<byte>, offset: nat, totlen: nat, ghost s: seq<byte>, ghost data: seq<byte>) returns (payload: seq<byte>)
    requires |buf| <= |s| == totlen && buf == s[..|buf|] && offset <= |buf| && s[offset..] == data
    ensures |buf| - offset <= |data| && payload == data[..|buf| - offset]
  {
    var n := if totlen <= |buf| then totlen - offset else |buf| - offset;
    payload := buf[offset..offset + n];
    SeenPart(buf, s, offset, n);
  }

  /** The part of the parser behind the topic. */
  method GetBlock(buf: seq<byte>, behindTopic: nat, totlen: nat, ghost a: Arriving5) returns (received: Option<Received>, payload: seq<byte>)
    requires a.Valid() && a.DataStart() <= |buf| <= |a.Packet()| && buf == a.Packet()[..|buf|]
    requires behindTopic == |a.Header()| + 2 + |a.topic| && totlen == |a.Packet()|
    ensures received == ParseProps(a.block, NOTHING)
    ensures received.Some? ==> payload == a.payload[..|buf| - a.DataStart()]
  {
    ghost var s := a.Packet();
    Sizes(a);
    Layout5(a);
    Onward(s, behindTopic, IdBytes(a), Base128(|a.block|) + (a.block + a.payload));
    assert buf[0] == a.b;
    var offset := behindTopic;
    if Qos(buf[0]) > 0 {
      if offset + 2 >= |buf| {
        assert false;
      }
      offset := offset + 2;
    }
    received, payload := GetProperties(buf, offset, totlen, s, a.block, a.payload);
  }

  /** End to end: the parser recovers the topic, each property that was set, the user properties
      in order, and the payload, from what the builder produced. */
  lemma {:induction false} PublishArrives5(qos: nat, retain: nat, topic: seq<byte>, id: nat, p: Props, payload: seq<byte>)
    requires qos <= 2 && |topic| < 0x1_0000 && id < 0x1_0000 && InRange(p) && |EncodeProps(p)| < 0x1_0000
    ensures var a := Arriving5(TypeByte(PUBLISH, 0, qos, retain), topic, id, EncodeProps(p), payload);
            && a.Valid() && a.Packet() == PublishPacket5(qos, retain, topic, id, EncodeProps(p), payload)
            && ParseProps(a.block, NOTHING) == Some(Expected(p))
  {
    PropsRoundTrip(p);
    ParsedIsComplete(EncodeProps(p), NOTHING);
    TypeByteQos(PUBLISH, 0, qos, retain);
  }
}
