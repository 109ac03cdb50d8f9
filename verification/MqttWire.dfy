/** The packets and properties byte by byte, in the numbers of the standards. */
module MqttWire {
  import opened Wire
  import opened Varint
  import opened MqttKinds
  import opened MqttPacket
  import opened Mqtt5Properties
  import opened Mqtt5Publish

  // ------------------------------------------------------------------
  // Fixed header (section 2.2 of MQTT 3.1.1)
  // ------------------------------------------------------------------

  /** Where type, DUP, QoS and RETAIN are in the first byte. */
  lemma {:induction false} TypeByteParts(kind: nat, dup: nat, qos: nat, retain: nat)
    requires kind < 16 && dup < 2 && qos <= 2 && retain < 2
    ensures var b := TypeByte(kind, dup, qos, retain);
            b / 16 == kind && b / 8 % 2 == dup && b / 2 % 4 == qos && b % 2 == retain && Qos(b) == qos
  {
    var b := TypeByte(kind, dup, qos, retain);
    assert kind % 16 == kind && dup % 2 == dup && qos % 4 == qos && retain % 2 == retain;
    HighParts(b, kind, dup, 2 * qos + retain);
    LowParts(b, dup + 2 * kind, qos, retain);
  }

  lemma {:induction false} HighParts(b: nat, kind: nat, dup: nat, low: nat)
    requires dup < 2 && low < 8 && b == 16 * kind + 8 * dup + low
    ensures b / 16 == kind && b / 8 % 2 == dup
  {
  }

  lemma {:induction false} LowParts(b: nat, high: nat, qos: nat, retain: nat)
    requires qos < 4 && retain < 2 && b == 8 * high + 2 * qos + retain
    ensures b / 2 % 4 == qos && b % 2 == retain
  {
    assert b / 2 == 4 * high + qos;
  }

  /** The first bytes of CONNECT, PUBACK and PUBREC. */
  lemma {:induction false} FirstBytes()
    ensures TypeByte(CONNECT, 0, 0, 0) == 0x10 && TypeByte(PUBACK, 0, 0, 0) == 0x40 && TypeByte(PUBREC, 0, 0, 0) == 0x50
  {
    FirstByte(CONNECT);
    FirstByte(PUBACK);
    FirstByte(PUBREC);
  }

  lemma {:induction false} FirstByte(kind: nat)
    requires kind < 16
    ensures TypeByte(kind, 0, 0, 0) == 16 * kind
  {
  }

  /** Type byte and a Remaining Length that stands for the `n` bytes that follow. */
  ghost predicate IsHeader(h: seq<byte>, kind: nat, qos: nat, retain: nat, n: nat) {
    && 2 <= |h| <= 5
    && h[0] / 16 == kind && h[0] / 8 % 2 == 0 && h[0] / 2 % 4 == qos && h[0] % 2 == retain
    && GroupSum(h[1..]) == n
    && forall k :: 1 <= k < |h| ==> (h[k] >= 128 <==> k < |h| - 1)
  }

  lemma {:induction false} HeaderBytes(kind: nat, qos: nat, retain: nat, n: nat)
    requires kind < 16 && qos <= 2 && retain < 2 && n < MAX_REMAINING
    ensures IsHeader(FixedHeader(TypeByte(kind, 0, qos, retain), n), kind, qos, retain, n)
  {
    var h := FixedHeader(TypeByte(kind, 0, qos, retain), n);
    TypeByteParts(kind, 0, qos, retain);
    RemainingLengthSize(n);
    Base128Groups(n);
    assert h[1..] == Base128(n);
    forall k | 1 <= k < |h| ensures h[k] >= 128 <==> k < |h| - 1 {
      assert h[k] == Base128(n)[k - 1];
    }
  }

  // ------------------------------------------------------------------
  // PUBLISH (section 3.3 of MQTT 3.1.1)
  // ------------------------------------------------------------------

  /** Two bytes at `at` hold the number, the high one first. */
  ghost predicate WordAt(s: seq<byte>, at: nat, n: nat) {
    at + 2 <= |s| && s[at] == n / 256 && s[at + 1] == n % 256
  }

  /** Length and bytes of the topic, the identifier above QoS 0, and what is behind. */
  ghost predicate IsVariable(s: seq<byte>, qos: nat, topic: seq<byte>, id: nat, rest: seq<byte>) {
    var t := 2 + |topic|;
    && WordAt(s, 0, |topic|) && t <= |s| && s[2..t] == topic
    && if qos == 0 then s[t..] == rest else WordAt(s, t, id) && s[t + 2..] == rest
  }

  lemma {:induction false} VariableBytes(qos: nat, topic: seq<byte>, id: nat, rest: seq<byte>)
    requires |topic| < 0x1_0000 && id < 0x1_0000
    ensures IsVariable(VariableHeader(qos, topic, id) + rest, qos, topic, id, rest)
  {
    var s, t := VariableHeader(qos, topic, id) + rest, 2 + |topic|;
    var b: seq<byte> := if qos > 0 then U16(id) else [];
    assert s == U16(|topic|) + (topic + (b + rest));
    assert s[2..] == topic + (b + rest);
    assert s[t..] == b + rest;
  }

  /** Header, then the rest, which it announces. */
  ghost predicate IsPublish(s: seq<byte>, h: nat, qos: nat, retain: nat, topic: seq<byte>, id: nat, rest: seq<byte>) {
    h <= |s| && IsHeader(s[..h], 3, qos, retain, |s| - h) && IsVariable(s[h..], qos, topic, id, rest)
  }

  lemma {:induction false} PublishBytes(qos: nat, retain: nat, topic: seq<byte>, id: nat, payload: seq<byte>) returns (h: nat)
    requires qos <= 2 && retain < 2 && |topic| < 0x1_0000 && id < 0x1_0000
    requires BodyStart(qos, topic) + |payload| < MAX_REMAINING
    ensures IsPublish(PublishPacket(qos, retain, topic, id, payload), h, qos, retain, topic, id, payload)
  {
    var v, s := VariableHeader(qos, topic, id), PublishPacket(qos, retain, topic, id, payload);
    var header := FixedHeader(TypeByte(PUBLISH, 0, qos, retain), |v| + |payload|);
    h := |header|;
    HeaderBytes(PUBLISH, qos, retain, |v| + |payload|);
    VariableBytes(qos, topic, id, payload);
    assert s == header + (v + payload);
    assert s[..h] == header && s[h..] == v + payload;
  }

  /** With MQTT 5 the length of the property block and the block stand in front of the payload. */
  lemma {:induction false} Publish5Bytes(qos: nat, retain: nat, topic: seq<byte>, id: nat, block: seq<byte>, payload: seq<byte>)
    returns (h: nat, len: seq<byte>)
    requires qos <= 2 && retain < 2 && |topic| < 0x1_0000 && id < 0x1_0000
    requires BodyStart5(qos, topic, block) + |payload| < MAX_REMAINING
    ensures IsPublish(PublishPacket5(qos, retain, topic, id, block, payload), h, qos, retain, topic, id, len + block + payload)
    ensures GroupSum(len) == |block| && forall k :: 0 <= k < |len| ==> (len[k] >= 128 <==> k < |len| - 1)
  {
    var v, s := VariableHeader5(qos, topic, id, block), PublishPacket5(qos, retain, topic, id, block, payload);
    var header := FixedHeader(TypeByte(PUBLISH, 0, qos, retain), |v| + |payload|);
    h, len := |header|, Base128(|block|);
    HeaderBytes(PUBLISH, qos, retain, |v| + |payload|);
    Base128Groups(|block|);
    VariableBytes(qos, topic, id, len + block + payload);
    assert v + payload == VariableHeader(qos, topic, id) + (len + block + payload);
    assert s[..h] == header && s[h..] == v + payload;
  }

  /** A retained QoS 1 message "a/b" with identifier 10 and payload 1, 2. */
  lemma {:induction false} PublishExample()
    ensures PublishPacket(1, 1, [97, 47, 98], 10, [1, 2]) == [0x33, 9, 0, 3, 97, 47, 98, 0, 10, 1, 2]
  {
    TypeByteExample();
    assert VariableHeader(1, [97, 47, 98], 10) == [0, 3, 97, 47, 98, 0, 10];
  }

  lemma {:induction false} TypeByteExample()
    ensures TypeByte(PUBLISH, 0, 1, 1) == 0x33
  {
  }

  // ------------------------------------------------------------------
  // Properties (section 2.2.2.2 of MQTT 5.0)
  // ------------------------------------------------------------------

  /** What the builder writes for each property, and in which order. */
  lemma {:induction false} PropertyBytes(p: Props)
    requires InRange(p)
    ensures FormatBytes(p) == if p.format then [0x01, 1] else []
    ensures ExpiryBytes(p) == if p.expiry == 0 then []
                              else [0x02, p.expiry / 0x100_0000, p.expiry / 0x1_0000 % 256, p.expiry / 256 % 256, p.expiry % 256]
    ensures AliasBytes(p) == if p.alias == 0 then [] else [0x23, p.alias / 256, p.alias % 256]
    ensures ResponseBytes(p) == if p.responseTopic.None? then [] else TextBytes(0x08, p.responseTopic.value)
    ensures CorrelationBytes(p) == if p.correlation == [] then [] else TextBytes(0x09, p.correlation)
    ensures ContentBytes(p) == if p.contentType.None? then [] else TextBytes(0x03, p.contentType.value)
    ensures EncodeProps(p) == FormatBytes(p) + ExpiryBytes(p) + AliasBytes(p) + ResponseBytes(p) + CorrelationBytes(p)
                              + UserBytes(p.user, |p.user|) + ContentBytes(p)
  {
  }

  /** Identifier, length with the high byte first, and bytes. */
  function TextBytes(id: byte, s: seq<byte>): seq<byte>
    requires |s| < 0x1_0000
  {
    [id, |s| / 256, |s| % 256] + s
  }

  lemma {:induction false} UserPairBytes(x: Pair)
    requires |x.key| < 0x1_0000 && |x.value| < 0x1_0000
    ensures UserPair(x) == TextBytes(0x26, x.key) + ([|x.value| / 256, |x.value| % 256] + x.value)
  {
  }

  /** What the parser makes of the properties that are not text, whatever they hold: also of the
      subscription identifier, which only the broker sends. */
  lemma {:induction false} NumbersMean(a: byte, b: byte, c: byte, e: byte, n: nat, rest: seq<byte>, r: Received)
    ensures ParseOne([0x01, a] + rest, r) == Took(2, r.(format := a != 0))
    ensures ParseOne([0x02, a, b, c, e] + rest, r) == Took(5, r.(expiry := ((a * 256 + b) * 256 + c) * 256 + e))
    ensures ParseOne([0x23, a, b] + rest, r) == Took(3, r.(alias := a * 256 + b))
    ensures ParseOne([0x0B] + Base128(n) + rest, r) == Took(1 + |Base128(n)|, r.(subscribeId := n % 0x1_0000))
  {
    VariableIntBase128(n, rest);
    assert ([0x0B] + Base128(n) + rest)[1..] == Base128(n) + rest;
  }

  /** And of those that are. */
  lemma {:induction false} TextsMean(text: seq<byte>, value: seq<byte>, rest: seq<byte>, r: Received)
    requires |text| < 0x1_0000 && |value| < 0x1_0000
    ensures var n := 3 + |text|;
            && ParseOne(TextBytes(0x08, text) + rest, r) == Took(n, r.(responseTopic := Some(text)))
            && ParseOne(TextBytes(0x09, text) + rest, r) == Took(n, r.(correlation := Some(text)))
            && ParseOne(TextBytes(0x03, text) + rest, r) == Took(n, r.(contentType := Some(text)))
            && ParseOne(TextBytes(0x1F, text) + rest, r) == Took(n, r)
    ensures ParseOne(UserPair(Pair(text, value)) + rest, r) == Took(5 + |text| + |value|, r.(user := r.user + [Pair(text, value)]))
  {
    TextMeans(0x08, text, rest);
    TextMeans(0x09, text, rest);
    TextMeans(0x03, text, rest);
    TextMeans(0x1F, text, rest);
    PairMeans(Pair(text, value), rest, r);
  }

  lemma {:induction false} TextMeans(id: byte, text: seq<byte>, rest: seq<byte>)
    requires |text| < 0x1_0000
    ensures var s := TextBytes(id, text) + rest;
            s[0] == id && TextEnd(s, 1) == Some(3 + |text|) && s[3..3 + |text|] == text
  {
    assert TextBytes(id, text) == Text(id, text);
    TextFound(id, text, rest);
  }

  lemma {:induction false} PairMeans(x: Pair, rest: seq<byte>, r: Received)
    requires |x.key| < 0x1_0000 && |x.value| < 0x1_0000
    ensures ParseOne(UserPair(x) + rest, r) == Took(5 + |x.key| + |x.value|, r.(user := r.user + [x]))
  {
    var tail := U16(|x.value|) + x.value + rest;
    var s := UserPair(x) + rest;
    assert s == Text(USER_PROPERTY, x.key) + tail;
    TextFound(USER_PROPERTY, x.key, tail);
    var end := 3 + |x.key|;
    U16Value(|x.value|);
    assert s[end] == U16(|x.value|)[0] && s[end + 1] == U16(|x.value|)[1];
    assert s[end + 2..end + 2 + |x.value|] == x.value;
  }

  /** Every other identifier makes the parser give up the message. */
  lemma {:induction false} OthersRefused(id: byte, rest: seq<byte>, r: Received)
    requires id !in {0x01, 0x02, 0x03, 0x08, 0x09, 0x0B, 0x1F, 0x23, 0x26}
    ensures ParseProps([id] + rest, r).None?
  {
  }
}
