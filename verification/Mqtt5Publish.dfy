/** The MQTT 5 PUBLISH builder, which writes the property length back in front of properties
    already in the buffer. */
module Mqtt5Publish {
  import opened Wire
  import opened Varint
  import opened MqttKinds
  import opened MqttPacket
  import opened Mqtt5Properties

  /** Topic, identifier, property length and properties (section 3.3.2 of MQTT 5.0); `block` is
      the encoded properties. */
  function VariableHeader5(qos: nat, topic: seq<byte>, id: nat, block: seq<byte>): seq<byte> {
    VariableHeader(qos, topic, id) + (Base128(|block|) + block)
  }

  function PublishPacket5(qos: nat, retain: nat, topic: seq<byte>, id: nat, block: seq<byte>, payload: seq<byte>): seq<byte> {
    FixedHeader(TypeByte(PUBLISH, 0, qos, retain), |VariableHeader5(qos, topic, id, block)| + |payload|)
    + (VariableHeader5(qos, topic, id, block) + payload)
  }

  // ------------------------------------------------------------------
  // Builder
  // ------------------------------------------------------------------

  /** `data_len` in `lenOccupy` bytes, most significant first. */
  function BigEndian(n: nat, lenOccupy: nat): (s: seq<byte>)
    requires lenOccupy == 1 || lenOccupy == 2 || lenOccupy == 4
    ensures |s| == lenOccupy
  {
    if lenOccupy == 1 then [n % 256] else if lenOccupy == 2 then U16(n) else U32(n)
  }

  function PropertyBytes(kind: byte, lenOccupy: nat, data: Option<seq<byte>>, dataLen: nat): (s: seq<byte>)
    requires lenOccupy == 1 || lenOccupy == 2 || lenOccupy == 4
    ensures |s| == (if kind != 0 then 1 else 0) + lenOccupy + |Payload(data)|
  {
    (if kind != 0 then [kind] else []) + BigEndian(dataLen, lenOccupy) + Payload(data)
  }

  /** `append_property`. */
  method AppendProperty(conn: Connection, kind: byte, lenOccupy: nat, data: Option<seq<byte>>, dataLen: nat) returns (ok: bool)
    requires lenOccupy == 1 || lenOccupy == 2 || lenOccupy == 4
    requires 0 <= conn.length && (data.Some? ==> dataLen == |data.value|)
    modifies conn`length, conn.buffer
    ensures var s := PropertyBytes(kind, lenOccupy, data, dataLen);
            && (ok <==> old(conn.length) + |s| <= conn.buffer.Length)
            && (ok ==> conn.length == old(conn.length) + |s| && conn.buffer[..conn.length] == old(conn.buffer[..conn.length]) + s)
  {
    if conn.length + lenOccupy + (if data.Some? then dataLen else 0) + (if kind != 0 then 1 else 0) > conn.buffer.Length {
      return false;
    }
    conn.Copy(PropertyBytes(kind, lenOccupy, data, dataLen));
    return true;
  }

  /** The message is `at` bytes, then `done`; when it is within the buffer the bytes are there,
      behind `head`. */
  ghost predicate Holds(conn: Connection, head: seq<byte>, at: nat, done: seq<byte>)
    reads conn, conn.buffer
  {
    && conn.length == at + |done| <= conn.buffer.Length + 1
    && (conn.length <= conn.buffer.Length ==> |head| == at && conn.buffer[..conn.length] == head + done)
  }

  /** A property, as bytes `s`, that is appended only when it is set. */
  method AppendOptional(conn: Connection, present: bool, kind: byte, lenOccupy: nat, data: Option<seq<byte>>, dataLen: nat,
                        ghost s: seq<byte>, ghost head: seq<byte>, ghost at: nat, ghost done: seq<byte>) returns (ok: bool)
    requires lenOccupy == 1 || lenOccupy == 2 || lenOccupy == 4
    requires Holds(conn, head, at, done) && (data.Some? ==> dataLen == |data.value|)
    requires s == if present then PropertyBytes(kind, lenOccupy, data, dataLen) else []
    modifies conn`length, conn.buffer
    ensures ok <==> s == [] || at + |done| + |s| <= conn.buffer.Length
    ensures ok ==> Holds(conn, head, at, done + s)
  {
    if !present {
      assert done + s == done;
      return true;
    }
    ok := AppendProperty(conn, kind, lenOccupy, data, dataLen);
    if ok {
      Regroup(head, done, s);
    }
  }

  /** The properties in the form the builder passes them. */
  lemma {:induction false} NumberPieces(p: Props)
    ensures FormatBytes(p) == if p.format then PropertyBytes(PAYLOAD_FORMAT_INDICATOR, 1, None, 1) else []
    ensures ExpiryBytes(p) == if p.expiry != 0 then PropertyBytes(MESSAGE_EXPIRY_INTERVAL, 4, None, p.expiry) else []
    ensures AliasBytes(p) == if p.alias != 0 then PropertyBytes(TOPIC_ALIAS, 2, None, p.alias) else []
  {
  }

  lemma {:induction false} TextPiece(kind: byte, text: seq<byte>)
    requires kind != 0
    ensures Text(kind, text) == PropertyBytes(kind, 2, Some(text), |text|)
  {
  }

  /** One user property: two strings. */
  method AppendPair(conn: Connection, x: Pair, ghost head: seq<byte>, ghost at: nat, ghost done: seq<byte>) returns (ok: bool)
    requires Holds(conn, head, at, done)
    modifies conn`length, conn.buffer
    ensures ok <==> at + |done| + |UserPair(x)| <= conn.buffer.Length
    ensures ok ==> Holds(conn, head, at, done + UserPair(x))
  {
    ghost var key, value := Text(USER_PROPERTY, x.key), U16(|x.value|) + x.value;
    TextPiece(USER_PROPERTY, x.key);
    ok := AppendOptional(conn, true, USER_PROPERTY, 2, Some(x.key), |x.key|, key, head, at, done);
    if !ok {
      return;
    }
    assert value == PropertyBytes(0, 2, Some(x.value), |x.value|);
    ok := AppendOptional(conn, true, 0, 2, Some(x.value), |x.value|, value, head, at, done + key);
    Regroup(done, key, value);
  }

  lemma {:induction false} UserBytesGrow(user: seq<Pair>, i: nat, n: nat)
    requires i <= n <= |user|
    ensures |UserBytes(user, i)| <= |UserBytes(user, n)|
    ensures i < n ==> |UserBytes(user, i)| < |UserBytes(user, n)|
    decreases n
  {
    if i < n {
      UserBytesGrow(user, i, n - 1);
    }
  }

  method AppendUser(conn: Connection, user: seq<Pair>, ghost head: seq<byte>, ghost at: nat, ghost done: seq<byte>) returns (ok: bool)
    requires Holds(conn, head, at, done)
    modifies conn`length, conn.buffer
    ensures var s := UserBytes(user, |user|);
            && (ok <==> s == [] || at + |done| + |s| <= conn.buffer.Length)
            && (ok ==> Holds(conn, head, at, done + s))
  {
    var i := 0;
    assert done + UserBytes(user, 0) == done;
    while i < |user|
      invariant 0 <= i <= |user| && Holds(conn, head, at, done + UserBytes(user, i))
      invariant i > 0 ==> at + |done| + |UserBytes(user, i)| <= conn.buffer.Length
    {
      UserBytesGrow(user, i + 1, |user|);
      UserBytesGrow(user, i, i + 1);
      ok := AppendPair(conn, user[i], head, at, done + UserBytes(user, i));
      if !ok {
        return;
      }
      Regroup(done, UserBytes(user, i), UserPair(user[i]));
      i := i + 1;
    }
    return true;
  }

  /** The properties that are numbers. */
  method AppendNumbers(conn: Connection, p: Props, ghost head: seq<byte>, ghost at: nat) returns (ok: bool)
    requires Holds(conn, head, at, [])
    modifies conn`length, conn.buffer
    ensures var s := FormatBytes(p) + ExpiryBytes(p) + AliasBytes(p);
            && (ok <==> s == [] || at + |s| <= conn.buffer.Length)
            && (ok ==> Holds(conn, head, at, s))
  {
    ghost var a := FormatBytes(p);
    ghost var b := a + ExpiryBytes(p);
    NumberPieces(p);
    assert [] + a == a;
    ok := AppendOptional(conn, p.format, PAYLOAD_FORMAT_INDICATOR, 1, None, 1, FormatBytes(p), head, at, []);
    if !ok {
      return;
    }
    ok := AppendOptional(conn, p.expiry != 0, MESSAGE_EXPIRY_INTERVAL, 4, None, p.expiry, ExpiryBytes(p), head, at, a);
    if !ok {
      return;
    }
    ok := AppendOptional(conn, p.alias != 0, TOPIC_ALIAS, 2, None, p.alias, AliasBytes(p), head, at, b);
  }

  /** A text property. */
  method AppendText(conn: Connection, present: bool, kind: byte, text: seq<byte>, ghost head: seq<byte>, ghost at: nat, ghost done: seq<byte>)
    returns (ok: bool)
    requires kind != 0 && Holds(conn, head, at, done)
    modifies conn`length, conn.buffer
    ensures var s := if present then Text(kind, text) else [];
            && (ok <==> s == [] || at + |done| + |s| <= conn.buffer.Length)
            && (ok ==> Holds(conn, head, at, done + s))
  {
    TextPiece(kind, text);
    ok := AppendOptional(conn, present, kind, 2, Some(text), |text|, if present then Text(kind, text) else [], head, at, done);
  }

  /** The properties before the user properties. */
  method AppendFirst(conn: Connection, p: Props, ghost head: seq<byte>, ghost at: nat) returns (ok: bool)
    requires Holds(conn, head, at, [])
    modifies conn`length, conn.buffer
    ensures ok <==> FirstProps(p) == [] || at + |FirstProps(p)| <= conn.buffer.Length
    ensures ok ==> Holds(conn, head, at, FirstProps(p))
  {
    ghost var numbers := FormatBytes(p) + ExpiryBytes(p) + AliasBytes(p);
    ok := AppendNumbers(conn, p, head, at);
    if !ok {
      return;
    }
    ok := AppendText(conn, p.responseTopic.Some?, RESPONSE_TOPIC, Payload(p.responseTopic), head, at, numbers);
    if !ok {
      return;
    }
    ok := AppendText(conn, p.correlation != [], CORRELATION_DATA, p.correlation, head, at, numbers + ResponseBytes(p));
  }

  /** All properties. */
  method AppendProps(conn: Connection, p: Props, ghost head: seq<byte>, ghost at: nat) returns (ok: bool)
    requires Holds(conn, head, at, [])
    modifies conn`length, conn.buffer
    ensures ok <==> EncodeProps(p) == [] || at + |EncodeProps(p)| <= conn.buffer.Length
    ensures ok ==> Holds(conn, head, at, EncodeProps(p))
  {
    ok := AppendFirst(conn, p, head, at);
    if !ok {
      return;
    }
    ghost var s := FirstProps(p) + UserBytes(p.user, |p.user|);
    ok := AppendUser(conn, p.user, head, at, FirstProps(p));
    if !ok {
      return;
    }
    ok := AppendText(conn, p.contentType.Some?, CONTENT_TYPE, Payload(p.contentType), head, at, s);
  }

  /** Move the properties up if the length takes more than the byte reserved for it, and write
      the length in front of them. */
  method ShiftAndPatch(conn: Connection, at: nat, n: nat, code: seq<byte>, ghost head: seq<byte>, ghost props: seq<byte>)
    requires code != [] && |head| == at + 1 && n == |props| && at + |code| + n <= conn.buffer.Length
    requires conn.buffer[..at + 1 + n] == head + props
    modifies conn.buffer
    ensures conn.buffer[..at + |code| + n] == head[..at] + (code + props)
  {
    ghost var was := conn.buffer[..];
    assert was[..at + 1 + n] == head + props;
    if |code| > 1 {
      ShiftUp(conn, at, n, |code| - 1);
    }
    ghost var mid := conn.buffer[..];
    conn.PutHeader(at, code);
    Patched(was, mid, conn.buffer[..], head, props, at, code);
    assert conn.buffer[..][..at + |code| + n] == conn.buffer[..at + |code| + n];
  }

  /** `update_property_len_value`: the properties move up from the last byte to the first, and
      the length goes where the byte reserved for it and the space gained are. Every property
      byte is kept. */
  method UpdatePropertyLen(conn: Connection, at: nat, ghost head: seq<byte>, ghost props: seq<byte>) returns (ok: bool)
    requires |props| < MAX_REMAINING && Holds(conn, head, at + 1, props)
    modifies conn`length, conn.buffer
    ensures ok <==> at + |Base128(|props|)| + |props| <= conn.buffer.Length
    ensures ok ==> conn.length == at + |Base128(|props|)| + |props| && |head| == at + 1
                   && conn.buffer[..conn.length] == head[..at] + (Base128(|props|) + props)
  {
    var n := conn.length - at - 1;
    var code := conn.EncodeLength(n);
    var offset := |code| - 1;
    conn.length := conn.length + offset;
    if conn.length > conn.buffer.Length {
      return false;
    }
    ShiftAndPatch(conn, at, n, code, head, props);
    return true;
  }

  /** The loop that moves `n` bytes behind `at` up by `offset`, the last one first. */
  method ShiftUp(conn: Connection, at: nat, n: nat, offset: nat)
    requires offset > 0 && at + 1 + n + offset <= conn.buffer.Length
    modifies conn.buffer
    ensures forall k {:trigger conn.buffer[k]} :: 0 <= k < conn.buffer.Length ==>
              conn.buffer[k] == if at + offset < k <= at + n + offset then old(conn.buffer[k - offset]) else old(conn.buffer[k])
  {
    var messageOffset := at + n;
    var i := 0;
    while i < n
      invariant 0 <= i <= n && messageOffset == at + n - i
      invariant forall k {:trigger conn.buffer[k]} :: 0 <= k < conn.buffer.Length ==>
                  conn.buffer[k] == if messageOffset + offset < k <= at + n + offset then old(conn.buffer[k - offset]) else old(conn.buffer[k])
    {
      conn.buffer[messageOffset + offset] := conn.buffer[messageOffset];
      messageOffset := messageOffset - 1;
      i := i + 1;
    }
  }

  /** What shift and back-patch leave in the buffer. */
  lemma {:induction false} Patched(was: seq<byte>, mid: seq<byte>, now: seq<byte>, head: seq<byte>, props: seq<byte>, at: nat, code: seq<byte>)
    requires |code| >= 1 && |head| == at + 1 && |was| == |mid| == |now| && at + |code| + |props| <= |was|
    requires was[..at + 1 + |props|] == head + props
    requires forall k {:trigger mid[k]} :: 0 <= k < |mid| ==>
               mid[k] == if at + |code| - 1 < k <= at + |props| + |code| - 1 then was[k - (|code| - 1)] else was[k]
    requires forall k {:trigger now[k]} :: 0 <= k < |now| ==> now[k] == if at <= k < at + |code| then code[k - at] else mid[k]
    ensures now[..at + |code| + |props|] == head[..at] + (code + props)
  {
    var goal := head[..at] + (code + props);
    var old' := was[..at + 1 + |props|];
    forall k | 0 <= k < |goal| ensures now[k] == goal[k] {
      if k < at {
        assert now[k] == mid[k] == was[k] == old'[k];
        assert old'[k] == (head + props)[k] == head[k];
        assert goal[k] == head[..at][k] == head[k];
      } else if k < at + |code| {
        assert goal[k] == (code + props)[k - at] == code[k - at];
      } else {
        var j := k - (|code| - 1);
        assert now[k] == mid[k] == was[j] == old'[j];
        assert goal[k] == (code + props)[k - at] == props[k - at - |code|];
        assert old'[j] == (head + props)[j] == props[j - at - 1];
      }
    }
    assert now[..at + |code| + |props|] == goal;
  }

  /** Where the payload begins in the buffer. */
  function BodyStart5(qos: nat, topic: seq<byte>, block: seq<byte>): nat {
    BodyStart(qos, topic) + |Base128(|block|)| + |block|
  }

  /** Topic and identifier. */
  method PutTopic(conn: Connection, topic: seq<byte>, qos: nat, id: nat) returns (ok: bool)
    requires 0 < id < 0x1_0000
    modifies conn`length, conn.buffer
    ensures ok <==> BodyStart(qos, topic) <= conn.buffer.Length
    ensures ok ==> conn.length == BodyStart(qos, topic) && conn.buffer[MAX_FIXED_HEADER..conn.length] == VariableHeader(qos, topic, id)
  {
    conn.length := MAX_FIXED_HEADER;
    ok := AppendProperty(conn, 0, 2, Some(topic), |topic|);
    if !ok {
      return;
    }
    assert PropertyBytes(0, 2, Some(topic), |topic|) == U16(|topic|) + topic;
    if qos > 0 {
      var r := conn.AppendMessageId(id);
      if r == 0 {
        return false;
      }
    }
    BehindHeader(conn.buffer[..conn.length], VariableHeader(qos, topic, id));
  }

  /** The property block behind topic and identifier. */
  method PutProps(conn: Connection, p: Props, ghost vh: seq<byte>, ghost block: seq<byte>) returns (ok: bool)
    requires block == EncodeProps(p) && |block| < MAX_REMAINING
    requires MAX_FIXED_HEADER <= conn.length <= conn.buffer.Length && conn.buffer[MAX_FIXED_HEADER..conn.length] == vh
    modifies conn`length, conn.buffer
    ensures ok <==> old(conn.length) + |Base128(|block|)| + |block| <= conn.buffer.Length
    ensures ok ==> conn.length == old(conn.length) + |Base128(|block|)| + |block|
                   && conn.buffer[MAX_FIXED_HEADER..conn.length] == vh + (Base128(|block|) + block)
  {
    var at := conn.length;
    ghost var front := conn.buffer[..at];
    conn.length := conn.length + 1;
    ghost var head := if at < conn.buffer.Length then conn.buffer[..at + 1] else [];
    assert at < conn.buffer.Length ==> head + [] == head;
    ok := AppendProps(conn, p, head, at + 1);
    if !ok {
      return;
    }
    ok := UpdatePropertyLen(conn, at, head, block);
    if ok {
      assert head[..at] == front;
      BehindBody(conn.buffer[..conn.length], front, vh, Base128(|block|) + block);
    }
  }

  /** Everything in front of the payload. */
  method PutHeaders(conn: Connection, topic: seq<byte>, qos: nat, id: nat, p: Props, ghost block: seq<byte>) returns (ok: bool)
    requires 0 < id < 0x1_0000 && block == EncodeProps(p) && |block| < MAX_REMAINING
    modifies conn`length, conn.buffer
    ensures ok <==> BodyStart5(qos, topic, block) <= conn.buffer.Length
    ensures ok ==> conn.length == BodyStart5(qos, topic, block)
                   && conn.buffer[MAX_FIXED_HEADER..conn.length] == VariableHeader5(qos, topic, id, block)
  {
    ok := PutTopic(conn, topic, qos, id);
    if ok {
      ok := PutProps(conn, p, VariableHeader(qos, topic, id), block);
    }
  }

  /** Payload and fixed header. */
  method FinishPublish(conn: Connection, payload: seq<byte>, qos: nat, retain: nat, ghost vh: seq<byte>, ghost packet: seq<byte>)
    requires conn.Valid() && MAX_FIXED_HEADER <= conn.length <= conn.buffer.Length && conn.buffer[MAX_FIXED_HEADER..conn.length] == vh
    requires conn.length + |payload| < MAX_REMAINING
    requires packet == FixedHeader(TypeByte(PUBLISH, 0, qos, retain), |vh| + |payload|) + (vh + payload)
    modifies conn, conn.buffer
    ensures conn.Valid() && 0 <= conn.start && 0 < conn.length && conn.start + conn.length <= conn.buffer.Length
    ensures conn.Outbound() + payload[conn.Carried(old(conn.length), |payload|)..] == packet
    ensures conn.start + conn.length == old(conn.length) + conn.Carried(old(conn.length), |payload|)
    ensures conn.fragTotal == (if old(conn.length) + |payload| > conn.buffer.Length then |payload| + old(conn.length) else 0)
    ensures conn.fragOffset == (if conn.fragTotal == 0 then old(conn.fragOffset) else old(conn.length)) - conn.start
  {
    ghost var n := conn.Carried(conn.length, |payload|);
    assert |vh| == conn.length - MAX_FIXED_HEADER;
    conn.PutPayload(payload, vh);
    conn.FiniMessage(PUBLISH, 0, qos, retain);
    JoinPayload(conn.Outbound(), FixedHeader(TypeByte(PUBLISH, 0, qos, retain), |vh| + |payload|), vh, payload, n);
  }

  /** `mqtt5_msg_publish` without server response information. */
  method Msg5Publish(conn: Connection, topic: seq<byte>, data: Option<seq<byte>>, qos: nat, retain: nat, id: nat, p: Props, ghost block: seq<byte>)
    returns (messageId: nat)
    requires conn.Valid() && 0 < id < 0x1_0000 && block == EncodeProps(p)
    requires BodyStart5(qos, topic, block) + |Payload(data)| < MAX_REMAINING
    modifies conn, conn.buffer
    ensures conn.Valid() && 0 <= conn.start && 0 <= conn.length && conn.start + conn.length <= conn.buffer.Length
    ensures conn.length > 0 <==> (topic != [] || p.alias != 0) && BodyStart5(qos, topic, block) <= conn.buffer.Length
    ensures conn.length > 0 ==> messageId == if qos > 0 then id else 0
    ensures conn.length > 0 ==>
              var n := conn.Carried(BodyStart5(qos, topic, block), |Payload(data)|);
              && conn.Outbound() + Payload(data)[n..] == PublishPacket5(qos, retain, topic, id, block, Payload(data))
              && conn.start + conn.length == BodyStart5(qos, topic, block) + n
    ensures conn.length > 0 ==>
              var start := BodyStart5(qos, topic, block);
              && conn.fragTotal == (if start + |Payload(data)| > conn.buffer.Length then |Payload(data)| + start else 0)
              && conn.fragOffset == (if conn.fragTotal == 0 then old(conn.fragOffset) else start) - conn.start
  {
    messageId := 0;
    if topic == [] && p.alias == 0 {
      conn.FailMessage();
      return;
    }
    var ok := PutHeaders(conn, topic, qos, id, p, block);
    if !ok {
      conn.FailMessage();
      return;
    }
    messageId := if qos > 0 then id else 0;
    FinishPublish(conn, Payload(data), qos, retain, VariableHeader5(qos, topic, id, block),
                  PublishPacket5(qos, retain, topic, id, block, Payload(data)));
  }

  lemma {:induction false} JoinPayload(out: seq<byte>, header: seq<byte>, vh: seq<byte>, payload: seq<byte>, n: nat)
    requires n <= |payload| && out == header + (vh + payload[..n])
    ensures out + payload[n..] == header + (vh + payload)
  {
    assert payload[..n] + payload[n..] == payload;
  }
}
