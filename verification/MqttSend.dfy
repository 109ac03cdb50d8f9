/** The publish path of the MQTT client: building the packet, the copy for the outbox, and the
    loop that sends what did not fit the buffer. */
module MqttSend {
  import opened Wire
  import opened Varint
  import opened MqttKinds
  import opened MqttPacket

  /** A transport that takes any positive number of the bytes offered, or none; `failures` counts
      the calls that took none. */
  class Transport {
    var sent: seq<byte>
    ghost var failures: nat

    constructor ()
      ensures sent == [] && failures == 0
    {
      sent, failures := [], 0;
    }

    /** `esp_transport_write`: negative on error, 0 on timeout. */
    method Write(data: seq<byte>) returns (n: int)
      modifies this
      ensures n <= |data|
      ensures sent == old(sent) + if n > 0 then data[..n] else []
      ensures failures == old(failures) + if n > 0 then 0 else 1
    {
      n :| -1 <= n <= |data|;
      if n > 0 {
        sent := sent + data[..n];
      } else {
        failures := failures + 1;
      }
    }
  }

  /** `memcpy` from `n` bytes at `from` in the caller's payload. Outside the payload lies
      memory of which nothing is known. */
  method ReadMemory(payload: seq<byte>, from: int, n: nat) returns (bytes: seq<byte>)
    ensures |bytes| == n
    ensures 0 <= from && from + n <= |payload| ==> bytes == payload[from..from + n]
  {
    if 0 <= from && from + n <= |payload| {
      return payload[from..from + n];
    }
    bytes := seq(n, _ => 0);
  }

  class Client {
    const conn: Connection
    const transport: Transport
    var connected: bool

    constructor (size: nat)
      ensures fresh(conn) && fresh(conn.buffer) && fresh(transport) && conn.Valid() && transport.failures == 0
      ensures conn.buffer.Length == size && conn.fragTotal == 0 && conn.fragOffset == 0 && !connected
    {
      conn := new Connection(size);
      transport := new Transport();
      connected := false;
    }

    /** `esp_mqtt_write`: all of the outbound message, or a part of it and an error, and that only
        when the transport took nothing at some point. */
    method Send() returns (ok: bool)
      requires 0 <= conn.start && 0 <= conn.length && conn.start + conn.length <= conn.buffer.Length
      modifies transport
      ensures ok <==> transport.failures == old(transport.failures)
      ensures ok ==> transport.sent == old(transport.sent) + conn.Outbound()
      ensures !ok ==> exists k :: 0 <= k < conn.length && transport.sent == old(transport.sent) + conn.Outbound()[..k]
    {
      ghost var out := conn.Outbound();
      var widx, len := 0, conn.length;
      assert out[..0] == [];
      while len > 0
        invariant 0 <= len <= conn.length && widx == conn.length - len
        invariant transport.sent == old(transport.sent) + out[..widx] && transport.failures == old(transport.failures)
      {
        var wlen := transport.Write(conn.buffer[conn.start + widx..conn.start + widx + len]);
        assert conn.buffer[conn.start + widx..conn.start + widx + len] == out[widx..];
        if wlen <= 0 {
          assert transport.sent == old(transport.sent) + conn.Outbound()[..widx];
          return false;
        }
        assert out[..widx] + out[widx..][..wlen] == out[..widx + wlen];
        widx := widx + wlen;
        len := len - wlen;
      }
      assert out[..widx] == out;
      return true;
    }

    /** `esp_mqtt_connect`, and whether the broker accepts. */
    method Connect(body: seq<byte>, accepted: bool) returns (ok: bool)
      requires conn.Valid() && |body| + MAX_FIXED_HEADER < MAX_REMAINING && conn.fragTotal < MAX_REMAINING
      modifies this, conn, conn.buffer, transport
      ensures conn.Valid() && conn.fragTotal == old(conn.fragTotal) && connected == ok
      ensures ok <==> MAX_FIXED_HEADER + |body| <= conn.buffer.Length && transport.failures == old(transport.failures) && accepted
      ensures ok ==> conn.fragOffset == old(conn.fragOffset)
                                        - HeaderStart(if conn.fragTotal != 0 then conn.fragTotal - MAX_FIXED_HEADER else |body|)
    {
      connected := false;
      conn.MsgConnect(body);
      if conn.length == 0 {
        return false;
      }
      ok := Send();
      ok := ok && accepted;
      connected := ok;
    }

    /** `make_publish`: the buffer holds the packet up to payload byte `Carried`. */
    method MakePublish(topic: seq<byte>, data: Option<seq<byte>>, qos: nat, retain: nat, id: nat) returns (built: bool)
      requires conn.Valid() && 0 < id < 0x1_0000
      requires BodyStart(qos, topic) + |Payload(data)| < MAX_REMAINING && conn.fragTotal < MAX_REMAINING
      modifies conn, conn.buffer
      ensures conn.Valid() && conn.start >= 0 && conn.length >= 0 && conn.start + conn.length <= conn.buffer.Length
      ensures built <==> topic != [] && BodyStart(qos, topic) <= conn.buffer.Length
      ensures built ==>
                var n := conn.Carried(BodyStart(qos, topic), |Payload(data)|);
                && conn.Outbound() + Payload(data)[n..]
                   == Announcing(old(conn.Announced(qos, topic, data)), qos, retain, topic, id, Payload(data))
                && conn.start + conn.length == BodyStart(qos, topic) + n
      ensures built ==>
                && conn.start == HeaderStart(old(conn.Announced(qos, topic, data)))
                && conn.fragOffset == (if conn.Fits(qos, topic, data) then old(conn.fragOffset) else BodyStart(qos, topic)) - conn.start
                && conn.fragTotal == (if data.None? then old(conn.fragTotal) else if conn.Fits(qos, topic, data) then 0 else BodyStart(qos, topic) + |data.value|)
      ensures !built ==> conn.fragTotal == old(conn.fragTotal) && conn.fragOffset == old(conn.fragOffset)
    {
      ghost var remaining := conn.Announced(qos, topic, data);
      var messageId := conn.MsgPublish(topic, data, qos, retain, id);
      if conn.length == 0 {
        return false;
      }
      FirstPart(conn.Outbound(), remaining, qos, retain, topic, id, Payload(data), conn.Carried(BodyStart(qos, topic), |Payload(data)|));
      return true;
    }

    /** `mqtt_enqueue`: what is in the buffer, then the part of the payload that is not. */
    method CopyForOutbox(payload: seq<byte>, ghost n: nat, ghost packet: seq<byte>) returns (stored: seq<byte>)
      requires conn.start >= 0 && conn.length >= 0 && conn.start + conn.length <= conn.buffer.Length
      requires n <= |payload| && conn.Outbound() + payload[n..] == packet
      requires conn.fragTotal == 0 ==> n == |payload|
      requires conn.fragTotal != 0 ==> conn.length - conn.fragOffset == n
      modifies conn`fragTotal
      ensures stored == packet && conn.fragTotal == 0
    {
      stored := conn.buffer[conn.start..conn.start + conn.length];
      if conn.fragTotal != 0 {
        var first := conn.length - conn.fragOffset;
        var rest := ReadMemory(payload, first, |payload| - first);
        assert rest == payload[n..];
        stored := stored + rest;
        conn.fragTotal := 0;
      } else {
        assert packet == conn.Outbound();
      }
    }

    /** `mqtt_client_enqueue_publish`. What it stores for resending is the whole packet, even
        when only its first part is in the buffer. A message it does not store keeps its
        `fragTotal`, and a message without data that it does not store announces the one left
        over. */
    method EnqueuePublish(topic: seq<byte>, data: Option<seq<byte>>, qos: nat, retain: nat, store: bool, id: nat)
      returns (built: bool, stored: Option<seq<byte>>)
      requires conn.Valid() && 0 < id < 0x1_0000
      requires BodyStart(qos, topic) + |Payload(data)| < MAX_REMAINING && conn.fragTotal < MAX_REMAINING
      requires data.None? && (qos > 0 || store) ==> conn.fragTotal == 0
      modifies conn, conn.buffer
      ensures conn.Valid() && conn.start >= 0 && conn.length >= 0 && conn.start + conn.length <= conn.buffer.Length
      ensures built <==> topic != [] && BodyStart(qos, topic) <= conn.buffer.Length
      ensures built ==> stored == if qos > 0 || store then Some(PublishPacket(qos, retain, topic, id, Payload(data))) else None
      ensures built ==>
                var n := conn.Carried(BodyStart(qos, topic), |Payload(data)|);
                && conn.Outbound() + Payload(data)[n..]
                   == Announcing(old(conn.Announced(qos, topic, data)), qos, retain, topic, id, Payload(data))
                && conn.start + conn.length == BodyStart(qos, topic) + n
      ensures built ==>
                && conn.start == HeaderStart(old(conn.Announced(qos, topic, data)))
                && conn.fragOffset == (if conn.Fits(qos, topic, data) then old(conn.fragOffset) else BodyStart(qos, topic)) - conn.start
                && conn.fragTotal == (if qos > 0 || store then 0
                                      else if data.None? then old(conn.fragTotal)
                                      else if conn.Fits(qos, topic, data) then 0 else BodyStart(qos, topic) + |data.value|)
      ensures !built ==> stored.None? && conn.fragTotal == old(conn.fragTotal) && conn.fragOffset == old(conn.fragOffset)
    {
      stored := None;
      built := MakePublish(topic, data, qos, retain, id);
      if built && (qos > 0 || store) {
        ghost var n := conn.Carried(BodyStart(qos, topic), |Payload(data)|);
        var copy := CopyForOutbox(Payload(data), n, PublishPacket(qos, retain, topic, id, Payload(data)));
        stored := Some(copy);
      }
    }

    /** The buffer filled with the next part of the payload. */
    method LoadChunk(chunk: seq<byte>)
      requires |chunk| <= conn.buffer.Length
      modifies conn, conn.buffer
      ensures conn.start == 0 && conn.length == |chunk| && conn.Outbound() == chunk
      ensures conn.fragOffset == old(conn.fragOffset) && conn.fragTotal == old(conn.fragTotal)
    {
      conn.length := 0;
      conn.Copy(chunk);
      conn.start := 0;
    }

    /** The message in the buffer and the payload from `index` on, as far as the loop believes
        it has to go on, complete `goal`; `total` bytes will have been sent by then. */
    ghost predicate Sending(payload: seq<byte>, index: int, right: bool, goal: seq<byte>, total: nat)
      reads conn, conn.buffer, transport
    {
      && conn.start >= 0 && conn.length >= 0 && conn.start + conn.length <= conn.buffer.Length
      && (right ==>
            && 0 <= index + conn.length - conn.fragOffset
            && transport.sent + (conn.Outbound() + Tail(payload, index + conn.length - conn.fragOffset)) == goal)
      && |transport.sent| + conn.length + Excess(|payload| - index - (conn.length - conn.fragOffset)) == total
    }

    ghost predicate Finished(right: bool, goal: seq<byte>, total: nat)
      reads conn, transport
    {
      conn.fragOffset == 0 && conn.fragTotal == 0 && (right ==> transport.sent == goal) && |transport.sent| == total
    }

    /** Prepare the next round: the buffer gets as much of what remains as it can hold. */
    method LoadNext(payload: seq<byte>, index: int, ghost right: bool, ghost goal: seq<byte>, ghost total: nat)
      requires conn.buffer.Length > 0 && index < |payload| && conn.fragOffset == 0
      requires right ==> 0 <= index && transport.sent + Tail(payload, index) == goal
      requires |transport.sent| + (|payload| - index) == total
      modifies conn, conn.buffer
      ensures Sending(payload, index, right, goal, total)
      ensures conn.fragOffset == 0 && 0 < conn.length <= |payload| - index
    {
      var remaining := |payload| - index;
      var writeLen := if remaining > conn.buffer.Length then conn.buffer.Length else remaining;
      var chunk := ReadMemory(payload, index, writeLen);
      if right {
        NextChunk(payload, index, chunk, transport.sent, goal);
      }
      LoadChunk(chunk);
      assert conn.length - conn.fragOffset == |chunk|;
    }

    /** One round of the loop. */
    method SendRound(payload: seq<byte>, index: int, ghost right: bool, ghost goal: seq<byte>, ghost total: nat)
      returns (ok: bool, index': int, sending: bool)
      requires Sending(payload, index, right, goal, total) && conn.buffer.Length > 0
      modifies conn, conn.buffer, transport
      ensures ok <==> transport.failures == old(transport.failures)
      ensures ok ==> index' == index + old(conn.length - conn.fragOffset)
      ensures ok && sending ==> Sending(payload, index', right, goal, total)
      ensures ok && sending ==> conn.fragOffset == 0 && 0 < conn.length <= |payload| - index'
      ensures ok && !sending ==> Finished(right, goal, total)
    {
      index', sending := index, false;
      ghost var out := conn.Outbound();
      ok := Send();
      if !ok {
        return;
      }
      var dataSent := conn.length - conn.fragOffset;
      conn.fragOffset := 0;
      conn.fragTotal := 0;
      index' := index + dataSent;
      if right {
        Resent(old(transport.sent), transport.sent, out, Tail(payload, index'), goal);
      }
      sending := |payload| - index' > 0;
      if sending {
        LoadNext(payload, index', right, goal, total);
      }
    }

    /** The loop of `esp_mqtt_client_publish`. The first round takes `length - fragOffset` for
        the number of payload bytes it sent. If that is right, or too much, the transport gets
        the packet; if it is too little, it gets that many bytes more than the packet. */
    method SendAll(payload: seq<byte>, ghost n: nat, ghost packet: seq<byte>) returns (ok: bool)
      requires conn.start >= 0 && conn.length >= 0 && conn.start + conn.length <= conn.buffer.Length && conn.buffer.Length > 0
      requires n <= |payload| && conn.Outbound() + payload[n..] == packet
      requires n < |payload| ==> conn.length - conn.fragOffset == n
      modifies conn, conn.buffer, transport
      ensures conn.fragTotal == 0
      ensures ok <==> transport.failures == old(transport.failures)
      ensures ok ==> conn.fragOffset == 0
      ensures ok && (n < |payload| || old(Missed(payload)) == 0) ==> transport.sent == old(transport.sent) + packet
      ensures ok && n == |payload| ==> |transport.sent| == |old(transport.sent)| + |packet| + old(Missed(payload))
    {
      ghost var right := n < |payload| || Missed(payload) == 0;
      ghost var goal := transport.sent + packet;
      ghost var total := |goal| + if right then 0 else Missed(payload);
      ghost var first := true;
      var index, sending := 0, true;
      TailOf(payload, n, conn.length - conn.fragOffset);
      while sending
        invariant if sending then Sending(payload, index, right, goal, total) else Finished(right, goal, total)
        invariant sending && !first ==> conn.fragOffset == 0 && 0 < conn.length <= |payload| - index
        invariant transport.failures == old(transport.failures)
        decreases sending, first, if first then 0 else |payload| - index
      {
        ok, index, sending := SendRound(payload, index, right, goal, total);
        if !ok {
          conn.fragTotal := 0;
          return;
        }
        first := false;
      }
      return true;
    }

    /** The length announced is this message's own, and no offset is left over past the start of
        a payload that fits. */
    ghost predicate Clean(qos: nat, topic: seq<byte>, data: Option<seq<byte>>)
      reads conn
    {
      && (data.Some? || conn.fragTotal == 0)
      && (conn.Fits(qos, topic, data) ==> conn.fragOffset <= BodyStart(qos, topic))
    }

    /** `esp_mqtt_client_publish`. It finishes exactly when the client is connected, the headers
        fit, and the transport never takes nothing. A finished call has sent exactly the packet if
        and only if nothing left over from earlier messages gets in the way; else it announces a
        wrong length, or sends more bytes than the packet has. */
    method Publish(topic: seq<byte>, data: Option<seq<byte>>, qos: nat, retain: nat, id: nat)
      returns (ok: bool, stored: Option<seq<byte>>)
      requires conn.Valid() && 0 < id < 0x1_0000
      requires BodyStart(qos, topic) + |Payload(data)| < MAX_REMAINING && conn.fragTotal < MAX_REMAINING
      requires data.None? && qos > 0 ==> conn.fragTotal == 0
      modifies this, conn, conn.buffer, transport
      ensures conn.Valid()
      ensures ok <==> old(connected) && topic != [] && BodyStart(qos, topic) <= conn.buffer.Length
                      && transport.failures == old(transport.failures)
      ensures ok ==> connected && conn.fragTotal == 0 && conn.fragOffset == 0
      ensures ok ==> (transport.sent == old(transport.sent) + PublishPacket(qos, retain, topic, id, Payload(data))
                      <==> old(Clean(qos, topic, data)))
      ensures ok && conn.Fits(qos, topic, data) ==>
                var wire := Announcing(old(conn.Announced(qos, topic, data)), qos, retain, topic, id, Payload(data));
                var surplus := Excess(old(conn.fragOffset) - BodyStart(qos, topic));
                && |transport.sent| == |old(transport.sent)| + |wire| + surplus
                && (surplus == 0 ==> transport.sent == old(transport.sent) + wire)
      ensures stored == if qos > 0 && topic != [] && BodyStart(qos, topic) <= conn.buffer.Length
                        then Some(PublishPacket(qos, retain, topic, id, Payload(data))) else None
      ensures topic != [] && BodyStart(qos, topic) <= conn.buffer.Length && !old(connected) ==>
                && transport.sent == old(transport.sent) && transport.failures == old(transport.failures)
                && conn.fragTotal == 0 && !connected
                && (!conn.Fits(qos, topic, data) ==>
                      conn.fragOffset == BodyStart(qos, topic) - HeaderStart(old(conn.Announced(qos, topic, data))))
    {
      ghost var remaining := conn.Announced(qos, topic, data);
      var built;
      built, stored := EnqueuePublish(topic, data, qos, retain, false, id);
      if !built {
        return false, stored;
      }
      if !connected {
        conn.fragTotal := 0;
        return false, stored;
      }
      ghost var n := conn.Carried(BodyStart(qos, topic), |Payload(data)|);
      ghost var wire := Announcing(remaining, qos, retain, topic, id, Payload(data));
      assert n == |Payload(data)| ==> Missed(Payload(data)) == Excess(old(conn.fragOffset) - BodyStart(qos, topic));
      AnnouncingExact(remaining, qos, retain, topic, id, Payload(data));
      ghost var packet := PublishPacket(qos, retain, topic, id, Payload(data));
      assert wire == packet <==> data.Some? || old(conn.fragTotal) == 0;
      assert |wire| >= |packet|;
      ok := SendAll(Payload(data), n, wire);
      if !ok {
        connected := false;
      } else if n == |Payload(data)| && Excess(old(conn.fragOffset) - BodyStart(qos, topic)) > 0 {
        assert |transport.sent| > |old(transport.sent) + packet|;
      } else {
        SameTail(old(transport.sent), wire, packet);
      }
    }

    /** Payload bytes the first round of the loop believes it still has to send although the
        buffer held the whole payload. */
    ghost function Missed(payload: seq<byte>): nat
      reads conn
    {
      Excess(|payload| - (conn.length - conn.fragOffset))
    }
  }

  // ------------------------------------------------------------------
  // Runs in which something is left over
  // ------------------------------------------------------------------

  const NOTICE: seq<byte> := [1, 2, 3]

  /** While connected, a message that does not fit a buffer of 20 bytes is enqueued. The short
      message published next sends four bytes that belong to no packet. */
  method StaleOffset() returns (client: Client, ok: bool, surplus: int)
    ensures ok <==> client.transport.failures == 0
    ensures ok ==> surplus == 4
  {
    client := new Client(20);
    ok := client.Connect(seq(12, _ => 0), true);
    surplus := 0;
    if !ok {
      return;
    }
    var topic, payload := seq(8, _ => 97), seq(30, _ => 0);
    var built, stored := client.EnqueuePublish(topic, Some(payload), 0, 0, true, 1);
    assert !client.conn.Fits(0, topic, Some(payload));
    assert HeaderStart(40) == 3 && client.conn.fragOffset == 12;
    var before := |client.transport.sent|;
    assert client.conn.Fits(0, [97], Some(NOTICE)) && BodyStart(0, [97]) == 8;
    ok, stored := client.Publish([97], Some(NOTICE), 0, 0, 1);
    surplus := |client.transport.sent| - before - |PublishPacket(0, 0, [97], 1, NOTICE)|;
  }

  /** The same message published while the link is down: connecting takes three from the offset
      left over, and one byte too many goes out. */
  method StaleOffsetAcrossConnect() returns (client: Client, ok: bool, surplus: int)
    ensures ok <==> client.transport.failures == 0
    ensures ok ==> surplus == 1
  {
    client := new Client(20);
    var topic, payload := seq(8, _ => 97), seq(30, _ => 0);
    surplus := 0;
    var cut, stored := client.Publish(topic, Some(payload), 0, 0, 1);
    assert !client.conn.Fits(0, topic, Some(payload));
    assert HeaderStart(40) == 3 && client.conn.fragOffset == 12;
    ok := client.Connect(seq(12, _ => 0), true);
    if !ok {
      return;
    }
    assert HeaderStart(12) == 3 && client.conn.fragOffset == 9;
    var before := |client.transport.sent|;
    assert client.conn.Fits(0, [97], Some(NOTICE)) && BodyStart(0, [97]) == 8;
    ok, stored := client.Publish([97], Some(NOTICE), 0, 0, 1);
    surplus := |client.transport.sent| - before - |PublishPacket(0, 0, [97], 1, NOTICE)|;
  }

  /** A large QoS 0 message is enqueued without being stored. The message without data published
      next announces 40 bytes, the length of the first, where 10 follow. */
  method StaleTotal() returns (client: Client, ok: bool, wire: seq<byte>)
    ensures ok <==> client.transport.failures == 0
    ensures ok ==> wire == Announcing(40, 0, 0, seq(8, _ => 97), 1, []) != PublishPacket(0, 0, seq(8, _ => 97), 1, [])
  {
    client := new Client(20);
    ok := client.Connect(seq(12, _ => 0), true);
    wire := [];
    if !ok {
      return;
    }
    var topic, payload := seq(8, _ => 97), seq(30, _ => 0);
    var built, stored := client.EnqueuePublish(topic, Some(payload), 0, 0, false, 1);
    assert !client.conn.Fits(0, topic, Some(payload));
    assert HeaderStart(40) == 3 && client.conn.fragOffset == 12 && client.conn.fragTotal == 45;
    var before := |client.transport.sent|;
    ghost var sent := client.transport.sent;
    AnnouncingExact(40, 0, 0, topic, 1, []);
    assert client.conn.Fits(0, topic, None) && BodyStart(0, topic) == 15;
    ok, stored := client.Publish(topic, None, 0, 0, 1);
    if ok {
      wire := client.transport.sent[before..];
      assert client.transport.sent == sent + Announcing(40, 0, 0, topic, 1, []);
    }
  }

  lemma {:induction false} SameTail(a: seq<byte>, b: seq<byte>, c: seq<byte>)
    ensures a + b == a + c <==> b == c
  {
    assert (a + b)[|a|..] == b && (a + c)[|a|..] == c;
  }

  function Excess(n: int): nat {
    if n > 0 then n else 0
  }

  /** The payload from byte `k` on. */
  function Tail(payload: seq<byte>, k: int): seq<byte> {
    if k < 0 then payload else if k < |payload| then payload[k..] else []
  }

  lemma {:induction false} TailOf(payload: seq<byte>, n: nat, k: int)
    requires n <= |payload| && (n < |payload| ==> k == n)
    ensures n < |payload| || k >= |payload| ==> Tail(payload, k) == payload[n..]
  {
  }

  lemma {:induction false} NextChunk(payload: seq<byte>, index: nat, chunk: seq<byte>, sent: seq<byte>, goal: seq<byte>)
    requires index + |chunk| <= |payload| && chunk != [] && chunk == payload[index..index + |chunk|]
    requires sent + Tail(payload, index) == goal
    ensures sent + (chunk + Tail(payload, index + |chunk|)) == goal
  {
    assert chunk + Tail(payload, index + |chunk|) == Tail(payload, index);
  }

  lemma {:induction false} Resent(sent: seq<byte>, sent': seq<byte>, out: seq<byte>, tail: seq<byte>, goal: seq<byte>)
    requires sent + (out + tail) == goal && sent' == sent + out
    ensures sent' + tail == goal
  {
  }
}
