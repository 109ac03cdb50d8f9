/** An MQTT 5 PUBLISH from one client to another: the sending path, the receiver's topic aliases and
    `deliver_publish`. */
module Mqtt5Transfer {
  import opened Wire
  import opened Varint
  import opened MqttKinds
  import opened MqttPacket
  import opened Mqtt5Properties
  import opened Mqtt5Publish
  import opened Mqtt5Parse
  import opened MqttSend
  import opened MqttReceive

  // ------------------------------------------------------------------
  // Sending
  // ------------------------------------------------------------------

  /** The publish path of a connected client with MQTT 5: the message is built, stored for resending
      above QoS 0, and sent, in parts if the payload does not fit. Exactly the packet is sent if and
      only if no offset left over from an earlier message is past the start of a payload that
      fits. */
  method Publish5(client: Client, topic: seq<byte>, payload: seq<byte>, qos: nat, retain: nat, id: nat, p: Props, ghost block: seq<byte>)
    returns (ok: bool, stored: Option<seq<byte>>)
    requires client.conn.Valid() && client.connected && 0 < id < 0x1_0000 && block == EncodeProps(p)
    requires BodyStart5(qos, topic, block) + |payload| < MAX_REMAINING
    modifies client, client.conn, client.conn.buffer, client.transport
    ensures ok <==> (topic != [] || p.alias != 0) && BodyStart5(qos, topic, block) <= client.conn.buffer.Length
                    && client.transport.failures == old(client.transport.failures)
    ensures ok ==> client.connected && client.conn.Valid() && client.conn.fragOffset == 0
    ensures ok ==> (client.transport.sent == old(client.transport.sent) + PublishPacket5(qos, retain, topic, id, block, payload)
                    <==> BodyStart5(qos, topic, block) + |payload| > client.conn.buffer.Length
                         || old(client.conn.fragOffset) <= BodyStart5(qos, topic, block))
    ensures stored == if qos > 0 && (topic != [] || p.alias != 0) && BodyStart5(qos, topic, block) <= client.conn.buffer.Length
                      then Some(PublishPacket5(qos, retain, topic, id, block, payload)) else None
  {
    var built;
    built, stored := Store5(client, topic, payload, qos, retain, id, p, block);
    if !built {
      return false, stored;
    }
    ghost var n := client.conn.Carried(BodyStart5(qos, topic, block), |payload|);
    ok := client.SendAll(payload, n, PublishPacket5(qos, retain, topic, id, block, payload));
    if !ok {
      client.connected := false;
    }
  }

  /** The buffer holds the packet up to the payload bytes that fit behind `start`. */
  ghost predicate Holds(conn: Connection, start: nat, payload: seq<byte>, packet: seq<byte>)
    reads conn, conn.buffer
  {
    && 0 <= conn.start && 0 <= conn.length && conn.start + conn.length <= conn.buffer.Length && start <= conn.buffer.Length
    && conn.Outbound() + payload[conn.Carried(start, |payload|)..] == packet
    && conn.start + conn.length == start + conn.Carried(start, |payload|)
  }

  /** `mqtt_client_enqueue_publish` with MQTT 5. */
  method Store5(client: Client, topic: seq<byte>, payload: seq<byte>, qos: nat, retain: nat, id: nat, p: Props, ghost block: seq<byte>)
    returns (built: bool, stored: Option<seq<byte>>)
    requires client.conn.Valid() && 0 < id < 0x1_0000 && block == EncodeProps(p)
    requires BodyStart5(qos, topic, block) + |payload| < MAX_REMAINING
    modifies client.conn, client.conn.buffer
    ensures built <==> (topic != [] || p.alias != 0) && BodyStart5(qos, topic, block) <= client.conn.buffer.Length
    ensures stored == if qos > 0 && built then Some(PublishPacket5(qos, retain, topic, id, block, payload)) else None
    ensures built ==>
              var start := BodyStart5(qos, topic, block);
              && Holds(client.conn, start, payload, PublishPacket5(qos, retain, topic, id, block, payload))
              && client.conn.fragOffset == (if start + |payload| <= client.conn.buffer.Length then old(client.conn.fragOffset) else start) - client.conn.start
  {
    var messageId := Msg5Publish(client.conn, topic, Some(payload), qos, retain, id, p, block);
    if client.conn.length == 0 {
      return false, None;
    }
    stored := Keep(client, payload, qos, BodyStart5(qos, topic, block), PublishPacket5(qos, retain, topic, id, block, payload));
    return true, stored;
  }

  /** A copy for the outbox above QoS 0. */
  method Keep(client: Client, payload: seq<byte>, qos: nat, ghost start: nat, ghost packet: seq<byte>) returns (stored: Option<seq<byte>>)
    requires Holds(client.conn, start, payload, packet)
    requires client.conn.fragTotal == 0 ==> start + |payload| <= client.conn.buffer.Length
    requires client.conn.fragTotal != 0 ==> client.conn.fragOffset == start - client.conn.start
    modifies client.conn`fragTotal
    ensures stored == if qos > 0 then Some(packet) else None
    ensures Holds(client.conn, start, payload, packet)
  {
    stored := None;
    if qos > 0 {
      var copy := client.CopyForOutbox(payload, client.conn.Carried(start, |payload|), packet);
      stored := Some(copy);
    }
  }

  // ------------------------------------------------------------------
  // Topic aliases
  // ------------------------------------------------------------------

  /** The topic a receiver takes a PUBLISH to have: its own, or the one its alias stands for. */
  ghost function Resolve(table: map<nat, seq<byte>>, maximum: nat, topic: seq<byte>, alias: nat): Option<seq<byte>> {
    if alias > maximum then None
    else if alias == 0 || topic != [] then Some(topic)
    else if alias in table then Some(table[alias])
    else None
  }

  /** The comparison by which a known alias is left as it is: `strncmp` looks no further than the
      first zero byte. */
  predicate SameText(a: seq<byte>, b: seq<byte>) {
    |a| == |b| && a[..StrLen(a)] == b[..StrLen(b)]
  }

  /** Topics without a zero byte are the same text only if they are the same. */
  lemma {:induction false} SameTextExact(a: seq<byte>, b: seq<byte>)
    requires 0 !in b
    ensures SameText(a, b) <==> a == b
  {
    assert StrLen(b) == |b|;
    if SameText(a, b) {
      assert a == a[..StrLen(a)];
    }
  }

  /** The table with what the alias stands for from then on. */
  ghost function Put(table: map<nat, seq<byte>>, alias: nat, topic: seq<byte>): map<nat, seq<byte>> {
    if alias in table && SameText(table[alias], topic) then table else table[alias := topic]
  }

  ghost function Learn(table: map<nat, seq<byte>>, maximum: nat, topic: seq<byte>, alias: nat): map<nat, seq<byte>> {
    if 0 < alias <= maximum && topic != [] then Put(table, alias, topic) else table
  }

  lemma {:induction false} LearnedResolves(table: map<nat, seq<byte>>, maximum: nat, topic: seq<byte>, alias: nat)
    requires 0 < alias <= maximum && topic != [] && 0 !in topic
    ensures Resolve(Learn(table, maximum, topic, alias), maximum, [], alias) == Some(topic)
  {
    if alias in table {
      SameTextExact(table[alias], topic);
    }
  }

  /** A topic that differs from the one before behind a zero byte only is not taken over. */
  lemma {:induction false} ZeroByteTopicStays(maximum: nat)
    requires maximum > 0
    ensures Resolve(Learn(map[1 := [97, 0, 98]], maximum, [97, 0, 99], 1), maximum, [], 1) == Some([97, 0, 98])
  {
    var a, b: seq<byte> := [97, 0, 98], [97, 0, 99];
    assert a[1] == 0 && b[1] == 0 && StrLen(a) == 1 && StrLen(b) == 1;
    assert a[..1] == b[..1];
  }

  datatype Entry = Entry(alias: nat, topic: seq<byte>)

  /** The table a list of entries stands for, the first entry of an alias counting. */
  ghost function TableOf(entries: seq<Entry>): map<nat, seq<byte>> {
    if entries == [] then map[] else TableOf(entries[1..])[entries[0].alias := entries[0].topic]
  }

  lemma {:induction false} TableSkip(entries: seq<Entry>, alias: nat, i: nat)
    requires i <= |entries| && forall k :: 0 <= k < i ==> entries[k].alias != alias
    ensures alias in TableOf(entries) <==> alias in TableOf(entries[i..])
    ensures alias in TableOf(entries) ==> TableOf(entries)[alias] == TableOf(entries[i..])[alias]
    decreases i
  {
    if i > 0 {
      assert entries[1..][i - 1..] == entries[i..];
      TableSkip(entries[1..], alias, i - 1);
    } else {
      assert entries[0..] == entries;
    }
  }

  lemma {:induction false} TableReplace(entries: seq<Entry>, alias: nat, topic: seq<byte>, i: nat)
    requires i < |entries| && entries[i].alias == alias && forall k :: 0 <= k < i ==> entries[k].alias != alias
    ensures TableOf(entries[i := Entry(alias, topic)]) == TableOf(entries)[alias := topic]
    decreases i
  {
    var changed := entries[i := Entry(alias, topic)];
    if i > 0 {
      assert changed[1..] == entries[1..][i - 1 := Entry(alias, topic)];
      TableReplace(entries[1..], alias, topic, i - 1);
    } else {
      assert changed[1..] == entries[1..];
    }
  }

  lemma {:induction false} TableAppend(entries: seq<Entry>, alias: nat, topic: seq<byte>)
    requires forall k :: 0 <= k < |entries| ==> entries[k].alias != alias
    ensures TableOf(entries + [Entry(alias, topic)]) == TableOf(entries)[alias := topic]
  {
    var all := entries + [Entry(alias, topic)];
    if entries == [] {
      assert all[1..] == [];
    } else {
      assert all[1..] == entries[1..] + [Entry(alias, topic)];
      TableAppend(entries[1..], alias, topic);
    }
  }

  /** The receiver's list of aliases. */
  class Aliases {
    const maximum: nat
    var entries: seq<Entry>

    ghost function Table(): map<nat, seq<byte>>
      reads this
    {
      TableOf(entries)
    }

    constructor (maximum: nat)
      ensures Table() == map[] && this.maximum == maximum
    {
      this.maximum, entries := maximum, [];
    }

    /** The first entry of the alias, or the number of entries. */
    method Find(alias: nat) returns (i: nat)
      ensures i <= |entries| && (forall k :: 0 <= k < i ==> entries[k].alias != alias)
      ensures i < |entries| ==> entries[i].alias == alias
    {
      i := 0;
      while i < |entries| && entries[i].alias != alias
        invariant i <= |entries| && forall k :: 0 <= k < i ==> entries[k].alias != alias
      {
        i := i + 1;
      }
    }

    /** `esp_mqtt5_client_update_topic_alias`. */
    method Update(alias: nat, topic: seq<byte>)
      modifies this
      ensures Table() == Put(old(Table()), alias, topic)
    {
      var i := Find(alias);
      TableSkip(entries, alias, i);
      if i < |entries| {
        if !SameText(entries[i].topic, topic) {
          TableReplace(entries, alias, topic, i);
          entries := entries[i := Entry(alias, topic)];
        }
      } else {
        assert entries[i..] == [];
        TableAppend(entries, alias, topic);
        entries := entries + [Entry(alias, topic)];
      }
    }

    /** `esp_mqtt5_client_get_topic_alias`. */
    method Get(alias: nat) returns (topic: Option<seq<byte>>)
      ensures topic == if alias in Table() then Some(Table()[alias]) else None
    {
      var i := Find(alias);
      TableSkip(entries, alias, i);
      if i < |entries| {
        return Some(entries[i].topic);
      }
      assert entries[i..] == [];
      return None;
    }

    /** The topic of a PUBLISH in `esp_mqtt5_get_publish_data`. */
    method TopicOf(topic: seq<byte>, alias: nat) returns (resolved: Option<seq<byte>>)
      modifies this
      ensures resolved == Resolve(old(Table()), maximum, topic, alias)
      ensures Table() == Learn(old(Table()), maximum, topic, alias)
    {
      if alias > maximum {
        return None;
      }
      if alias != 0 {
        if topic == [] {
          resolved := Get(alias);
          return;
        }
        Update(alias, topic);
      }
      return Some(topic);
    }
  }

  /** Topic and alias of each PUBLISH received so far. */
  ghost function TableAfter(history: seq<Entry>, maximum: nat): map<nat, seq<byte>> {
    if history == [] then map[]
    else Learn(TableAfter(history[..|history| - 1], maximum), maximum, history[|history| - 1].topic, history[|history| - 1].alias)
  }

  /** An entry that says what an alias stands for. */
  ghost predicate Teaches(e: Entry, alias: nat) {
    e.alias == alias && e.topic != []
  }

  /** Over every session only aliases up to the maximum are learned. */
  lemma {:induction false} AliasesWithin(history: seq<Entry>, maximum: nat)
    ensures forall a :: a in TableAfter(history, maximum) ==> 0 < a <= maximum
  {
    if history != [] {
      AliasesWithin(history[..|history| - 1], maximum);
    }
  }

  /** A PUBLISH is refused exactly when its alias is over the maximum, or it has neither a topic nor
      a known alias; a topic of its own comes before what the alias stands for. */
  lemma {:induction false} RefusedExactly(table: map<nat, seq<byte>>, maximum: nat, topic: seq<byte>, alias: nat)
    ensures Resolve(table, maximum, topic, alias).None? <==> alias > maximum || (|topic| == 0 && alias > 0 && alias !in table)
    ensures alias <= maximum && |topic| > 0 ==> Resolve(table, maximum, topic, alias) == Some(topic)
    ensures alias == 0 ==> Resolve(table, maximum, topic, alias) == Some(topic)
  {
  }

  lemma {:induction false} LearnStep(table: map<nat, seq<byte>>, maximum: nat, e: Entry, alias: nat)
    requires 0 < alias <= maximum && 0 !in e.topic
    ensures Resolve(Learn(table, maximum, e.topic, e.alias), maximum, [], alias)
         == if Teaches(e, alias) then Some(e.topic) else Resolve(table, maximum, [], alias)
  {
    if alias in table {
      SameTextExact(table[alias], e.topic);
    }
  }

  /** Entry `k` is the last one that says what the alias stands for. */
  ghost predicate LastTeaches(history: seq<Entry>, alias: nat, k: nat) {
    k < |history| && Teaches(history[k], alias) && forall j :: k < j < |history| ==> !Teaches(history[j], alias)
  }

  /** Over every session: an alias that may be used stands for the topic of the last PUBLISH that
      came with it and with a topic, and for nothing if there was none. */
  lemma {:induction false} AliasStandsFor(history: seq<Entry>, maximum: nat, alias: nat)
    requires 0 < alias <= maximum && forall k :: 0 <= k < |history| ==> 0 !in history[k].topic
    ensures Resolve(TableAfter(history, maximum), maximum, [], alias).None?
            <==> forall k :: 0 <= k < |history| ==> !Teaches(history[k], alias)
    ensures forall k: nat :: LastTeaches(history, alias, k) ==>
              Resolve(TableAfter(history, maximum), maximum, [], alias) == Some(history[k].topic)
  {
    if history != [] {
      var shorter, last := history[..|history| - 1], history[|history| - 1];
      AliasStandsFor(shorter, maximum, alias);
      LearnStep(TableAfter(shorter, maximum), maximum, last, alias);
      assert forall k :: 0 <= k < |shorter| ==> shorter[k] == history[k];
      forall k: nat | LastTeaches(history, alias, k)
        ensures Resolve(TableAfter(history, maximum), maximum, [], alias) == Some(history[k].topic)
      {
        if k < |shorter| {
          assert LastTeaches(shorter, alias, k) && !Teaches(last, alias);
        }
      }
    }
  }

  // ------------------------------------------------------------------
  // Receiving
  // ------------------------------------------------------------------

  /** `deliver_publish` with MQTT 5, on a buffer that holds headers and properties. It succeeds
      exactly when the properties are known, the topic can be told, and no read errs; all of the
      payload is delivered exactly when no read errs or comes too late. */
  method DeliverPublish5(source: Source, aliases: Aliases, buf: seq<byte>, size: nat, ghost a: Arriving5)
    returns (ok: bool, events: seq<Event>, received: Option<Received>)
    requires source.Valid() && source.pos == |buf| && size > 0
    requires a.Valid() && a.DataStart() <= |buf| <= |a.Packet()| && buf == a.Packet()[..|buf|]
    requires |a.Packet()| <= |source.wire| && source.wire[..|a.Packet()|] == a.Packet()
    modifies source, aliases
    ensures received == ParseProps(a.block, NOTHING)
    ensures ok <==> received.Some? && Resolve(old(aliases.Table()), aliases.maximum, a.topic, received.value.alias).Some?
                    && source.errors == old(source.errors)
    ensures ok ==>
              && events != [] && |buf| <= source.pos <= |a.Packet()|
              && Delivered(events, a.Packet(), Resolve(old(aliases.Table()), aliases.maximum, a.topic, received.value.alias).value, a.DataStart(), source.pos)
              && (source.pos == |a.Packet()| <==> source.timeouts == old(source.timeouts))
    ensures aliases.Table() == if received.Some? then Learn(old(aliases.Table()), aliases.maximum, a.topic, received.value.alias)
                               else old(aliases.Table())
  {
    events := [];
    var topic, data;
    topic, received, data := GetPublish5(buf, a);
    if received.None? {
      return false, [], None;
    }
    var resolved := aliases.TopicOf(topic, received.value.alias);
    if resolved.None? {
      return false, [], received;
    }
    Sizes(a);
    Layout5(a);
    DataAtHand5(buf, a);
    var totlen, bytes := ReadLength(buf, 1, a.Packet(), |a.Variable()| + |a.payload|, a.Variable() + a.payload);
    ok, events := DeliverEvents(source, resolved.value, data, totlen + 1 + bytes, size, a.DataStart(), a.Packet());
  }

  lemma {:induction false} DataAtHand5(buf: seq<byte>, a: Arriving5)
    requires a.DataStart() <= |buf| <= |a.Packet()|
    ensures a.payload[..|buf| - a.DataStart()] == a.Packet()[a.DataStart()..|buf|]
  {
    assert a.Packet() == (a.Header() + a.Variable()) + a.payload;
  }

  lemma {:induction false} PayloadPart5(a: Arriving5, upto: nat)
    requires a.DataStart() <= upto <= |a.Packet()|
    ensures a.Packet()[a.DataStart()..upto] == a.payload <==> upto == |a.Packet()|
    ensures |a.Packet()| - a.DataStart() == |a.payload|
  {
    assert a.Packet() == (a.Header() + a.Variable()) + a.payload;
  }

  /** The first bytes of one packet, as many as the buffer holds. */
  method Receive5(source: Source, size: nat, ghost a: Arriving5) returns (buf: seq<byte>)
    requires source.Valid() && source.pos == 0 && a.Valid() && source.wire == a.Packet()
    modifies source`pos
    ensures source.Valid() && source.pos == |buf|
    ensures |buf| == (if |a.Packet()| <= size then |a.Packet()| else size) && buf == a.Packet()[..|buf|]
  {
    Sizes(a);
    Layout5(a);
    var totlen, bytes := ReadLength(source.wire, 1, a.Packet(), |a.Variable()| + |a.payload|, a.Variable() + a.payload);
    var total := totlen + 1 + bytes;
    var n := if size < total then size else total;
    buf := source.wire[..n];
    source.pos := n;
  }

  /** The receiving half of a transfer. */
  method Arrive5(source: Source, aliases: Aliases, size: nat, ghost a: Arriving5)
    returns (ok: bool, events: seq<Event>, received: Option<Received>)
    requires source.Valid() && source.pos == 0 && a.Valid() && source.wire == a.Packet() && a.DataStart() <= size
    requires ParseProps(a.block, NOTHING).Some?
    modifies source, aliases
    ensures received == ParseProps(a.block, NOTHING)
    ensures aliases.Table() == Learn(old(aliases.Table()), aliases.maximum, a.topic, received.value.alias)
    ensures ok <==> Resolve(old(aliases.Table()), aliases.maximum, a.topic, received.value.alias).Some? && source.errors == old(source.errors)
    ensures ok ==> (Concat(events) == a.payload <==> source.timeouts == old(source.timeouts))
    ensures ok ==> Contiguous(events) && events != []
                   && events[0].topic == Resolve(old(aliases.Table()), aliases.maximum, a.topic, received.value.alias)
    ensures ok ==> forall k :: 0 <= k < |events| ==> events[k].total == |a.payload|
  {
    Sizes(a);
    Layout5(a);
    var buf := Receive5(source, size, a);
    assert source.wire[..|a.Packet()|] == a.Packet();
    ok, events, received := DeliverPublish5(source, aliases, buf, size, a);
    if ok {
      PayloadPart5(a, source.pos);
    }
  }

  /** The same for the packet a publish sends. */
  method ArriveSent(source: Source, aliases: Aliases, ghost topic: seq<byte>, ghost payload: seq<byte>, ghost qos: nat, ghost retain: nat, ghost id: nat,
                    ghost p: Props, size: nat)
    returns (ok: bool, events: seq<Event>, received: Option<Received>)
    requires source.Valid() && source.pos == 0 && source.wire == PublishPacket5(qos, retain, topic, id, EncodeProps(p), payload)
    requires qos <= 2 && |topic| < 0x1_0000 && id < 0x1_0000 && InRange(p) && |EncodeProps(p)| < 0x1_0000
    requires |source.wire| - |payload| <= size
    modifies source, aliases
    ensures received == Some(Expected(p)) && aliases.Table() == Learn(old(aliases.Table()), aliases.maximum, topic, p.alias)
    ensures ok <==> Resolve(old(aliases.Table()), aliases.maximum, topic, p.alias).Some? && source.errors == old(source.errors)
    ensures ok ==> Contiguous(events) && (Concat(events) == payload <==> source.timeouts == old(source.timeouts))
    ensures ok ==> events != [] && events[0].topic == Resolve(old(aliases.Table()), aliases.maximum, topic, p.alias)
    ensures ok ==> forall k :: 0 <= k < |events| ==> events[k].total == |payload|
  {
    ghost var a := Arriving5(TypeByte(PUBLISH, 0, qos, retain), topic, id, EncodeProps(p), payload);
    PublishArrives5(qos, retain, topic, id, p, payload);
    Sizes(a);
    ok, events, received := Arrive5(source, aliases, size, a);
  }

  /** End to end with MQTT 5, whatever the payload and however the transports split the bytes: it
      succeeds exactly when no write fails, no read errs, and the receiver can tell the topic.
      Then each property set and the user properties in order arrive, under that topic, and all
      of the payload exactly when no read comes too late. */
  method Transfer5(client: Client, aliases: Aliases, topic: seq<byte>, payload: seq<byte>, qos: nat, retain: nat, id: nat, p: Props, size: nat,
                   link: nat -> int, ghost block: seq<byte>)
    returns (ok: bool, events: seq<Event>, received: Option<Received>, stored: Option<seq<byte>>, source: Source)
    requires client.conn.Valid() && client.connected
    requires qos <= 2 && |topic| < 0x1_0000 && 0 < id < 0x1_0000 && (topic != [] || p.alias != 0)
    requires InRange(p) && block == EncodeProps(p) && |block| < 0x1_0000
    requires BodyStart5(qos, topic, block) + |payload| < MAX_REMAINING
    requires client.conn.fragOffset <= BodyStart5(qos, topic, block) <= client.conn.buffer.Length
    requires |PublishPacket5(qos, retain, topic, id, block, payload)| - |payload| <= size
    modifies client, client.conn, client.conn.buffer, client.transport, aliases
    ensures var sent := client.transport.failures == old(client.transport.failures);
            && (sent ==> client.connected && client.conn.Valid() && client.conn.fragOffset == 0)
            && (ok <==> sent && source.errors == 0 && Resolve(old(aliases.Table()), aliases.maximum, topic, p.alias).Some?)
            && aliases.Table() == if sent then Learn(old(aliases.Table()), aliases.maximum, topic, p.alias) else old(aliases.Table())
    ensures stored == if qos > 0 then Some(PublishPacket5(qos, retain, topic, id, block, payload)) else None
    ensures ok ==> received == Some(Expected(p)) && Contiguous(events) && (Concat(events) == payload <==> source.timeouts == 0)
    ensures ok ==> events != [] && events[0].topic == Resolve(old(aliases.Table()), aliases.maximum, topic, p.alias)
    ensures ok ==> forall k :: 0 <= k < |events| ==> events[k].total == |payload|
  {
    events, received := [], None;
    source := new Source([], link);
    var before := |client.transport.sent|;
    ok, stored := Publish5(client, topic, payload, qos, retain, id, p, block);
    if !ok {
      return;
    }
    Apart(old(client.transport.sent), PublishPacket5(qos, retain, topic, id, block, payload));
    source := new Source(client.transport.sent[before..], link);
    ok, events, received := ArriveSent(source, aliases, topic, payload, qos, retain, id, p, size);
  }

  /** A topic sent once with an alias need not be sent again: the second message, with the alias
      only, arrives under it, unless a write fails or a read errs. */
  method TransferByAlias(client: Client, aliases: Aliases, topic: seq<byte>, payload: seq<byte>, qos: nat, id: nat, p: Props, size: nat, link: nat -> int,
                         ghost block: seq<byte>)
    returns (ok: bool, events: seq<Event>, first: Source, second: Source)
    requires client.conn.Valid() && client.connected
    requires qos <= 2 && 0 < |topic| < 0x1_0000 && 0 !in topic && 0 < id < 0x1_0000 && 0 < p.alias <= aliases.maximum
    requires InRange(p) && block == EncodeProps(p) && |block| < 0x1_0000
    requires BodyStart5(qos, topic, block) + |payload| < MAX_REMAINING
    requires client.conn.fragOffset <= BodyStart5(qos, topic, block) <= client.conn.buffer.Length
    requires BodyStart5(qos, topic, block) <= size
    modifies client, client.conn, client.conn.buffer, client.transport, aliases
    ensures ok <==> client.transport.failures == old(client.transport.failures) && first.errors == 0 && second.errors == 0
    ensures ok ==> events != [] && events[0].topic == Some(topic) && (Concat(events) == payload <==> second.timeouts == 0)
  {
    var received, stored;
    PacketWithin(qos, topic, id, block, payload);
    ok, events, received, stored, first := Transfer5(client, aliases, topic, payload, qos, 0, id, p, size, link, block);
    second := first;
    if ok {
      LearnedResolves(old(aliases.Table()), aliases.maximum, topic, p.alias);
      PacketWithin(qos, [], id, block, payload);
      ok, events, received, stored, second := Transfer5(client, aliases, [], payload, qos, 0, id, p, size, link, block);
    }
  }

  lemma {:induction false} PacketWithin(qos: nat, topic: seq<byte>, id: nat, block: seq<byte>, payload: seq<byte>)
    requires BodyStart5(qos, topic, block) + |payload| < MAX_REMAINING
    ensures |PublishPacket5(qos, 0, topic, id, block, payload)| - |payload| <= BodyStart5(qos, topic, block)
    ensures BodyStart5(qos, [], block) <= BodyStart5(qos, topic, block)
  {
    RemainingLengthSize(|VariableHeader5(qos, topic, id, block)| + |payload|);
  }
}
