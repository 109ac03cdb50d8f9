/** Reception of a PUBLISH: the header parsers and `deliver_publish`, which hands a packet
    larger than the input buffer to the application in several data events. */
module MqttReceive {
  import opened Wire
  import opened Varint
  import opened MqttKinds
  import opened MqttPacket
  import opened MqttSend

  datatype Event = Event(topic: Option<seq<byte>>, data: seq<byte>, offset: nat, total: int)

  ghost function Concat(events: seq<Event>): seq<byte> {
    if events == [] then [] else Concat(events[..|events| - 1]) + events[|events| - 1].data
  }

  lemma {:induction false} ConcatMore(events: seq<Event>, e: Event)
    ensures Concat(events + [e]) == Concat(events) + e.data
  {
    assert (events + [e])[..|events|] == events;
  }

  /** Each event begins where the one before it ended. */
  ghost predicate Contiguous(events: seq<Event>) {
    forall k :: 0 <= k < |events| ==> events[k].offset == |Concat(events[..k])|
  }

  lemma {:induction false} ContiguousMore(events: seq<Event>, e: Event)
    requires Contiguous(events) && e.offset == |Concat(events)|
    ensures Contiguous(events + [e])
  {
    var all := events + [e];
    forall k | 0 <= k < |all| ensures all[k].offset == |Concat(all[..k])| {
      if k < |events| {
        assert all[..k] == events[..k];
      } else {
        assert all[..k] == events;
      }
    }
  }

  // ------------------------------------------------------------------
  // Header parsers
  // ------------------------------------------------------------------

  /** The loop over the Remaining Length bytes that all parsers share, on any bytes: the number
      they hold and the size of the fixed header. */
  method ScanLength(buf: seq<byte>) returns (totlen: nat, i: nat)
    ensures i >= 1 && (i <= |buf| || (buf == [] && i == 1))
    ensures forall p :: Sees(buf, p) ==> i == |p.Header()| && totlen == |p.Variable()| + |p.payload|
  {
    if buf == [] {
      return 0, 1;
    }
    var bytes: nat;
    totlen, bytes := GetVariableLen(buf, 1);
    i := 1 + bytes;
    forall p | Sees(buf, p) ensures i == |p.Header()| && totlen == |p.Variable()| + |p.payload| {
      HeaderRead(buf, p);
    }
  }

  /** A PUBLISH as it arrives: type byte, Remaining Length, topic, identifier, payload. */
  datatype Arriving = Arriving(b: byte, topic: seq<byte>, id: nat, payload: seq<byte>)
  {
    ghost predicate Valid() {
      topic != [] && |topic| < 0x1_0000 && id < 0x1_0000
    }

    function Header(): seq<byte> {
      FixedHeader(b, |Variable()| + |payload|)
    }

    function Variable(): seq<byte> {
      VariableHeader(Qos(b), topic, id)
    }

    function Packet(): seq<byte> {
      Header() + Variable() + payload
    }

    /** Where the topic ends, and where the payload begins. */
    ghost function TopicEnd(): nat {
      |Header()| + 2 + |topic|
    }

    ghost function DataStart(): nat {
      |Header()| + |Variable()|
    }
  }

  /** Where the parts of a packet lie. */
  lemma {:induction false} PacketLayout(p: Arriving)
    requires p.Valid()
    ensures p.TopicEnd() <= p.DataStart() <= |p.Packet()|
    ensures var h, s := |p.Header()|, p.Packet();
            && s[..h] == p.Header()
            && Word(s[h], s[h + 1]) == |p.topic|
            && s[h + 2..p.TopicEnd()] == p.topic
            && s[p.DataStart()..] == p.payload
            && (Qos(p.b) > 0 ==> Word(s[p.TopicEnd()], s[p.TopicEnd() + 1]) == p.id)
  {
    var h, v, s := p.Header(), p.Variable(), p.Packet();
    U16Value(|p.topic|);
    U16Value(p.id);
    assert s[..|h|] == h;
    assert s[|h|] == v[0] && s[|h| + 1] == v[1];
    assert v[2..2 + |p.topic|] == p.topic;
    assert s[|h| + 2..p.TopicEnd()] == v[2..2 + |p.topic|];
    if Qos(p.b) > 0 {
      assert s[p.TopicEnd()] == v[2 + |p.topic|] && s[p.TopicEnd() + 1] == v[3 + |p.topic|];
    }
  }

  /** What a parser sees: the first bytes of the packet, at least the fixed header. */
  ghost predicate Sees(buf: seq<byte>, p: Arriving) {
    p.Valid() && |p.Header()| <= |buf| <= |p.Packet()| && buf == p.Packet()[..|buf|]
  }

  lemma {:induction false} HeaderRead(buf: seq<byte>, p: Arriving)
    requires Sees(buf, p)
    ensures VariableInt(buf[1..]) == Got(|p.Variable()| + |p.payload|, |p.Header()| - 1)
  {
    var n := |p.Variable()| + |p.payload|;
    var rest := buf[|p.Header()|..];
    PacketLayout(p);
    assert buf[..|p.Header()|] == p.Header();
    assert buf == p.Header() + rest;
    assert buf[1..] == Base128(n) + rest;
    VariableIntBase128(n, rest);
  }

  /** Where the parts of the packet are in the buffer, as far as they are. */
  ghost predicate Located(buf: seq<byte>, p: Arriving)
    requires Sees(buf, p)
  {
    var h := |p.Header()|;
    && buf[0] == p.b && h + 3 <= p.TopicEnd() && p.DataStart() == p.TopicEnd() + IdSize(Qos(p.b))
    && (h + 2 <= |buf| ==> Word(buf[h], buf[h + 1]) == |p.topic|)
    && (p.TopicEnd() <= |buf| ==> buf[h + 2..p.TopicEnd()] == p.topic)
    && (p.DataStart() <= |buf| ==>
          && buf[p.DataStart()..] == p.payload[..|buf| - p.DataStart()]
          && (Qos(p.b) > 0 ==> Word(buf[p.TopicEnd()], buf[p.TopicEnd() + 1]) == p.id))
  }

  lemma {:induction false} AllLocated(buf: seq<byte>, p: Arriving)
    requires Sees(buf, p)
    ensures Located(buf, p) && |p.Packet()| == p.DataStart() + |p.payload|
  {
    PacketLayout(p);
    var s := p.Packet();
    if p.TopicEnd() <= |buf| {
      assert buf[|p.Header()| + 2..p.TopicEnd()] == s[|p.Header()| + 2..p.TopicEnd()];
    }
    if p.DataStart() <= |buf| {
      assert buf[p.DataStart()..] == s[p.DataStart()..][..|buf| - p.DataStart()];
    }
  }

  /** `mqtt_get_publish_topic`, on any bytes. From the beginning of a PUBLISH it gives the topic
      exactly when all of it is there. */
  method GetPublishTopic(buf: seq<byte>) returns (topic: Option<seq<byte>>)
    ensures forall p :: Sees(buf, p) ==> topic == if p.TopicEnd() <= |buf| then Some(p.topic) else None
  {
    forall p | Sees(buf, p) ensures Located(buf, p) {
      AllLocated(buf, p);
    }
    var totlen, i := ScanLength(buf);
    if i + 2 >= |buf| {
      return None;
    }
    var topiclen := Word(buf[i], buf[i + 1]);
    i := i + 2;
    if i + topiclen > |buf| {
      return None;
    }
    topic := Some(buf[i..i + topiclen]);
  }

  /** `mqtt_get_publish_data`, on any bytes. From the beginning of a PUBLISH it gives the part of
      the payload that is there; when topic or identifier are cut off, an empty part. */
  method GetPublishData(buf: seq<byte>) returns (data: seq<byte>)
    ensures forall p :: Sees(buf, p) ==> data == if p.DataStart() < |buf| then p.payload[..|buf| - p.DataStart()] else []
  {
    forall p | Sees(buf, p) ensures Located(buf, p) && |p.Packet()| == p.DataStart() + |p.payload| {
      AllLocated(buf, p);
    }
    var totlen, i := ScanLength(buf);
    totlen := totlen + i;
    if i + 2 >= |buf| {
      return [];
    }
    var topiclen := Word(buf[i], buf[i + 1]);
    i := i + 2;
    if i + topiclen >= |buf| {
      return [];
    }
    i := i + topiclen;
    if Qos(buf[0]) > 0 {
      if i + 2 >= |buf| {
        return [];
      }
      i := i + 2;
    }
    if totlen < i {
      return [];
    }
    var n := if totlen <= |buf| then totlen - i else |buf| - i;
    data := buf[i..i + n];
  }

  /** `mqtt_get_id` of a PUBLISH, on any bytes. From the beginning of a PUBLISH it gives the
      identifier exactly when it is there. */
  method GetId(buf: seq<byte>) returns (id: nat)
    ensures forall p :: Sees(buf, p) ==> id == if Qos(p.b) > 0 && p.DataStart() <= |buf| then p.id else 0
  {
    forall p | Sees(buf, p) ensures Located(buf, p) {
      AllLocated(buf, p);
    }
    if buf == [] {
      return 0;
    }
    var totlen, i := ScanLength(buf);
    if i + 2 >= |buf| {
      return 0;
    }
    var topiclen := Word(buf[i], buf[i + 1]);
    i := i + 2;
    if i + topiclen > |buf| {
      return 0;
    }
    i := i + topiclen;
    if Qos(buf[0]) > 0 {
      if i + 2 > |buf| {
        return 0;
      }
    } else {
      return 0;
    }
    return Word(buf[i], buf[i + 1]);
  }

  // ------------------------------------------------------------------
  // Delivery
  // ------------------------------------------------------------------

  /** Bytes that have been sent but not been read. `link` tells what each read finds: how many bytes
      are there to be read, 0 if nothing comes in time, or a negative number for an error. */
  class Source {
    const wire: seq<byte>
    const link: nat -> int
    var pos: nat
    var count: nat
    ghost var timeouts: nat
    ghost var errors: nat

    ghost predicate Valid()
      reads this
    {
      pos <= |wire|
    }

    constructor (wire: seq<byte>, link: nat -> int)
      ensures Valid() && this.wire == wire && this.link == link && pos == 0 && count == 0 && timeouts == 0 && errors == 0
    {
      this.wire, this.link, pos, count, timeouts, errors := wire, link, 0, 0, 0, 0;
    }

    /** `esp_transport_read`. */
    method Read(max: nat) returns (ret: int, data: seq<byte>)
      requires Valid() && max > 0
      modifies this
      ensures Valid() && count == old(count) + 1
      ensures timeouts == old(timeouts) + if ret == 0 then 1 else 0
      ensures errors == old(errors) + if ret < 0 then 1 else 0
      ensures ret > 0 ==> ret == |data| <= max && pos == old(pos) + ret && data == wire[old(pos)..pos]
      ensures ret <= 0 ==> pos == old(pos)
      ensures link(old(count)) <= 0 ==> ret == link(old(count))
    {
      ret, data := link(count), [];
      count := count + 1;
      if ret > 0 {
        ret := if ret < max then ret else max;
        ret := if ret < |wire| - pos then ret else |wire| - pos;
        data := wire[pos..pos + ret];
        pos := pos + ret;
      }
      timeouts := timeouts + if ret == 0 then 1 else 0;
      errors := errors + if ret < 0 then 1 else 0;
    }
  }

  /** What delivery hands on of `packet`: the bytes from `from` to `upto`, the first event with
      the topic. */
  ghost predicate Delivered(events: seq<Event>, packet: seq<byte>, topic: seq<byte>, from: nat, upto: nat)
    requires from <= upto <= |packet|
  {
    && Concat(events) == packet[from..upto]
    && Contiguous(events)
    && (forall k :: 0 <= k < |events| ==> events[k].total == |packet| - from)
    && (forall k :: 0 <= k < |events| ==> events[k].topic == if k == 0 then Some(topic) else None)
  }

  lemma {:induction false} DeliveredMore(events: seq<Event>, e: Event, packet: seq<byte>, topic: seq<byte>, from: nat, mid: nat, upto: nat)
    requires from <= mid <= upto <= |packet| && Delivered(events, packet, topic, from, mid)
    requires e.data == packet[mid..upto] && e.offset == mid - from && e.total == |packet| - from
    requires e.topic == if events == [] then Some(topic) else None
    ensures Delivered(events + [e], packet, topic, from, upto)
  {
    ConcatMore(events, e);
    ContiguousMore(events, e);
    assert packet[from..mid] + packet[mid..upto] == packet[from..upto];
  }

  /** The event loop of `deliver_publish`, with the packet read up to the source's position and
      its bytes from `from` on at hand. It fails only when a read errs. When one comes too late it
      ends as well, with success, although the rest of the packet is still to come. */
  method DeliverEvents(source: Source, topic0: seq<byte>, data0: seq<byte>, total: nat, size: nat, ghost from: nat, ghost packet: seq<byte>)
    returns (ok: bool, events: seq<Event>)
    requires source.Valid() && total == |packet| && from <= source.pos <= total && size > 0
    requires total <= |source.wire| && source.wire[..total] == packet
    requires data0 == packet[from..source.pos]
    modifies source
    ensures source.Valid() && from <= old(source.pos) <= source.pos <= total
    ensures ok <==> source.errors == old(source.errors)
    ensures source.pos == total <==> source.errors == old(source.errors) && source.timeouts == old(source.timeouts)
    ensures Delivered(events, packet, topic0, from, source.pos) && events != []
    ensures old(source.pos) < total && source.link(old(source.count)) <= 0 ==> source.pos == old(source.pos)
    ensures old(source.pos) < total && source.link(old(source.count)) == 0 ==> ok
  {
    events := [];
    var topic, data, readLen, offset: nat := Some(topic0), data0, source.pos, 0;
    var totalData := |data| + total - readLen;
    ghost var mid := from;
    var sendEvent := true;
    while sendEvent
      invariant source.Valid() && source.pos == readLen && from <= mid <= readLen <= total && old(source.pos) <= readLen
      invariant source.errors == old(source.errors) && source.timeouts == old(source.timeouts)
      invariant if events == [] then source.count == old(source.count) && readLen == old(source.pos)
                else old(source.pos) == total || source.link(old(source.count)) > 0
      invariant Delivered(events, packet, topic0, from, mid) && offset == mid - from
      invariant sendEvent ==> data == packet[mid..readLen] && topic == (if events == [] then Some(topic0) else None)
      invariant !sendEvent ==> mid == readLen == total && events != []
      decreases sendEvent, total - readLen
    {
      var e := Event(topic, data, offset, totalData);
      DeliveredMore(events, e, packet, topic0, from, mid, readLen);
      events := events + [e];
      sendEvent := false;
      mid := readLen;
      offset := offset + |data|;
      if readLen < total {
        sendEvent := true;
        topic := None;
        var ret;
        ret, data := source.Read(if total - readLen > size then size else total - readLen);
        if ret <= 0 {
          return ret == 0, events;
        }
        WireIsPacket(source.wire, packet, readLen, readLen + |data|);
        readLen := readLen + |data|;
      }
    }
    return true, events;
  }

  lemma {:induction false} WireIsPacket(wire: seq<byte>, packet: seq<byte>, a: nat, b: nat)
    requires a <= b <= |packet| <= |wire| && wire[..|packet|] == packet
    ensures wire[a..b] == packet[a..b]
  {
    forall k | a <= k < b ensures wire[k] == packet[k] {
      assert wire[..|packet|][k] == packet[k];
    }
  }

  /** `deliver_publish`, entered with the first `|buf|` bytes of the packet in a buffer of
      `size` bytes. It refuses a packet whose topic is cut off. Otherwise it fails only when a read
      errs. Its events have contiguous offsets and concatenate to what was read behind the headers,
      or behind the buffer if that ends first; they are all of it exactly when no read errs or comes
      too late. */
  method DeliverPublish(source: Source, buf: seq<byte>, size: nat, ghost p: Arriving)
    returns (ok: bool, events: seq<Event>)
    requires source.Valid() && source.pos == |buf| && Sees(buf, p) && size > 0
    requires |p.Packet()| <= |source.wire| && source.wire[..|p.Packet()|] == p.Packet()
    modifies source
    ensures source.Valid() && FirstByte(buf, p) <= |buf| <= source.pos <= |p.Packet()|
    ensures ok <==> p.TopicEnd() <= |buf| && source.errors == old(source.errors)
    ensures |buf| < p.TopicEnd() ==>
              && events == [] && source.pos == old(source.pos)
              && source.errors == old(source.errors) && source.timeouts == old(source.timeouts)
    ensures |buf| >= p.TopicEnd() ==>
              && Delivered(events, p.Packet(), p.topic, FirstByte(buf, p), source.pos) && events != []
              && (source.pos == |p.Packet()| <==> source.errors == old(source.errors) && source.timeouts == old(source.timeouts))
    ensures p.TopicEnd() <= |buf| < |p.Packet()| && source.link(old(source.count)) == 0 ==> ok && source.pos == |buf|
  {
    var topic := GetPublishTopic(buf);
    if topic.None? {
      PacketLayout(p);
      return false, [];
    }
    var data := GetPublishData(buf);
    AllLocated(buf, p);
    DataAtHand(buf, p);
    var totlen, h := ScanLength(buf);
    ok, events := DeliverEvents(source, topic.value, data, totlen + h, size, FirstByte(buf, p), p.Packet());
  }

  lemma {:induction false} DataAtHand(buf: seq<byte>, p: Arriving)
    requires Sees(buf, p)
    ensures (if p.DataStart() < |buf| then p.payload[..|buf| - p.DataStart()] else []) == p.Packet()[FirstByte(buf, p)..|buf|]
  {
    PacketLayout(p);
    if p.DataStart() < |buf| {
      assert p.Packet()[p.DataStart()..][..|buf| - p.DataStart()] == p.Packet()[p.DataStart()..|buf|];
    }
  }

  /** The first byte delivered: the payload's first, or the first one past the buffer. */
  ghost function FirstByte(buf: seq<byte>, p: Arriving): nat {
    if p.DataStart() < |buf| then p.DataStart() else |buf|
  }

  /** The size check of `mqtt_message_receive` for a packet larger than the buffer. It leaves
      out the two bytes of the topic length. */
  ghost predicate Admitted(p: Arriving, size: nat) {
    |p.Packet()| <= size || |p.Header()| + |p.topic| + IdSize(Qos(p.b)) <= size
  }

  /** The part of the packet that is read first. */
  ghost function ReadFirst(p: Arriving, size: nat): nat {
    if |p.Packet()| <= size then |p.Packet()| else size
  }

  /** All of the packet, or at least its headers, fit the buffer. */
  ghost predicate Intact(p: Arriving, size: nat) {
    |p.Packet()| <= size || p.DataStart() <= size
  }

  /** `mqtt_message_receive` on one packet: the first bytes of it, as many as the buffer holds. */
  method ReceiveMessage(source: Source, size: nat, ghost p: Arriving) returns (ok: bool, buf: seq<byte>)
    requires source.Valid() && source.pos == 0 && p.Valid() && size >= |p.Header()| + 2
    requires |p.Packet()| <= |source.wire| && source.wire[..|p.Packet()|] == p.Packet()
    modifies source`pos
    ensures source.Valid()
    ensures ok <==> Admitted(p, size)
    ensures ok ==> Sees(buf, p) && source.pos == |buf| == ReadFirst(p, size)
  {
    PacketLayout(p);
    ghost var h := |p.Header()|;
    ghost var front := source.wire[..|p.Packet()|];
    assert Sees(front, p);
    HeaderRead(front, p);
    HeaderInWire(source.wire, front);
    var totlen, bytes := GetVariableLen(source.wire, 1);
    var fixed := 1 + bytes;
    var total := totlen + fixed;
    if size < total {
      WireIsPacket(source.wire, p.Packet(), fixed, fixed + 2);
      assert source.wire[fixed] == source.wire[fixed..fixed + 2][0] && source.wire[fixed + 1] == source.wire[fixed..fixed + 2][1];
      var topicLen := Word(source.wire[fixed], source.wire[fixed + 1]);
      WireIsPacket(source.wire, p.Packet(), 0, 1);
      assert source.wire[0] == source.wire[0..1][0];
      if size < fixed + topicLen + IdSize(Qos(source.wire[0])) {
        return false, [];
      }
      total := size;
    }
    WireIsPacket(source.wire, p.Packet(), 0, total);
    buf := source.wire[..total];
    source.pos := total;
    ok := true;
  }

  /** What follows a variable byte integer does not matter. */
  lemma {:induction false} VariableIntMore(s: seq<byte>, x: seq<byte>)
    requires VariableInt(s).Got?
    ensures VariableInt(s + x) == VariableInt(s)
  {
    if s[0] >= 128 {
      VariableIntMore(s[1..], x);
      assert (s + x)[1..] == s[1..] + x;
    }
  }

  lemma {:induction false} HeaderInWire(wire: seq<byte>, front: seq<byte>)
    requires 0 < |front| <= |wire| && wire[..|front|] == front && VariableInt(front[1..]).Got?
    ensures VariableInt(wire[1..]) == VariableInt(front[1..])
  {
    VariableIntMore(front[1..], wire[|front|..]);
    assert wire[1..] == front[1..] + wire[|front|..];
  }

  /** PUBACK or PUBREC, and for which packet. */
  datatype Answer = Answer(kind: nat, id: nat)

  /** `mqtt_process_receive` on a PUBLISH: it is received, delivered and answered. That succeeds
      exactly when the packet is admitted, its topic is within the buffer and no read errs. Where
      the headers fit, the events then concatenate to the payload exactly when no read comes too
      late; the answer is the same in both cases. Where no read comes too late, they do so exactly
      when the headers fit: a buffer that ends inside the packet identifier passes the check, and
      what is left of the identifier is delivered as payload. */
  method ReceivePublish(source: Source, size: nat, ghost p: Arriving) returns (ok: bool, events: seq<Event>, answer: Option<Answer>)
    requires source.Valid() && source.pos == 0 && p.Valid() && size >= |p.Header()| + 2
    requires |p.Packet()| <= |source.wire| && source.wire[..|p.Packet()|] == p.Packet()
    modifies source
    ensures ok <==> Admitted(p, size) && p.TopicEnd() <= ReadFirst(p, size) && source.errors == old(source.errors)
    ensures ok ==>
              var from := if Intact(p, size) then p.DataStart() else size;
              && from <= source.pos <= |p.Packet()| && Concat(events) == p.Packet()[from..source.pos]
              && Contiguous(events) && events != [] && events[0].topic == Some(p.topic)
    ensures ok && Intact(p, size) ==> (Concat(events) == p.payload <==> source.timeouts == old(source.timeouts))
    ensures ok && Intact(p, size) ==> forall k :: 0 <= k < |events| ==> events[k].total == |p.payload|
    ensures ok && source.timeouts == old(source.timeouts) ==>
              source.pos == |p.Packet()| && (Concat(events) == p.payload <==> Intact(p, size))
    ensures Admitted(p, size) && p.TopicEnd() <= size < |p.Packet()| && source.link(old(source.count)) == 0 ==> ok && source.pos == size
    ensures ok && Intact(p, size) ==>
              answer == if Qos(p.b) == 1 then Some(Answer(PUBACK, p.id)) else if Qos(p.b) == 2 then Some(Answer(PUBREC, p.id)) else None
  {
    events, answer := [], None;
    var buf;
    ok, buf := ReceiveMessage(source, size, p);
    if !ok {
      return;
    }
    PacketLayout(p);
    AllLocated(buf, p);
    var qos := Qos(buf[0]);
    var id := GetId(buf);
    ok, events := DeliverPublish(source, buf, size, p);
    if ok && (qos == 1 || qos == 2) {
      answer := Some(Answer(if qos == 1 then PUBACK else PUBREC, id));
    }
    if ok && Intact(p, size) {
      PayloadPart(p, source.pos);
    }
  }

  /** What has been delivered of the payload. */
  lemma {:induction false} PayloadPart(p: Arriving, upto: nat)
    requires p.Valid() && p.DataStart() <= upto <= |p.Packet()|
    ensures p.Packet()[p.DataStart()..upto] == p.payload[..upto - p.DataStart()]
    ensures p.Packet()[p.DataStart()..upto] == p.payload <==> upto == |p.Packet()|
  {
    PacketLayout(p);
    assert p.Packet()[p.DataStart()..upto] == p.Packet()[p.DataStart()..][..upto - p.DataStart()];
  }

  /** The failing case: nothing more comes in time. For every packet larger than a buffer that holds
      its headers, only the part in the buffer is delivered, the message is answered as if all of it
      had been, and what follows is left where the next packet is expected. */
  method CutByTimeout(size: nat, p: Arriving) returns (ok: bool, events: seq<Event>, answer: Option<Answer>, source: Source)
    requires p.Valid() && Qos(p.b) == 2 && p.DataStart() <= size < |p.Packet()|
    ensures ok && Concat(events) == p.payload[..size - p.DataStart()] != p.payload
    ensures answer == Some(Answer(PUBREC, p.id)) && source.pos == size
  {
    PacketLayout(p);
    source := new Source(p.Packet(), _ => 0);
    assert source.wire[..|p.Packet()|] == p.Packet();
    ok, events, answer := ReceivePublish(source, size, p);
    PayloadPart(p, size);
  }

  lemma {:induction false} SentArrives(qos: nat, retain: nat, topic: seq<byte>, id: nat, payload: seq<byte>)
    requires qos <= 2
    ensures var p := Arriving(TypeByte(PUBLISH, 0, qos, retain), topic, id, payload);
            p.Packet() == PublishPacket(qos, retain, topic, id, payload) && Qos(p.b) == qos
  {
    TypeByteQos(PUBLISH, 0, qos, retain);
  }

  lemma {:induction false} BehindCut(p: Arriving)
    requires p.Valid() && Qos(p.b) > 0
    ensures p.DataStart() == p.TopicEnd() + 2 && p.TopicEnd() + 1 <= |p.Packet()|
    ensures p.Packet()[p.TopicEnd() + 1..] == [p.id % 256] + p.payload
  {
    PacketLayout(p);
    var s := p.Packet();
    assert s[p.TopicEnd() + 1] == p.id % 256 by {
      assert s[p.TopicEnd() + 1] == p.Variable()[3 + |p.topic|] == U16(p.id)[1];
    }
    assert s[p.TopicEnd() + 1..] == [s[p.TopicEnd() + 1]] + s[p.DataStart()..];
  }

  /** The failing case: a buffer that holds all of the headers but the last byte of the identifier.
      Every such packet is admitted, and that byte is delivered in front of the payload. */
  method CutIdentifier(source: Source, size: nat, ghost p: Arriving) returns (ok: bool, events: seq<Event>)
    requires source.Valid() && source.pos == 0 && p.Valid() && Qos(p.b) > 0 && p.payload != []
    requires size == p.TopicEnd() + 1 && source.wire == p.Packet()
    modifies source
    ensures ok <==> source.errors == old(source.errors)
    ensures ok && source.timeouts == old(source.timeouts) ==> Concat(events) == [p.id % 256] + p.payload != p.payload
  {
    PacketLayout(p);
    BehindCut(p);
    assert source.wire[..|p.Packet()|] == p.Packet();
    var answer;
    ok, events, answer := ReceivePublish(source, size, p);
    assert |[p.id % 256] + p.payload| != |p.payload|;
  }

  /** End to end: what one client publishes through a buffer that holds the headers is what
      another, with a buffer that holds them too, delivers; the transports may split the
      bytes as they like. It succeeds exactly when no write fails and no read errs, and then all of
      the payload is delivered exactly when no read comes too late. */
  method Transfer(client: Client, topic: seq<byte>, payload: seq<byte>, qos: nat, retain: nat, id: nat, size: nat, link: nat -> int)
    returns (ok: bool, events: seq<Event>, stored: Option<seq<byte>>, source: Source)
    requires client.conn.Valid() && client.connected && 0 < id < 0x1_0000 && qos <= 2 && 0 < |topic| < 0x1_0000
    requires BodyStart(qos, topic) + |payload| < MAX_REMAINING && client.conn.fragTotal < MAX_REMAINING
    requires BodyStart(qos, topic) <= client.conn.buffer.Length
    requires |PublishPacket(qos, retain, topic, id, payload)| - |payload| <= size
    requires client.transport.sent == [] && client.conn.fragOffset <= BodyStart(qos, topic)
    modifies client, client.conn, client.conn.buffer, client.transport
    ensures ok <==> client.transport.failures == old(client.transport.failures) && source.errors == 0
    ensures stored == if qos > 0 then Some(PublishPacket(qos, retain, topic, id, payload)) else None
    ensures ok ==> client.transport.sent == PublishPacket(qos, retain, topic, id, payload)
    ensures ok ==> (Concat(events) == payload <==> source.timeouts == 0)
    ensures ok ==> Contiguous(events) && events != [] && events[0].topic == Some(topic)
    ensures ok ==> forall k :: 0 <= k < |events| ==> events[k].total == |payload|
  {
    events := [];
    source := new Source([], link);
    ok, stored := client.Publish(topic, Some(payload), qos, retain, id);
    if !ok {
      return;
    }
    source := new Source(client.transport.sent, link);
    ok, events := Arrive(source, size, Arriving(TypeByte(PUBLISH, 0, qos, retain), topic, id, payload), qos, retain);
  }

  /** The receiving half. */
  method Arrive(source: Source, size: nat, ghost p: Arriving, ghost qos: nat, ghost retain: nat) returns (ok: bool, events: seq<Event>)
    requires source.Valid() && source.pos == 0 && p.Valid() && qos <= 2 && p.b == TypeByte(PUBLISH, 0, qos, retain)
    requires source.wire == PublishPacket(qos, retain, p.topic, p.id, p.payload)
    requires |source.wire| - |p.payload| <= size
    modifies source
    ensures ok <==> source.errors == old(source.errors)
    ensures ok ==> (Concat(events) == p.payload <==> source.timeouts == old(source.timeouts))
    ensures ok ==> Contiguous(events) && events != [] && events[0].topic == Some(p.topic)
    ensures ok ==> forall k :: 0 <= k < |events| ==> events[k].total == |p.payload|
  {
    SentArrives(qos, retain, p.topic, p.id, p.payload);
    PacketLayout(p);
    assert source.wire[..|p.Packet()|] == p.Packet();
    var answer;
    ok, events, answer := ReceivePublish(source, size, p);
  }
}
