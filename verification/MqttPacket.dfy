/** Packet types, the high nibble of the first byte (section 2.2.1 of MQTT 3.1.1). */
module MqttKinds {
  const CONNECT := 1
  const PUBLISH := 3
  const PUBACK := 4
  const PUBREC := 5
}

/** MQTT 3.1.1 control packets: the bytes of a PUBLISH, the builder that puts its header
    right-justified in front of the body, and the parsers of the receiver. */
module MqttPacket {
  import opened Wire
  import opened Varint
  import opened MqttKinds

  const MAX_FIXED_HEADER := 5
  const MAX_REMAINING := 0x1000_0000

  /** Two bytes, most significant first. */
  function U16(n: nat): (s: seq<byte>)
    ensures |s| == 2
  {
    [n / 256 % 256, n % 256]
  }

  function Word(high: int, low: int): int {
    256 * high + low
  }

  lemma {:induction false} U16Value(n: nat)
    requires n < 0x1_0000
    ensures Word(U16(n)[0], U16(n)[1]) == n
  {
  }

  function TypeByte(kind: nat, dup: nat, qos: nat, retain: nat): (b: byte)
  {
    kind % 16 * 16 + dup % 2 * 8 + qos % 4 * 2 + retain % 2
  }

  function Qos(b: byte): (q: nat)
  {
    b / 2 % 4
  }

  lemma {:induction false} TypeByteQos(kind: nat, dup: nat, qos: nat, retain: nat)
    requires qos <= 2
    ensures Qos(TypeByte(kind, dup, qos, retain)) == qos
  {
  }

  /** Topic and packet identifier (section 3.3.2 of MQTT 3.1.1). */
  function VariableHeader(qos: nat, topic: seq<byte>, id: nat): (s: seq<byte>)
    ensures |s| == 2 + |topic| + IdSize(qos)
  {
    U16(|topic|) + topic + if qos > 0 then U16(id) else []
  }

  function IdSize(qos: nat): nat {
    if qos > 0 then 2 else 0
  }

  /** Type byte and Remaining Length (section 2.2 of MQTT 3.1.1). */
  function FixedHeader(b: byte, remaining: nat): (s: seq<byte>)
    ensures |s| >= 2
  {
    [b] + Base128(remaining)
  }

  function PublishPacket(qos: nat, retain: nat, topic: seq<byte>, id: nat, payload: seq<byte>): seq<byte> {
    FixedHeader(TypeByte(PUBLISH, 0, qos, retain), |VariableHeader(qos, topic, id)| + |payload|)
    + VariableHeader(qos, topic, id) + payload
  }

  lemma {:induction false} RemainingLengthSize(n: nat)
    requires n < MAX_REMAINING
    ensures 1 <= |Base128(n)| <= 4
  {
    assert n / 128 < 0x20_0000;
    assert n / 128 / 128 < 0x4000;
    assert n / 128 / 128 / 128 < 128;
    ShortBase128(n / 128 / 128, 2);
    ShortBase128(n / 128, 3);
    ShortBase128(n, 4);
  }

  lemma {:induction false} ShortBase128(n: nat, k: nat)
    requires k >= 2 && |Base128(n / 128)| <= k - 1
    ensures |Base128(n)| <= k
  {
  }

  /** Two lengths announced differently make different headers. */
  lemma {:induction false} Base128Injective(x: nat, y: nat, rest: seq<byte>)
    requires x < MAX_REMAINING && y < MAX_REMAINING && Base128(x) + rest == Base128(y) + rest
    ensures x == y
  {
    VariableIntBase128(x, rest);
    VariableIntBase128(y, rest);
  }

  // ------------------------------------------------------------------
  // Variable byte integers, as both versions of the protocol read them
  // ------------------------------------------------------------------

  /** A variable byte integer at the front of `s`. */
  function VariableInt(s: seq<byte>): (p: Parsed)
    ensures p.Got? ==> 1 <= p.used <= |s|
  {
    if s == [] then Bad
    else if s[0] < 128 then Got(s[0], 1)
    else
      match VariableInt(s[1..])
      case Bad => Bad
      case Got(v, n) => Got(s[0] - 128 + 128 * v, n + 1)
  }

  lemma {:induction false} VariableIntBase128(n: nat, rest: seq<byte>)
    ensures VariableInt(Base128(n) + rest) == Got(n, |Base128(n)|)
    decreases n
  {
    if n >= 128 {
      VariableIntBase128(n / 128, rest);
      assert (Base128(n) + rest)[1..] == Base128(n / 128) + rest;
    }
  }

  lemma {:induction false} AheadOneMore(s: seq<byte>, low: nat, k: nat)
    requires s != []
    ensures Ahead(VariableInt(s), low, k, k)
         == if s[0] < 0x80 then Got(low + Shift7(s[0] % 0x80, k), k + 1)
            else Ahead(VariableInt(s[1..]), low + Shift7(s[0] % 0x80, k), k + 1, k + 1)
  {
    if s[0] >= 0x80 && VariableInt(s[1..]).Got? {
      Shift7Split(s[0] - 0x80, VariableInt(s[1..]).value, k);
    }
  }

  /** The loop of `get_variable_len` and of the MQTT 3.1.1 parsers, from `offset` on. When the
      integer does not end within the buffer, it stops behind the last byte. */
  method GetVariableLen(buffer: seq<byte>, offset: nat) returns (len: nat, bytes: nat)
    requires offset <= |buffer|
    ensures VariableInt(buffer[offset..]).Got? ==> VariableInt(buffer[offset..]) == Got(len, bytes)
    ensures VariableInt(buffer[offset..]).Bad? ==> bytes == |buffer| - offset
  {
    ghost var s := buffer[offset..];
    len := 0;
    var i := offset;
    var more := true;
    while more && i < |buffer|
      invariant offset <= i <= |buffer|
      invariant more ==> VariableInt(s) == Ahead(VariableInt(buffer[i..]), len, i - offset, i - offset)
      invariant !more ==> VariableInt(s) == Got(len, i - offset)
      decreases more, |buffer| - i
    {
      assert buffer[i..][1..] == buffer[i + 1..];
      AheadOneMore(buffer[i..], len, i - offset);
      len := len + Shift7(buffer[i] % 0x80, i - offset);
      more := buffer[i] >= 0x80;
      i := i + 1;
    }
    bytes := i - offset;
  }

  // ------------------------------------------------------------------
  // The outgoing side
  // ------------------------------------------------------------------

  /** `buffer` with the message being built: it lies at `start` and is `length` long. The two
      `frag` fields tell the sender about a payload that does not fit the buffer. */
  class Connection {
    const buffer: array<byte>
    var length: int
    var start: int
    var fragTotal: nat
    var fragOffset: int

    ghost predicate Valid()
      reads this
    {
      fragTotal == 0 || fragTotal > buffer.Length
    }

    /** The bytes of the message to be written. */
    ghost function Outbound(): (s: seq<byte>)
      requires 0 <= start && 0 <= length && start + length <= buffer.Length
      reads this, buffer
    {
      buffer[start..start + length]
    }

    constructor (size: nat)
      ensures Valid() && fresh(buffer) && buffer.Length == size && fragTotal == 0 && fragOffset == 0
    {
      buffer, length, start, fragTotal, fragOffset := new byte[size], 0, 0, 0, 0;
    }

    /** `memcpy` to the end of the message. */
    method Copy(data: seq<byte>)
      requires 0 <= length && length + |data| <= buffer.Length
      modifies this`length, buffer
      ensures length == old(length) + |data|
      ensures buffer[..length] == old(buffer[..length]) + data
    {
      var i := 0;
      while i < |data|
        invariant 0 <= i <= |data| && length == old(length)
        invariant buffer[..length + i] == old(buffer[..length]) + data[..i]
      {
        buffer[length + i] := data[i];
        assert buffer[..length + i + 1] == buffer[..length + i] + [data[i]];
        i := i + 1;
      }
      assert data[..i] == data;
      length := length + |data|;
    }

    /** `append_string`. */
    method AppendString(s: seq<byte>) returns (ok: bool)
      requires 0 <= length <= buffer.Length
      modifies this`length, buffer
      ensures ok <==> old(length) + |s| + 2 <= buffer.Length
      ensures ok ==> length == old(length) + 2 + |s| && buffer[..length] == old(buffer[..length]) + (U16(|s|) + s)
      ensures !ok ==> length == old(length) && buffer[..] == old(buffer[..])
    {
      if length + |s| + 2 > buffer.Length {
        return false;
      }
      Copy(U16(|s|));
      Copy(s);
      return true;
    }

    /** `append_message_id` with the identifier that was chosen, which is not 0. */
    method AppendMessageId(id: nat) returns (r: nat)
      requires 0 <= length <= buffer.Length && 0 < id < 0x1_0000
      modifies this`length, buffer
      ensures r == if old(length) + 2 <= buffer.Length then id else 0
      ensures r != 0 ==> length == old(length) + 2 && buffer[..length] == old(buffer[..length]) + U16(id)
    {
      if length + 2 > buffer.Length {
        return 0;
      }
      Copy(U16(id));
      return id;
    }

    method FailMessage()
      modifies this
      ensures length == 0 && start == 0 && fragTotal == old(fragTotal) && fragOffset == old(fragOffset)
    {
      start, length := 0, 0;
    }

    /** What `fini_message` takes for the Remaining Length. */
    function Remaining(): int
      reads this
    {
      if fragTotal != 0 then fragTotal - MAX_FIXED_HEADER else length - MAX_FIXED_HEADER
    }

    /** The length bytes of `fini_message`, in its array of four. */
    method EncodeLength(total: nat) returns (code: seq<byte>)
      requires total < MAX_REMAINING
      ensures 1 <= |code| <= 4 && code == Base128(total)
    {
      RemainingLengthSize(total);
      ghost var all := Base128(total);
      var lens := new byte[4];
      var n: nat, rest: nat, more := 0, total, true;
      while more
        invariant lens.Length == 4 && (if more then Encoding(lens, n, Base128(rest), all) else Encoding(lens, n, [], all))
        decreases if more then 1 + rest else 0
      {
        var group := rest % 128;
        var next := rest / 128;
        if next > 0 {
          group := group + 0x80;
        }
        PutGroup(lens, n, group, if next > 0 then Base128(next) else [], all);
        n, rest, more := n + 1, next, next > 0;
      }
      return lens[..n];
    }

    method PutGroup(lens: array<byte>, n: nat, group: byte, ghost rest: seq<byte>, ghost all: seq<byte>)
      requires lens.Length == 4 && |all| <= 4 && Encoding(lens, n, [group] + rest, all)
      modifies lens
      ensures Encoding(lens, n + 1, rest, all)
    {
      lens[n] := group;
      assert lens[..n + 1] == lens[..n] + [group];
    }

    /** Put bytes into the area in front of the body. */
    method PutHeader(offs: nat, header: seq<byte>)
      requires offs + |header| <= buffer.Length
      modifies buffer
      ensures forall k {:trigger buffer[k]} :: 0 <= k < buffer.Length ==> buffer[k] == if offs <= k < offs + |header| then header[k - offs] else old(buffer[k])
    {
      var j := 0;
      while j < |header|
        invariant 0 <= j <= |header|
        invariant forall k :: 0 <= k < buffer.Length ==> buffer[k] == if offs <= k < offs + j then header[k - offs] else old(buffer[k])
      {
        buffer[offs + j] := header[j];
        j := j + 1;
      }
    }

    /** `fini_message`: the fixed header goes right in front of the body, wherever that makes
        the message start. */
    method FiniMessage(kind: nat, dup: nat, qos: nat, retain: nat)
      requires Valid() && MAX_FIXED_HEADER <= length <= buffer.Length && Remaining() < MAX_REMAINING
      modifies this`length, this`start, this`fragOffset, buffer
      ensures 0 <= start && 0 < length && start + length == old(length)
      ensures start == HeaderStart(old(Remaining()))
      ensures Outbound() == FixedHeader(TypeByte(kind, dup, qos, retain), old(Remaining())) + old(buffer[MAX_FIXED_HEADER..length])
      ensures fragOffset == old(fragOffset) - start
    {
      ghost var body := buffer[MAX_FIXED_HEADER..length];
      var code := EncodeLength(Remaining());
      var messageLength := length - MAX_FIXED_HEADER;
      var offs := MAX_FIXED_HEADER - 1 - |code|;
      length := messageLength + |code| + 1;
      start := offs;
      fragOffset := fragOffset - offs;
      PutHeader(offs, [TypeByte(kind, dup, qos, retain)] + code);
      assert buffer[offs..MAX_FIXED_HEADER] == [TypeByte(kind, dup, qos, retain)] + code;
      assert buffer[MAX_FIXED_HEADER..old(length)] == body;
      assert Outbound() == buffer[offs..MAX_FIXED_HEADER] + buffer[MAX_FIXED_HEADER..old(length)];
    }

    /** Topic and identifier, behind the space kept for the fixed header. */
    method PutVariableHeader(topic: seq<byte>, qos: nat, id: nat) returns (ok: bool)
      requires 0 < id < 0x1_0000
      modifies this`length, buffer
      ensures ok <==> BodyStart(qos, topic) <= buffer.Length
      ensures ok ==> length == BodyStart(qos, topic) && buffer[MAX_FIXED_HEADER..length] == VariableHeader(qos, topic, id)
    {
      length := MAX_FIXED_HEADER;
      if buffer.Length < MAX_FIXED_HEADER {
        return false;
      }
      ok := AppendString(topic);
      if !ok {
        return;
      }
      if qos > 0 {
        var r := AppendMessageId(id);
        if r == 0 {
          return false;
        }
      }
      BehindHeader(buffer[..length], VariableHeader(qos, topic, id));
    }

    /** Payload behind the variable header, cut off at the end of the buffer. */
    method PutPayload(data: seq<byte>, ghost vh: seq<byte>)
      requires MAX_FIXED_HEADER <= length <= buffer.Length && buffer[MAX_FIXED_HEADER..length] == vh
      modifies this`length, this`fragTotal, this`fragOffset, buffer
      ensures length == old(length) + Carried(old(length), |data|)
      ensures buffer[MAX_FIXED_HEADER..length] == vh + data[..Carried(old(length), |data|)]
      ensures fragTotal == (if old(length) + |data| > buffer.Length then |data| + old(length) else 0)
      ensures fragOffset == (if old(length) + |data| > buffer.Length then old(length) else old(fragOffset))
    {
      ghost var head := buffer[..length];
      if length + |data| > buffer.Length {
        fragOffset := length;
        fragTotal := |data| + length;
        Copy(data[..buffer.Length - length]);
      } else {
        Copy(data);
        fragTotal := 0;
        assert data[..|data|] == data;
      }
      BehindBody(buffer[..length], head, vh, data[..Carried(old(length), |data|)]);
    }

    /** How many of `n` payload bytes fit behind position `at`. */
    function Carried(at: int, n: nat): nat
      requires at <= buffer.Length
    {
      if at + n > buffer.Length then buffer.Length - at else n
    }

    /** `mqtt_msg_connect`, given its variable header and payload. */
    method MsgConnect(body: seq<byte>)
      requires Valid() && |body| + MAX_FIXED_HEADER < MAX_REMAINING && fragTotal < MAX_REMAINING
      modifies this, buffer
      ensures Valid() && 0 <= start && 0 <= length && start + length <= buffer.Length && fragTotal == old(fragTotal)
      ensures length > 0 <==> MAX_FIXED_HEADER + |body| <= buffer.Length
      ensures length > 0 ==>
                var n := if fragTotal != 0 then fragTotal - MAX_FIXED_HEADER else |body|;
                && Outbound() == FixedHeader(TypeByte(CONNECT, 0, 0, 0), n) + body
                && fragOffset == old(fragOffset) - HeaderStart(n)
      ensures length == 0 ==> fragOffset == old(fragOffset)
    {
      length := MAX_FIXED_HEADER;
      if length + |body| > buffer.Length {
        FailMessage();
        return;
      }
      Copy(body);
      BehindHeader(buffer[..length], body);
      FiniMessage(CONNECT, 0, 0, 0);
    }

    /** The Remaining Length a PUBLISH announces. Without data it is whatever an earlier
        fragmented message left in `fragTotal`. */
    function Announced(qos: nat, topic: seq<byte>, data: Option<seq<byte>>): int
      reads this
    {
      if data.None? && fragTotal != 0 then fragTotal - MAX_FIXED_HEADER else BodyStart(qos, topic) + |Payload(data)| - MAX_FIXED_HEADER
    }

    /** `mqtt_msg_publish`. A payload that does not fit is cut off at the end of the buffer;
        the fixed header still announces all of it. */
    method MsgPublish(topic: seq<byte>, data: Option<seq<byte>>, qos: nat, retain: nat, id: nat) returns (messageId: nat)
      requires Valid() && 0 < id < 0x1_0000
      requires BodyStart(qos, topic) + |Payload(data)| < MAX_REMAINING && fragTotal < MAX_REMAINING
      modifies this, buffer
      ensures Valid() && 0 <= start && 0 <= length && start + length <= buffer.Length
      ensures length > 0 <==> topic != [] && BodyStart(qos, topic) <= buffer.Length
      ensures length == 0 ==> fragTotal == old(fragTotal) && fragOffset == old(fragOffset)
      ensures length > 0 ==>
                && start == HeaderStart(old(Announced(qos, topic, data)))
                && messageId == (if qos > 0 then id else 0)
                && Outbound() == FixedHeader(TypeByte(PUBLISH, 0, qos, retain), old(Announced(qos, topic, data)))
                                 + (VariableHeader(qos, topic, id) + Payload(data)[..Carried(BodyStart(qos, topic), |Payload(data)|)])
                && start + length == BodyStart(qos, topic) + Carried(BodyStart(qos, topic), |Payload(data)|)
      ensures length > 0 ==>
                && fragTotal == (if data.None? then old(fragTotal) else if Fits(qos, topic, data) then 0 else BodyStart(qos, topic) + |data.value|)
                && fragOffset == (if Fits(qos, topic, data) then old(fragOffset) else BodyStart(qos, topic)) - start
    {
      messageId := 0;
      if topic == [] {
        FailMessage();
        return;
      }
      var ok := PutVariableHeader(topic, qos, id);
      if !ok {
        FailMessage();
        return;
      }
      messageId := if qos > 0 then id else 0;
      ghost var vh := VariableHeader(qos, topic, id);
      if data.Some? {
        PutPayload(data.value, vh);
      } else {
        assert vh + [] == vh;
      }
      FiniMessage(PUBLISH, 0, qos, retain);
    }

    /** The payload fits the buffer behind the headers. */
    predicate Fits(qos: nat, topic: seq<byte>, data: Option<seq<byte>>) {
      BodyStart(qos, topic) + |Payload(data)| <= buffer.Length
    }
  }

  function Payload(data: Option<seq<byte>>): seq<byte> {
    if data.Some? then data.value else []
  }

  /** Where a message that announces this Remaining Length starts in the buffer. */
  function HeaderStart(remaining: nat): int {
    MAX_FIXED_HEADER - 1 - |Base128(remaining)|
  }

  /** Where the payload begins in the buffer. */
  function BodyStart(qos: nat, topic: seq<byte>): nat {
    MAX_FIXED_HEADER + 2 + |topic| + IdSize(qos)
  }

  /** `all` is what is in `lens` so far and `rest`. */
  ghost predicate Encoding(lens: array<byte>, n: nat, rest: seq<byte>, all: seq<byte>)
    reads lens
  {
    n <= lens.Length && all == lens[..n] + rest
  }

  lemma {:induction false} BehindHeader(b: seq<byte>, x: seq<byte>)
    requires |b| == MAX_FIXED_HEADER + |x| && b == b[..MAX_FIXED_HEADER] + x
    ensures b[MAX_FIXED_HEADER..] == x
  {
  }

  lemma {:induction false} BehindBody(b: seq<byte>, head: seq<byte>, x: seq<byte>, y: seq<byte>)
    requires b == head + y && |head| >= MAX_FIXED_HEADER && head[MAX_FIXED_HEADER..] == x
    ensures b[MAX_FIXED_HEADER..] == x + y
  {
  }

  /** A PUBLISH that announces this Remaining Length, right or wrong. */
  function Announcing(remaining: nat, qos: nat, retain: nat, topic: seq<byte>, id: nat, payload: seq<byte>): seq<byte> {
    FixedHeader(TypeByte(PUBLISH, 0, qos, retain), remaining) + VariableHeader(qos, topic, id) + payload
  }

  /** What the builder has in the buffer is the beginning of the packet. */
  lemma {:induction false} FirstPart(out: seq<byte>, remaining: nat, qos: nat, retain: nat, topic: seq<byte>, id: nat, payload: seq<byte>, n: nat)
    requires n <= |payload|
    requires out == FixedHeader(TypeByte(PUBLISH, 0, qos, retain), remaining) + (VariableHeader(qos, topic, id) + payload[..n])
    ensures out + payload[n..] == Announcing(remaining, qos, retain, topic, id, payload)
  {
    assert payload[..n] + payload[n..] == payload;
  }

  /** It is the PUBLISH it should be exactly when the length announced is right. */
  lemma {:induction false} AnnouncingExact(remaining: nat, qos: nat, retain: nat, topic: seq<byte>, id: nat, payload: seq<byte>)
    requires remaining < MAX_REMAINING && BodyStart(qos, topic) + |payload| < MAX_REMAINING
    ensures var right := BodyStart(qos, topic) + |payload| - MAX_FIXED_HEADER;
            && (Announcing(remaining, qos, retain, topic, id, payload) == PublishPacket(qos, retain, topic, id, payload)
                <==> remaining == right)
            && (remaining >= right ==>
                  |Announcing(remaining, qos, retain, topic, id, payload)| >= |PublishPacket(qos, retain, topic, id, payload)|)
  {
    var right := BodyStart(qos, topic) + |payload| - MAX_FIXED_HEADER;
    var a, b := Announcing(remaining, qos, retain, topic, id, payload), PublishPacket(qos, retain, topic, id, payload);
    var rest := VariableHeader(qos, topic, id) + payload;
    assert a[1..] == Base128(remaining) + rest;
    assert b[1..] == Base128(right) + rest;
    if a == b {
      Base128Injective(remaining, right, rest);
    }
    if remaining >= right {
      Base128LengthMonotone(right, remaining);
    }
  }
}
