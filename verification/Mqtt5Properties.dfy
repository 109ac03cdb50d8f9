/** The property block of an MQTT 5 PUBLISH (sections 2.2.2 and 3.3.2.3 of MQTT 5.0): what the
    builder appends, what the parser makes of it, and that the one undoes the other. */
module Mqtt5Properties {
  import opened Wire
  import opened Varint
  import opened MqttPacket

  const PAYLOAD_FORMAT_INDICATOR: byte := 0x01
  const MESSAGE_EXPIRY_INTERVAL: byte := 0x02
  const CONTENT_TYPE: byte := 0x03
  const RESPONSE_TOPIC: byte := 0x08
  const CORRELATION_DATA: byte := 0x09
  const SUBSCRIBE_IDENTIFIER: byte := 0x0B
  const REASON_STRING: byte := 0x1F
  const TOPIC_ALIAS: byte := 0x23
  const USER_PROPERTY: byte := 0x26

  datatype Pair = Pair(key: seq<byte>, value: seq<byte>)

  /** `esp_mqtt5_publish_property_config_t`. Zero numbers and empty correlation data are not
      sent. */
  datatype Props = Props(format: bool, expiry: nat, alias: nat, responseTopic: Option<seq<byte>>,
                         correlation: seq<byte>, user: seq<Pair>, contentType: Option<seq<byte>>)

  /** `esp_mqtt5_publish_resp_property_t` and the user property list. */
  datatype Received = Received(format: bool, expiry: nat, alias: nat, responseTopic: Option<seq<byte>>,
                               correlation: Option<seq<byte>>, user: seq<Pair>, contentType: Option<seq<byte>>, subscribeId: nat)

  const NOTHING := Received(false, 0, 0, None, None, [], None, 0)

  /** Numbers in range, strings below 65536 bytes. */
  predicate InRange(p: Props) {
    && p.expiry < TWO32 && p.alias < 0x1_0000
    && (p.responseTopic.Some? ==> |p.responseTopic.value| < 0x1_0000)
    && |p.correlation| < 0x1_0000
    && (forall k :: 0 <= k < |p.user| ==> |p.user[k].key| < 0x1_0000 && |p.user[k].value| < 0x1_0000)
    && (p.contentType.Some? ==> |p.contentType.value| < 0x1_0000)
  }

  /** What a receiver should see of it. */
  function Expected(p: Props): Received {
    Received(p.format, p.expiry, p.alias, p.responseTopic, if p.correlation == [] then None else Some(p.correlation),
             p.user, p.contentType, 0)
  }

  // ------------------------------------------------------------------
  // Encoding
  // ------------------------------------------------------------------

  function U32(n: nat): (s: seq<byte>)
    ensures |s| == 4
  {
    [n / 0x100_0000 % 256, n / 0x1_0000 % 256, n / 256 % 256, n % 256]
  }

  function Text(id: byte, s: seq<byte>): seq<byte> {
    [id] + U16(|s|) + s
  }

  function UserPair(x: Pair): seq<byte> {
    Text(USER_PROPERTY, x.key) + (U16(|x.value|) + x.value)
  }

  /** The first `n` user properties. */
  function UserBytes(user: seq<Pair>, n: nat): seq<byte>
    requires n <= |user|
  {
    if n == 0 then [] else UserBytes(user, n - 1) + UserPair(user[n - 1])
  }

  function FormatBytes(p: Props): seq<byte> {
    if p.format then [PAYLOAD_FORMAT_INDICATOR, 1] else []
  }

  function ExpiryBytes(p: Props): seq<byte> {
    if p.expiry != 0 then [MESSAGE_EXPIRY_INTERVAL] + U32(p.expiry) else []
  }

  function AliasBytes(p: Props): seq<byte> {
    if p.alias != 0 then [TOPIC_ALIAS] + U16(p.alias) else []
  }

  function ResponseBytes(p: Props): seq<byte> {
    if p.responseTopic.Some? then Text(RESPONSE_TOPIC, p.responseTopic.value) else []
  }

  function CorrelationBytes(p: Props): seq<byte> {
    if p.correlation != [] then Text(CORRELATION_DATA, p.correlation) else []
  }

  function ContentBytes(p: Props): seq<byte> {
    if p.contentType.Some? then Text(CONTENT_TYPE, p.contentType.value) else []
  }

  /** The properties up to and without the user properties, and all of them. */
  function FirstProps(p: Props): seq<byte> {
    FormatBytes(p) + ExpiryBytes(p) + AliasBytes(p) + ResponseBytes(p) + CorrelationBytes(p)
  }

  function EncodeProps(p: Props): seq<byte> {
    FirstProps(p) + UserBytes(p.user, |p.user|) + ContentBytes(p)
  }

  // ------------------------------------------------------------------
  // Parsing
  // ------------------------------------------------------------------

  function Long(a: int, b: int, c: int, d: int): int {
    0x100_0000 * a + 0x1_0000 * b + 256 * c + d
  }

  /** A length and as many bytes: where they end, or `None` when they are cut off. */
  function TextEnd(s: seq<byte>, at: nat): (end: Option<nat>)
    ensures end.Some? ==> at + 2 <= end.value <= |s|
  {
    if |s| < at + 2 then None
    else
      var end := at + 2 + Word(s[at], s[at + 1]);
      if end <= |s| then Some(end) else None
  }

  /** One property at the front: how long it is, and what is known after it. */
  datatype Step = Refused | Took(n: nat, r: Received)

  function ParseText(s: seq<byte>, r: Received): (t: Step)
    requires s != []
    ensures t.Took? ==> 1 <= t.n <= |s|
  {
    match TextEnd(s, 1)
    case None => Refused
    case Some(end) =>
      var text := s[3..end];
      if s[0] == RESPONSE_TOPIC then Took(end, r.(responseTopic := Some(text)))
      else if s[0] == CORRELATION_DATA then Took(end, r.(correlation := Some(text)))
      else if s[0] == CONTENT_TYPE then Took(end, r.(contentType := Some(text)))
      else if s[0] == REASON_STRING then Took(end, r)
      else
        match TextEnd(s, end)
        case None => Refused
        case Some(end') => Took(end', r.(user := r.user + [Pair(text, s[end + 2..end'])]))
  }

  predicate IsText(id: byte) {
    id == RESPONSE_TOPIC || id == CORRELATION_DATA || id == CONTENT_TYPE || id == REASON_STRING || id == USER_PROPERTY
  }

  function ParseOne(s: seq<byte>, r: Received): (t: Step)
    requires s != []
    ensures t.Took? ==> 1 <= t.n <= |s|
  {
    if IsText(s[0]) then ParseText(s, r)
    else if s[0] == PAYLOAD_FORMAT_INDICATOR then
      if |s| < 2 then Refused else Took(2, r.(format := s[1] != 0))
    else if s[0] == MESSAGE_EXPIRY_INTERVAL then
      if |s| < 5 then Refused else Took(5, r.(expiry := Long(s[1], s[2], s[3], s[4])))
    else if s[0] == TOPIC_ALIAS then
      if |s| < 3 then Refused else Took(3, r.(alias := Word(s[1], s[2])))
    else if s[0] == SUBSCRIBE_IDENTIFIER then
      match VariableInt(s[1..])
      case Bad => Refused
      case Got(v, n) => Took(1 + n, r.(subscribeId := v % 0x1_0000))
    else Refused
  }

  function ParseProps(s: seq<byte>, r: Received): Option<Received> {
    if s == [] then Some(r)
    else
      match ParseOne(s, r)
      case Refused => None
      case Took(n, r') => ParseProps(s[n..], r')
  }

  // ------------------------------------------------------------------
  // Round trip
  // ------------------------------------------------------------------

  lemma {:induction false} LongU32(n: nat)
    requires n < TWO32
    ensures var s := U32(n); Long(s[0], s[1], s[2], s[3]) == n
  {
    assert n / 0x100_0000 % 256 == n / 0x100_0000;
    assert n / 0x1_0000 == 256 * (n / 0x100_0000) + n / 0x1_0000 % 256;
    assert n / 256 == 256 * (n / 0x1_0000) + n / 256 % 256;
  }

  /** Parsing goes on behind one property. */
  lemma {:induction false} ParseBehind(piece: seq<byte>, rest: seq<byte>, r: Received, r': Received)
    requires piece != [] && ParseOne(piece + rest, r) == Took(|piece|, r')
    ensures ParseProps(piece + rest, r) == ParseProps(rest, r')
  {
    assert (piece + rest)[|piece|..] == rest;
  }

  lemma {:induction false} FormatParsed(p: Props, rest: seq<byte>, r: Received)
    requires !r.format
    ensures ParseProps(FormatBytes(p) + rest, r) == ParseProps(rest, r.(format := p.format))
  {
    if p.format {
      ParseBehind(FormatBytes(p), rest, r, r.(format := true));
    } else {
      assert FormatBytes(p) + rest == rest;
    }
  }

  lemma {:induction false} ExpiryParsed(p: Props, rest: seq<byte>, r: Received)
    requires InRange(p) && r.expiry == 0
    ensures ParseProps(ExpiryBytes(p) + rest, r) == ParseProps(rest, r.(expiry := p.expiry))
  {
    if p.expiry != 0 {
      LongU32(p.expiry);
      ParseBehind(ExpiryBytes(p), rest, r, r.(expiry := p.expiry));
    } else {
      assert ExpiryBytes(p) + rest == rest;
    }
  }

  lemma {:induction false} AliasParsed(p: Props, rest: seq<byte>, r: Received)
    requires InRange(p) && r.alias == 0
    ensures ParseProps(AliasBytes(p) + rest, r) == ParseProps(rest, r.(alias := p.alias))
  {
    if p.alias != 0 {
      U16Value(p.alias);
      ParseBehind(AliasBytes(p), rest, r, r.(alias := p.alias));
    } else {
      assert AliasBytes(p) + rest == rest;
    }
  }

  lemma {:induction false} TextFound(id: byte, text: seq<byte>, rest: seq<byte>)
    requires |text| < 0x1_0000
    ensures var s := Text(id, text) + rest;
            s[0] == id && TextEnd(s, 1) == Some(3 + |text|) && s[3..3 + |text|] == text
  {
    var s := Text(id, text) + rest;
    U16Value(|text|);
    assert s[1] == U16(|text|)[0] && s[2] == U16(|text|)[1];
  }

  lemma {:induction false} ResponseParsed(p: Props, rest: seq<byte>, r: Received)
    requires InRange(p) && r.responseTopic == None
    ensures ParseProps(ResponseBytes(p) + rest, r) == ParseProps(rest, r.(responseTopic := p.responseTopic))
  {
    if p.responseTopic.Some? {
      TextFound(RESPONSE_TOPIC, p.responseTopic.value, rest);
      ParseBehind(ResponseBytes(p), rest, r, r.(responseTopic := p.responseTopic));
    } else {
      assert ResponseBytes(p) + rest == rest;
    }
  }

  lemma {:induction false} CorrelationParsed(p: Props, rest: seq<byte>, r: Received)
    requires InRange(p) && r.correlation == None
    ensures ParseProps(CorrelationBytes(p) + rest, r) == ParseProps(rest, r.(correlation := Expected(p).correlation))
  {
    if p.correlation != [] {
      TextFound(CORRELATION_DATA, p.correlation, rest);
      ParseBehind(CorrelationBytes(p), rest, r, r.(correlation := Some(p.correlation)));
    } else {
      assert CorrelationBytes(p) + rest == rest;
    }
  }

  lemma {:induction false} ContentParsed(p: Props, rest: seq<byte>, r: Received)
    requires InRange(p) && r.contentType == None
    ensures ParseProps(ContentBytes(p) + rest, r) == ParseProps(rest, r.(contentType := p.contentType))
  {
    if p.contentType.Some? {
      TextFound(CONTENT_TYPE, p.contentType.value, rest);
      ParseBehind(ContentBytes(p), rest, r, r.(contentType := p.contentType));
    } else {
      assert ContentBytes(p) + rest == rest;
    }
  }

  lemma {:induction false} PairParsed(x: Pair, rest: seq<byte>, r: Received)
    requires |x.key| < 0x1_0000 && |x.value| < 0x1_0000
    ensures ParseProps(UserPair(x) + rest, r) == ParseProps(rest, r.(user := r.user + [x]))
  {
    var tail := U16(|x.value|) + x.value + rest;
    var s := UserPair(x) + rest;
    assert s == Text(USER_PROPERTY, x.key) + tail;
    TextFound(USER_PROPERTY, x.key, tail);
    var end := 3 + |x.key|;
    U16Value(|x.value|);
    assert s[end] == U16(|x.value|)[0] && s[end + 1] == U16(|x.value|)[1];
    assert s[end + 2..end + 2 + |x.value|] == x.value;
    ParseBehind(UserPair(x), rest, r, r.(user := r.user + [x]));
  }

  /** The user properties come back in order. */
  lemma {:induction false} UserParsed(user: seq<Pair>, n: nat, rest: seq<byte>, r: Received)
    requires n <= |user| && forall k :: 0 <= k < |user| ==> |user[k].key| < 0x1_0000 && |user[k].value| < 0x1_0000
    ensures ParseProps(UserBytes(user, n) + rest, r) == ParseProps(rest, r.(user := r.user + user[..n]))
  {
    if n == 0 {
      assert UserBytes(user, 0) + rest == rest && r.user + user[..0] == r.user;
    } else {
      Regroup(UserBytes(user, n - 1), UserPair(user[n - 1]), rest);
      UserParsed(user, n - 1, UserPair(user[n - 1]) + rest, r);
      LastUserParsed(user, n, rest, r);
    }
  }

  lemma {:induction false} LastUserParsed(user: seq<Pair>, n: nat, rest: seq<byte>, r: Received)
    requires 0 < n <= |user| && |user[n - 1].key| < 0x1_0000 && |user[n - 1].value| < 0x1_0000
    ensures ParseProps(UserPair(user[n - 1]) + rest, r.(user := r.user + user[..n - 1])) == ParseProps(rest, r.(user := r.user + user[..n]))
  {
    PairParsed(user[n - 1], rest, r.(user := r.user + user[..n - 1]));
    assert r.user + user[..n - 1] + [user[n - 1]] == r.user + user[..n];
  }

  lemma {:induction false} FirstPropsParsed(p: Props, rest: seq<byte>)
    requires InRange(p)
    ensures ParseProps(FirstProps(p) + rest, NOTHING) == ParseProps(rest, Expected(p).(user := [], contentType := None))
  {
    var r5 := rest;
    var r4 := CorrelationBytes(p) + r5;
    var r3 := ResponseBytes(p) + r4;
    var r2 := AliasBytes(p) + r3;
    var r1 := ExpiryBytes(p) + r2;
    Chain(FormatBytes(p), ExpiryBytes(p), AliasBytes(p), ResponseBytes(p), CorrelationBytes(p), rest);
    var a := NOTHING.(format := p.format);
    FormatParsed(p, r1, NOTHING);
    ExpiryParsed(p, r2, a);
    var b := a.(expiry := p.expiry);
    AliasParsed(p, r3, b);
    var c := b.(alias := p.alias);
    ResponseParsed(p, r4, c);
    CorrelationParsed(p, r5, c.(responseTopic := p.responseTopic));
  }

  lemma {:induction false} Chain(a: seq<byte>, b: seq<byte>, c: seq<byte>, d: seq<byte>, e: seq<byte>, f: seq<byte>)
    ensures a + b + c + d + e + f == a + (b + (c + (d + (e + f))))
  {
  }

  /** Parsing undoes encoding: every property set, and the user properties in order. */
  lemma {:induction false} PropsRoundTrip(p: Props)
    requires InRange(p)
    ensures ParseProps(EncodeProps(p), NOTHING) == Some(Expected(p))
  {
    var user := UserBytes(p.user, |p.user|);
    Regroup(FirstProps(p), user, ContentBytes(p));
    FirstPropsParsed(p, user + ContentBytes(p));
    LaterPropsParsed(p, Expected(p).(user := [], contentType := None));
  }

  lemma {:induction false} LaterPropsParsed(p: Props, r: Received)
    requires InRange(p) && r == Expected(p).(user := [], contentType := None)
    ensures ParseProps(UserBytes(p.user, |p.user|) + ContentBytes(p), r) == Some(Expected(p))
  {
    UserParsed(p.user, |p.user|, ContentBytes(p), r);
    assert [] + p.user[..|p.user|] == p.user;
    ContentParsed(p, [], r.(user := p.user));
    assert ContentBytes(p) + [] == ContentBytes(p);
  }
}
