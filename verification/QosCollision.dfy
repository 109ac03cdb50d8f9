/** Identifiers reused while they are in flight: what still holds, and exactly when the rest does
    not. */
module QosCollision {
  import opened MqttKinds
  import opened Outbox
  import opened QosMachine
  import opened QosRuns

  // ------------------------------------------------------------------
  // What one colliding publish does
  // ------------------------------------------------------------------

  /** The item whose state is set when a message is published: the first with its identifier. */
  function Target(items: seq<Item>, id: nat): (k: nat)
    ensures k <= |items|
  {
    var i := First(items, HasId(id));
    if i < 0 then |items| else i
  }

  lemma {:induction false} TargetFound(items: seq<Item>, x: Item)
    ensures First(items + [x], HasId(x.id)) == Target(items, x.id)
  {
    var all, k := items + [x], Target(items, x.id);
    assert HasId(x.id)(all[k]);
    forall j | 0 <= j < k ensures !HasId(x.id)(all[j]) {
      assert all[j] == items[j];
    }
  }

  lemma {:induction false} SetBoth(items: seq<Item>, k: nat, id: nat, now: int)
    requires k < |items| && First(items, HasId(id)) == k
    ensures var ticked := SetTickAt(items, First(items, HasId(id)), now);
            SetPendingAt(ticked, First(ticked, HasId(id)), Transmitted) == items[k := items[k].(tick := now, pending := Transmitted)]
  {
    SameIds(items, SetTickAt(items, k, now), id);
  }

  lemma {:induction false} PublishSets(s: State, qos: nat, id: nat, len: nat, now: int, sent: int)
    requires s.connected && qos > 0
    ensures var t := Store(s, qos, id, len, now).items;
            var k := Target(s.items, id);
            DoPublish(s, qos, id, len, now, sent, true).items == t[k := t[k].(tick := sent, pending := Transmitted)]
  {
    var t := Store(s, qos, id, len, now);
    TargetFound(s.items, t.items[|s.items|]);
    SetBoth(t.items, Target(s.items, id), id, sent);
  }

  /** One publish with an identifier in flight moves items only forward exactly when the first
      item with that identifier is not acknowledged. */
  lemma {:induction false} CollisionStep(s: State, qos: nat, id: nat, len: nat, now: int, sent: int)
    requires Ordered(s.items, s.next) && s.connected && qos > 0
    ensures Forward(s.items, DoPublish(s, qos, id, len, now, sent, true).items)
            <==> var i := First(s.items, HasId(id)); i < 0 || s.items[i].pending != Acknowledged
  {
    PublishSets(s, qos, id, len, now, sent);
    TransmittedForward(s.items, s.next, Item(s.next, id, PUBLISH, qos, now, len, Queued), Target(s.items, id), sent);
  }

  lemma {:induction false} TransmittedForward(items: seq<Item>, next: nat, x: Item, k: nat, now: int)
    requires Ordered(items, next) && x.handle == next && k <= |items|
    ensures var all := items + [x];
            Forward(items, all[k := all[k].(tick := now, pending := Transmitted)])
            <==> k == |items| || items[k].pending != Acknowledged
  {
    var all := items + [x];
    var end := all[k := all[k].(tick := now, pending := Transmitted)];
    if k < |items| && items[k].pending == Acknowledged {
      assert end[k].handle == items[k].handle && Rank(end[k].pending) < Rank(items[k].pending);
    } else {
      forall a, b | 0 <= a < |items| && 0 <= b < |end| && items[a].handle == end[b].handle
        ensures Rank(items[a].pending) <= Rank(end[b].pending)
      {
        assert a == b;
      }
    }
  }

  // ------------------------------------------------------------------
  // No message is published again, whatever identifiers are reused, if ticks are in order
  // ------------------------------------------------------------------

  /** No PUBLISH of a message behind a PUBREC that marked it. */
  ghost predicate NoRepublish(log: seq<Action>) {
    forall i, j :: 0 <= i < j < |log| && log[i].Marked? && log[j].Wrote? ==> log[i].handle != log[j].handle
  }

  lemma {:induction false} SafeNoRepublish(log: seq<Action>)
    requires Safe(log)
    ensures NoRepublish(log)
  {
    forall i, j | 0 <= i < j < |log| && log[i].Marked? && log[j].Wrote? ensures log[i].handle != log[j].handle {
      SafeAt(log, j);
      MarkedStays(log[..j], i, log[i].handle);
    }
  }

  lemma {:induction false} NoRepublishMore(log: seq<Action>, a: Action)
    requires NoRepublish(log) && (a.Wrote? ==> !FateOf(log, a.handle).marked)
    ensures NoRepublish(log + [a])
  {
    var all := log + [a];
    forall i, j | 0 <= i < j < |all| && all[i].Marked? && all[j].Wrote? ensures all[i].handle != all[j].handle {
      if j == |log| && all[i].handle == a.handle {
        MarkedStays(log, i, a.handle);
      }
    }
  }

  /** Of the items that share an identifier, those behind are not older. */
  ghost predicate InOrder(items: seq<Item>) {
    forall i, j :: 0 <= i < j < |items| && items[i].id == items[j].id && items[i].id != 0 ==> items[i].tick <= items[j].tick
  }

  ghost predicate Typed(items: seq<Item>) {
    forall i :: 0 <= i < |items| ==> items[i].kind == PUBLISH && (items[i].qos == 0 <==> items[i].id == 0)
  }

  /** Of the items that share an identifier, only the first ever leaves the queued state. */
  ghost predicate OthersQueued(items: seq<Item>) {
    forall i, j :: 0 <= i < j < |items| && items[i].id == items[j].id && items[i].id != 0 ==> items[j].pending == Queued
  }

  /** Another item with this one's identifier stands behind it. */
  ghost predicate Followed(items: seq<Item>, k: nat)
    requires k < |items|
  {
    items[k].id != 0 && exists j :: k < j < |items| && items[j].id == items[k].id
  }

  /** No item in front of this one has its identifier. */
  ghost predicate Leads(items: seq<Item>, i: nat)
    requires i < |items|
  {
    forall k :: 0 <= k < i && items[k].id == items[i].id ==> items[i].id == 0
  }

  /** A marked item is acknowledged, or it has been set back and blocks on one behind it. */
  ghost predicate MarkOk(items: seq<Item>, log: seq<Action>, k: nat)
    requires k < |items|
  {
    FateOf(log, items[k].handle).marked ==>
      items[k].pending == Acknowledged || (items[k].pending == Transmitted && Followed(items, k))
  }

  /** The invariant of runs that reuse identifiers. */
  ghost predicate Sound(s: State) {
    && Ordered(s.items, s.next) && Typed(s.items) && OthersQueued(s.items)
    && (forall k :: 0 <= k < |s.items| ==> MarkOk(s.items, s.log, k))
    && (forall h: nat :: h >= s.next ==> !FateOf(s.log, h).marked)
    && NoRepublish(s.log)
  }

  lemma {:induction false} InvSound(s: State)
    requires Inv(s)
    ensures Sound(s) && InOrder(s.items)
  {
    SafeNoRepublish(s.log);
    forall k | 0 <= k < |s.items| ensures MarkOk(s.items, s.log, k) {
      assert ItemOk(s.log, s.items[k]);
    }
    forall h: nat | h >= s.next ensures !FateOf(s.log, h).marked {
      assert Accounted(s, h);
    }
  }

  /** An entry that marks nothing, and writes nothing that is marked. */
  lemma {:induction false} LogSound(s: State, a: Action)
    requires Sound(s) && !a.Marked? && (a.Wrote? ==> !FateOf(s.log, a.handle).marked)
    ensures Sound(Log(s, a))
  {
    forall h: nat ensures FateOf(s.log + [a], h).marked == FateOf(s.log, h).marked {
      LogMore(s.log, a, h);
    }
    NoRepublishMore(s.log, a);
    forall k | 0 <= k < |s.items| ensures MarkOk(s.items, s.log + [a], k) {
      assert MarkOk(s.items, s.log, k);
    }
  }

  lemma {:induction false} MarkSound(s: State, i: nat)
    requires Sound(s) && i < |s.items| && s.items[i].pending == Acknowledged
    ensures Sound(Log(s, Marked(s.items[i].handle)))
  {
    var a := Marked(s.items[i].handle);
    forall h: nat ensures FateOf(s.log + [a], h).marked == (FateOf(s.log, h).marked || h == a.handle) {
      LogMore(s.log, a, h);
    }
    NoRepublishMore(s.log, a);
    forall k | 0 <= k < |s.items| ensures MarkOk(s.items, s.log + [a], k) {
      assert MarkOk(s.items, s.log, k);
    }
  }

  /** `rest` is `items` without item `i`. */
  ghost predicate Without(items: seq<Item>, i: nat, rest: seq<Item>) {
    && i < |items| && |rest| == |items| - 1
    && (forall k :: 0 <= k < i ==> rest[k] == items[k])
    && (forall k :: i <= k < |rest| ==> rest[k] == items[k + 1])
  }

  lemma {:induction false} RemoveIsWithout(items: seq<Item>, i: nat)
    requires i < |items|
    ensures Without(items, i, RemoveAt(items, i))
  {
    forall k | 0 <= k < |items| - 1 ensures RemoveAt(items, i)[k] == items[if k < i then k else k + 1] {
      RemoveIndex(items, i, k);
    }
  }

  lemma {:induction false} FollowedWithout(items: seq<Item>, i: nat, rest: seq<Item>, k: nat)
    requires Without(items, i, rest) && Leads(items, i) && k < |items| && k != i && Followed(items, k)
    ensures Followed(rest, if k < i then k else k - 1)
  {
    var j :| k < j < |items| && items[j].id == items[k].id;
    var j', k' := if j < i then j else j - 1, if k < i then k else k - 1;
    assert j != i && rest[j'] == items[j] && rest[k'] == items[k];
  }

  lemma {:induction false} MarkWithout(items: seq<Item>, i: nat, rest: seq<Item>, log: seq<Action>, k: nat)
    requires Without(items, i, rest) && Leads(items, i) && k < |rest|
    requires MarkOk(items, log, if k < i then k else k + 1)
    ensures MarkOk(rest, log, k)
  {
    var j := if k < i then k else k + 1;
    if Followed(items, j) {
      FollowedWithout(items, i, rest, j);
    }
  }

  lemma {:induction false} RemoveSound(s: State, i: nat)
    requires Sound(s) && i < |s.items| && Leads(s.items, i)
    ensures Sound(s.(items := RemoveAt(s.items, i)))
  {
    var rest := RemoveAt(s.items, i);
    RemoveIsWithout(s.items, i);
    forall k | 0 <= k < |rest| ensures MarkOk(rest, s.log, k) {
      MarkWithout(s.items, i, rest, s.log, k);
    }
  }

  lemma {:induction false} LeaveSound(s: State, i: nat, a: Action)
    requires Sound(s) && i < |s.items| && Leads(s.items, i) && !a.Marked? && !a.Wrote?
    ensures Sound(Leave(s, i, a))
  {
    RemoveSound(s, i);
    LogSound(s.(items := RemoveAt(s.items, i)), a);
  }

  /** Item `i` gets another state or tick. */
  lemma {:induction false} SetSound(s: State, i: nat, x: Item)
    requires Sound(s) && i < |s.items| && x == s.items[i].(pending := x.pending, tick := x.tick)
    requires x.pending != s.items[i].pending ==> Leads(s.items, i)
    requires FateOf(s.log, x.handle).marked ==> x.pending == Acknowledged || (x.pending == Transmitted && Followed(s.items, i))
    ensures Sound(s.(items := s.items[i := x]))
  {
    var items := s.items[i := x];
    forall k | 0 <= k < |items| && Followed(s.items, k) ensures Followed(items, k) {
      var j :| k < j < |s.items| && s.items[j].id == s.items[k].id;
      assert items[j].id == items[k].id;
    }
    forall k | 0 <= k < |items| ensures MarkOk(items, s.log, k) {
      assert MarkOk(s.items, s.log, k);
    }
  }

  lemma {:induction false} FirstLeads(items: seq<Item>, id: nat)
    requires First(items, HasId(id)) >= 0
    ensures items[First(items, HasId(id))].id == id && Leads(items, First(items, HasId(id)))
  {
    var i := First(items, HasId(id));
    forall k | 0 <= k < i ensures items[k].id != id {
      assert !HasId(id)(items[k]);
    }
  }

  /** A message went out: the first item with its identifier counts as transmitted. */
  lemma {:induction false} TransmittedSound(s: State, i: nat)
    requires Sound(s) && i < |s.items| && s.items[i].pending == Queued && s.items[i].id != 0
    ensures Sound(SetPendingOf(s, s.items[i].id, Transmitted))
  {
    var id := s.items[i].id;
    assert HasId(id)(s.items[i]);
    var f := First(s.items, HasId(id));
    FirstLeads(s.items, id);
    if f < i {
      assert Followed(s.items, f);
    } else {
      assert MarkOk(s.items, s.log, f);
    }
    SetSound(s, f, s.items[f].(pending := Transmitted));
  }

  lemma {:induction false} TickSound(s: State, id: nat, tick: int)
    requires Sound(s)
    ensures Sound(SetTickOf(s, id, tick))
  {
    var f := First(s.items, HasId(id));
    if f >= 0 {
      assert MarkOk(s.items, s.log, f);
      SetSound(s, f, s.items[f].(tick := tick));
    }
  }

  lemma {:induction false} StoreSound(s: State, qos: nat, id: nat, len: nat, now: int)
    requires Sound(s) && (qos > 0 ==> id != 0)
    ensures Sound(Store(s, qos, id, len, now))
  {
    var t := Store(s, qos, id, len, now);
    var u := t.(log := s.log);
    forall k | 0 <= k < |u.items| ensures MarkOk(u.items, s.log, k) {
      if k < |s.items| {
        assert MarkOk(s.items, s.log, k);
        if Followed(s.items, k) {
          var j :| k < j < |s.items| && s.items[j].id == s.items[k].id;
          assert u.items[j].id == u.items[k].id;
        }
      }
    }
    LogSound(u, t.log[|s.log|]);
  }

  lemma {:induction false} PublishSound(s: State, qos: nat, id: nat, len: nat, now: int, sent: int, whole: bool)
    requires Sound(s) && (qos > 0 ==> id != 0)
    ensures Sound(DoPublish(s, qos, id, len, now, sent, whole))
  {
    if qos == 0 {
      LogSound(s, WroteUnstored(whole));
    } else {
      StoreSound(s, qos, id, len, now);
      var t, n := Store(s, qos, id, len, now), |s.items|;
      if s.connected {
        var a := Wrote(s.next, id, false, whole);
        assert MarkOk(t.items, t.log, n);
        LogSound(t, a);
        var written := Log(t, a).(connected := whole);
        if whole {
          TickSound(written, id, sent);
          TransmittedSound(SetTickOf(written, id, sent), n);
        }
      }
    }
  }

  lemma {:induction false} ResendQueuedSound(s: State, whole: bool)
    requires Sound(s)
    ensures Sound(DoResendQueued(s, whole))
  {
    var i := First(s.items, IsPending(Queued));
    if i >= 0 {
      var item := s.items[i];
      var a := Wrote(item.handle, item.id, false, whole);
      assert MarkOk(s.items, s.log, i);
      LogSound(s, a);
      var written := Log(s, a).(connected := whole);
      if whole && item.qos == 0 {
        LeaveSound(written, i, SentOnce(item.handle));
      } else if whole {
        TransmittedSound(written, i);
      }
    }
  }

  /** With nothing queued, an item that is only transmitted has not been marked. */
  lemma {:induction false} ResendTransmittedSound(s: State, now: int, timeout: int, whole: bool)
    requires Sound(s)
    ensures Sound(DoResendTransmitted(s, now, timeout, whole))
  {
    var i := Aged(s, Transmitted, now, timeout);
    if i >= 0 && NoneQueued(s.items) {
      assert MarkOk(s.items, s.log, i);
      forall k | 0 <= k < |s.items| ensures s.items[k].pending != Queued {
        assert !IsPending(Queued)(s.items[k]);
      }
      LogSound(s, Wrote(s.items[i].handle, s.items[i].id, s.items[i].qos > 0, whole));
    }
  }

  lemma {:induction false} AckSound(s: State, id: nat)
    requires Sound(s)
    ensures Sound(DoAck(s, id))
  {
    var i := First(s.items, HasIdAndKind(id, PUBLISH));
    if i >= 0 {
      forall k | 0 <= k < i ensures s.items[k].id != id {
        assert !HasIdAndKind(id, PUBLISH)(s.items[k]) && s.items[k].kind == PUBLISH;
      }
      LeaveSound(s, i, Acked(s.items[i].handle));
      LogSound(Leave(s, i, Acked(s.items[i].handle)), Published(id));
    }
  }

  lemma {:induction false} PubrecSound(s: State, id: nat)
    requires Sound(s)
    ensures Sound(DoPubrec(s, id))
  {
    var i := First(s.items, HasId(id));
    if i < 0 {
      LogSound(s, WrotePubrel(id));
    } else {
      FirstLeads(s.items, id);
      SetSound(s, i, s.items[i].(pending := Acknowledged));
      var t := SetPendingOf(s, id, Acknowledged);
      MarkSound(t, i);
      LogSound(Log(t, Marked(s.items[i].handle)), WrotePubrel(id));
    }
  }

  /** The first expired item has none with its identifier in front: that one would be expired. */
  lemma {:induction false} ExpiredLeads(items: seq<Item>, now: int, timeout: int)
    requires InOrder(items) && First(items, IsExpired(now, timeout)) >= 0
    ensures Leads(items, First(items, IsExpired(now, timeout)))
  {
    var i := First(items, IsExpired(now, timeout));
    forall k | 0 <= k < i ensures items[i].tick < items[k].tick {
      assert !IsExpired(now, timeout)(items[k]);
    }
  }

  lemma {:induction false} RemoveInOrder(items: seq<Item>, i: nat)
    requires InOrder(items) && i < |items|
    ensures InOrder(RemoveAt(items, i))
  {
    RemoveIsWithout(items, i);
  }

  lemma {:induction false} ExpireSound(s: State, now: int, timeout: int)
    requires Sound(s) && InOrder(s.items)
    ensures Sound(DoExpire(s, now, timeout)) && InOrder(DoExpire(s, now, timeout).items)
    decreases |s.items|
  {
    var i := First(s.items, IsExpired(now, timeout));
    if i >= 0 {
      ExpiredLeads(s.items, now, timeout);
      LeaveSound(s, i, Expired(s.items[i].handle));
      RemoveInOrder(s.items, i);
      ExpireSound(Leave(s, i, Expired(s.items[i].handle)), now, timeout);
    }
  }

  lemma {:induction false} StopSound(s: State)
    requires Sound(s)
    ensures Sound(DoStop(s)) && DoStop(s).items == []
    decreases |s.items|
  {
    if s.items != [] {
      LeaveSound(s, 0, Dropped(s.items[0].handle));
      StopSound(Leave(s, 0, Dropped(s.items[0].handle)));
    }
  }

  /** Messages of QoS 1 and 2 get an identifier. */
  predicate Numbered(step: Step) {
    (step.Publish? || step.Enqueue?) && step.qos > 0 ==> step.id != 0
  }

  lemma {:induction false} SendingSound(s: State, step: Step)
    requires Sound(s) && Numbered(step) && Sending(step)
    ensures Sound(Next(s, step))
  {
    match step
    case Publish(qos, id, len, now, sent, whole) => PublishSound(s, qos, id, len, now, sent, whole);
    case Enqueue(qos, store, id, len, now) => StoreSound(s, qos, id, len, now);
    case ResendQueued(whole) => ResendQueuedSound(s, whole);
    case ResendTransmitted(now, timeout, whole) => ResendTransmittedSound(s, now, timeout, whole);
    case ResendPubrel(now, timeout, whole) =>
      var i := Aged(s, Acknowledged, now, timeout);
      if i >= 0 {
        LogSound(s, WrotePubrel(s.items[i].id));
      }
  }

  lemma {:induction false} OtherSound(s: State, step: Step)
    requires Sound(s) && InOrder(s.items) && !Sending(step)
    ensures Sound(Next(s, step))
  {
    match step
    case ReceivePuback(id) => AckSound(s, id);
    case ReceivePubrec(id) => PubrecSound(s, id);
    case ReceivePubcomp(id) => AckSound(s, id);
    case Expire(now, timeout) => ExpireSound(s, now, timeout);
    case Lose =>
    case Connect =>
    case Stop => StopSound(s);
  }

  lemma {:induction false} StepSound(s: State, step: Step)
    requires Sound(s) && InOrder(s.items) && Numbered(step)
    ensures Sound(Next(s, step))
  {
    if Sending(step) {
      SendingSound(s, step);
    } else {
      OtherSound(s, step);
    }
  }

  /** Over every run, whatever identifiers are reused: as long as no item with an identifier is
      younger than one behind it with the same identifier, no message is published again behind
      the PUBREC that marked it. */
  lemma {:induction false} NeverRepublished(steps: seq<Step>)
    requires forall k :: 0 <= k < |steps| ==> Numbered(steps[k])
    requires forall n :: 0 <= n <= |steps| ==> InOrder(RunFrom(INITIAL, steps[..n]).items)
    ensures Sound(RunFrom(INITIAL, steps)) && NoRepublish(RunFrom(INITIAL, steps).log)
  {
    if steps != [] {
      var shorter := steps[..|steps| - 1];
      forall n | 0 <= n <= |shorter| ensures InOrder(RunFrom(INITIAL, shorter[..n]).items) {
        assert shorter[..n] == steps[..n];
      }
      NeverRepublished(shorter);
      assert InOrder(RunFrom(INITIAL, steps[..|steps| - 1]).items);
      StepSound(RunFrom(INITIAL, shorter), steps[|steps| - 1]);
    }
  }

  // ------------------------------------------------------------------
  // Ticks stay in order while identifiers are fresh
  // ------------------------------------------------------------------

  /** Storing a message under a fresh identifier, or without one. */
  lemma {:induction false} StoreInOrder(s: State, qos: nat, id: nat, len: nat, now: int)
    requires InOrder(s.items) && (qos > 0 ==> First(s.items, HasId(id)) < 0)
    ensures InOrder(Store(s, qos, id, len, now).items)
  {
    if qos > 0 {
      forall k | 0 <= k < |s.items| ensures s.items[k].id != id {
        assert !HasId(id)(s.items[k]);
      }
    }
  }

  lemma {:induction false} LastInOrder(items: seq<Item>, x: Item, y: Item)
    requires InOrder(items) && y.id == x.id && forall k :: 0 <= k < |items| ==> items[k].id != x.id
    ensures InOrder((items + [x])[|items| := y])
  {
  }

  lemma {:induction false} PublishInOrder(s: State, qos: nat, id: nat, len: nat, now: int, sent: int)
    requires InOrder(s.items) && qos > 0 && First(s.items, HasId(id)) < 0 && s.connected
    ensures InOrder(DoPublish(s, qos, id, len, now, sent, true).items)
  {
    PublishSets(s, qos, id, len, now, sent);
    var x := Item(s.next, id, PUBLISH, qos, now, len, Queued);
    forall k | 0 <= k < |s.items| ensures s.items[k].id != id {
      assert !HasId(id)(s.items[k]);
    }
    LastInOrder(s.items, x, x.(tick := sent, pending := Transmitted));
  }

  lemma {:induction false} SendingInOrder(s: State, step: Step)
    requires InOrder(s.items) && Fresh(s, step) && Sending(step)
    ensures InOrder(Next(s, step).items)
  {
    match step
    case Publish(qos, id, len, now, sent, whole) =>
      StoreInOrder(s, qos, id, len, now);
      if qos > 0 && s.connected && whole {
        PublishInOrder(s, qos, id, len, now, sent);
      }
    case Enqueue(qos, store, id, len, now) => StoreInOrder(s, qos, id, len, now);
    case ResendQueued(whole) =>
      var i := First(s.items, IsPending(Queued));
      if i >= 0 {
        RemoveInOrder(s.items, i);
      }
    case ResendTransmitted(now, timeout, whole) =>
    case ResendPubrel(now, timeout, whole) =>
  }

  lemma {:induction false} OtherInOrder(s: State, step: Step)
    requires Sound(s) && InOrder(s.items) && !Sending(step)
    ensures InOrder(Next(s, step).items)
  {
    match step
    case ReceivePuback(id) => AckInOrder(s, id);
    case ReceivePubrec(id) => PubrecInOrder(s, id);
    case ReceivePubcomp(id) => AckInOrder(s, id);
    case Expire(now, timeout) => ExpireSound(s, now, timeout);
    case Lose =>
    case Connect =>
    case Stop => StopSound(s);
  }

  lemma {:induction false} PubrecInOrder(s: State, id: nat)
    requires InOrder(s.items)
    ensures InOrder(DoPubrec(s, id).items)
  {
  }

  lemma {:induction false} AckInOrder(s: State, id: nat)
    requires InOrder(s.items)
    ensures InOrder(DoAck(s, id).items)
  {
    var i := First(s.items, HasIdAndKind(id, PUBLISH));
    if i >= 0 {
      RemoveInOrder(s.items, i);
    }
  }

  lemma {:induction false} RunSound(s: State, steps: seq<Step>)
    requires Sound(s) && InOrder(s.items) && FreshRun(s, steps)
    ensures Sound(RunFrom(s, steps)) && InOrder(RunFrom(s, steps).items)
  {
    if steps != [] {
      var t, last := RunFrom(s, steps[..|steps| - 1]), steps[|steps| - 1];
      RunSound(s, steps[..|steps| - 1]);
      StepSound(t, last);
      if Sending(last) {
        SendingInOrder(t, last);
      } else {
        OtherInOrder(t, last);
      }
    }
  }

  // ------------------------------------------------------------------
  // Runs the client can take
  // ------------------------------------------------------------------

  /** The task receives and resends messages only while it is connected. */
  predicate Enabled(s: State, step: Step) {
    step.ResendQueued? || step.ResendTransmitted? || step.ReceivePuback? || step.ReceivePubrec? || step.ReceivePubcomp? ==> s.connected
  }

  predicate LegalRun(s: State, steps: seq<Step>)
    decreases |steps|
  {
    steps == [] || (Fresh(s, steps[0]) && Enabled(s, steps[0]) && LegalRun(Next(s, steps[0]), steps[1..]))
  }

  lemma {:induction false} RunCons(s: State, a: Step, rest: seq<Step>)
    ensures RunFrom(s, [a] + rest) == RunFrom(Next(s, a), rest)
    ensures FreshRun(s, [a] + rest) <==> Fresh(s, a) && FreshRun(Next(s, a), rest)
    decreases |rest|
  {
    var all := [a] + rest;
    if rest == [] {
      assert all[..0] == [];
    } else {
      assert all[..|all| - 1] == [a] + rest[..|rest| - 1];
      RunCons(s, a, rest[..|rest| - 1]);
    }
  }

  lemma {:induction false} LegalIsFresh(s: State, steps: seq<Step>)
    requires LegalRun(s, steps)
    ensures FreshRun(s, steps)
    decreases |steps|
  {
    if steps != [] {
      LegalIsFresh(Next(s, steps[0]), steps[1..]);
      RunCons(s, steps[0], steps[1..]);
      assert steps == [steps[0]] + steps[1..];
    }
  }

  /** Expiry and resending use the configured timeouts, and the clock does not go back. */
  predicate Clocked(steps: seq<Step>, clock: int, expiry: int, resend: int) {
    if steps == [] then true
    else
      match steps[0]
      case Publish(_, _, _, now, sent, _) => clock <= now <= sent && Clocked(steps[1..], sent, expiry, resend)
      case Enqueue(_, _, _, _, now) => clock <= now && Clocked(steps[1..], now, expiry, resend)
      case ResendTransmitted(now, timeout, _) => clock <= now && timeout == resend && Clocked(steps[1..], now, expiry, resend)
      case ResendPubrel(now, timeout, _) => clock <= now && timeout == resend && Clocked(steps[1..], now, expiry, resend)
      case Expire(now, timeout) => clock <= now && timeout == expiry && Clocked(steps[1..], now, expiry, resend)
      case _ => Clocked(steps[1..], clock, expiry, resend)
  }

  /** A continuation that can be taken in state `s` at time `clock`. */
  predicate Possible(s: State, steps: seq<Step>, clock: int, expiry: int, resend: int) {
    LegalRun(s, steps) && Clocked(steps, clock, expiry, resend)
  }

  /** Steps that do not look at the clock. */
  predicate Untimed(steps: seq<Step>) {
    forall k :: 0 <= k < |steps| ==> steps[k].ReceivePuback? || steps[k].ReceivePubrec? || steps[k].ResendQueued? || steps[k].Connect?
  }

  lemma {:induction false} LegalAppend(s: State, a: seq<Step>, b: seq<Step>)
    requires LegalRun(s, a) && LegalRun(RunFrom(s, a), b)
    ensures LegalRun(s, a + b) && RunFrom(s, a + b) == RunFrom(RunFrom(s, a), b)
    decreases |a|
  {
    if a == [] {
      assert a + b == b;
    } else {
      assert a == [a[0]] + a[1..] && a + b == [a[0]] + (a[1..] + b);
      RunCons(s, a[0], a[1..]);
      LegalAppend(Next(s, a[0]), a[1..], b);
      RunCons(s, a[0], a[1..] + b);
      assert (a + b)[1..] == a[1..] + b;
    }
  }

  lemma {:induction false} ClockedAppend(a: seq<Step>, b: seq<Step>, clock: int, expiry: int, resend: int)
    requires Untimed(a) && Clocked(b, clock, expiry, resend)
    ensures Clocked(a + b, clock, expiry, resend)
  {
    if a == [] {
      assert a + b == b;
    } else {
      ClockedAppend(a[1..], b, clock, expiry, resend);
      assert (a + b)[1..] == a[1..] + b;
    }
  }

  lemma {:induction false} PossibleAppend(s: State, a: seq<Step>, b: seq<Step>, clock: int, expiry: int, resend: int)
    requires LegalRun(s, a) && Untimed(a) && Possible(RunFrom(s, a), b, clock, expiry, resend)
    ensures Possible(s, a + b, clock, expiry, resend) && RunFrom(s, a + b) == RunFrom(RunFrom(s, a), b)
  {
    LegalAppend(s, a, b);
    ClockedAppend(a, b, clock, expiry, resend);
  }

  // ------------------------------------------------------------------
  // Two messages with one identifier
  // ------------------------------------------------------------------

  /** Items `i` and `j` are the two with this identifier, and the second one is queued. */
  ghost predicate Twins(items: seq<Item>, i: nat, j: nat, id: nat) {
    && i < j < |items| && id != 0
    && items[i].id == id && items[j].id == id && items[j].pending == Queued
    && items[i].qos > 0 && items[j].qos > 0
    && (forall k :: 0 <= k < |items| ==> items[k].kind == PUBLISH)
    && (forall k :: 0 <= k < |items| && k != i && k != j ==> items[k].id != id)
    && (forall k :: 0 <= k < |items| && k != i ==> items[k].handle != items[i].handle)
  }

  lemma {:induction false} TwinsWithout(items: seq<Item>, i: nat, j: nat, id: nat, r: nat, rest: seq<Item>)
    requires Twins(items, i, j, id) && r != i && r != j && Without(items, r, rest)
    ensures var i', j' := if r < i then i - 1 else i, if r < j then j - 1 else j;
            Twins(rest, i', j', id) && rest[i'] == items[i] && rest[j'] == items[j]
  {
  }

  /** The message of this handle is held under this identifier. */
  ghost predicate Claims(log: seq<Action>, h: nat, id: nat) {
    FateOf(log, h).left == 0 && FateOf(log, h).id == id
  }

  /** The broker acknowledges another message. */
  lemma {:induction false} ClearOne(u: State, i: nat, j: nat, id: nat) returns (x: nat, i': nat, j': nat)
    requires Twins(u.items, i, j, id) && |u.items| > 2 && Claims(u.log, u.items[i].handle, id)
    ensures var v := DoAck(u, x);
            && |v.items| < |u.items| && Twins(v.items, i', j', id) && v.connected == u.connected
            && v.items[i'] == u.items[i] && v.items[j'] == u.items[j] && Claims(v.log, u.items[i].handle, id)
  {
    var k := if i != 0 then 0 else if j != 1 then 1 else 2;
    x := u.items[k].id;
    assert HasIdAndKind(x, PUBLISH)(u.items[k]);
    var r := First(u.items, HasIdAndKind(x, PUBLISH));
    i', j' := if r < i then i - 1 else i, if r < j then j - 1 else j;
    RemoveIsWithout(u.items, r);
    TwinsWithout(u.items, i, j, id, r, RemoveAt(u.items, r));
    AckedOther(u.log, u.items[r].handle, x, u.items[i].handle, id);
  }

  lemma {:induction false} AckedOther(log: seq<Action>, other: nat, x: nat, h: nat, id: nat)
    requires Claims(log, h, id) && other != h
    ensures Claims(log + [Acked(other)] + [Published(x)], h, id)
  {
    LogMore(log, Acked(other), h);
    LogMore(log + [Acked(other)], Published(x), h);
  }

  /** The broker can acknowledge every other message away. */
  lemma {:induction false} ClearOthers(u: State, i: nat, j: nat, id: nat) returns (steps: seq<Step>)
    requires Twins(u.items, i, j, id) && u.connected && Claims(u.log, u.items[i].handle, id)
    ensures LegalRun(u, steps) && Untimed(steps)
    ensures var v := RunFrom(u, steps);
            v.items == [u.items[i], u.items[j]] && v.connected && Claims(v.log, u.items[i].handle, id)
    decreases |u.items|
  {
    if |u.items| == 2 {
      steps := [];
      assert u.items == [u.items[0], u.items[1]];
    } else {
      var x, i', j' := ClearOne(u, i, j, id);
      var others := ClearOthers(DoAck(u, x), i', j', id);
      steps := [ReceivePuback(x)] + others;
      assert steps[1..] == others;
      RunCons(u, ReceivePuback(x), others);
    }
  }

  ghost predicate Pair(s: State, x: Item, y: Item, id: nat) {
    s.items == [x, y] && x.id == id && y.id == id && x.qos > 0 && y.qos > 0
  }

  lemma {:induction false} PairPubrec(s: State, x: Item, y: Item, id: nat)
    requires Pair(s, x, y, id)
    ensures Pair(DoPubrec(s, id), x.(pending := Acknowledged), y, id)
    ensures DoPubrec(s, id).log == s.log + [Marked(x.handle), WrotePubrel(id)]
  {
    assert HasId(id)(s.items[0]);
    assert First(s.items, HasId(id)) == 0;
    assert SetPendingAt(s.items, 0, Acknowledged) == [x.(pending := Acknowledged), y];
  }

  lemma {:induction false} PairResendQueued(s: State, x: Item, y: Item, id: nat)
    requires Pair(s, x, y, id) && x.pending == Acknowledged && y.pending == Queued
    ensures Pair(DoResendQueued(s, true), x.(pending := Transmitted), y, id)
    ensures DoResendQueued(s, true).log == s.log + [Wrote(y.handle, id, false, true)]
  {
    assert IsPending(Queued)(s.items[1]) && !IsPending(Queued)(s.items[0]);
    assert First(s.items, IsPending(Queued)) == 1;
    assert HasId(id)(s.items[0]);
    assert First(s.items, HasId(id)) == 0;
    assert SetPendingAt(s.items, 0, Transmitted) == [x.(pending := Transmitted), y];
  }

  lemma {:induction false} PairExpire(s: State, x: Item, y: Item, now: int, timeout: int)
    requires s.items == [x, y] && now - x.tick <= timeout < now - y.tick
    ensures DoExpire(s, now, timeout) == s.(items := [x], log := s.log + [Expired(y.handle)])
  {
    assert !IsExpired(now, timeout)(s.items[0]) && IsExpired(now, timeout)(s.items[1]);
    assert First(s.items, IsExpired(now, timeout)) == 1;
    var t := Leave(s, 1, Expired(y.handle));
    assert t.items == [x];
    assert First(t.items, IsExpired(now, timeout)) < 0;
  }

  lemma {:induction false} ResendOnly(s: State, x: Item, now: int, timeout: int)
    requires s.items == [x] && x.pending == Transmitted && x.qos > 0 && now - x.tick > timeout
    ensures DoResendTransmitted(s, now, timeout, true).log == s.log + [Wrote(x.handle, x.id, true, true)]
  {
    assert IsPending(Transmitted)(s.items[0]) && !IsPending(Queued)(s.items[0]);
    assert First(s.items, IsPending(Transmitted)) == 0;
  }

  /** The second message expires before the first, which is then resent. */
  function Outlive(expiry: int, resend: int, x: Item, y: Item): seq<Step> {
    var gone := if x.tick > y.tick + expiry + 1 then x.tick else y.tick + expiry + 1;
    var due := if x.tick + resend + 1 > gone then x.tick + resend + 1 else gone;
    [Expire(gone, expiry), ResendTransmitted(due, resend, true)]
  }

  lemma {:induction false} RunTwo(s: State, a: Step, b: Step)
    ensures RunFrom(s, [a, b]) == Next(Next(s, a), b)
    ensures Fresh(s, a) && Enabled(s, a) && Fresh(Next(s, a), b) && Enabled(Next(s, a), b) ==> LegalRun(s, [a, b])
  {
    RunCons(s, a, [b]);
    RunCons(Next(s, a), b, []);
    assert [a] + [b] == [a, b] && [b] + [] == [b] && [a, b][1..] == [b] && [b][1..] == [];
    assert LegalRun(Next(Next(s, a), b), []);
  }

  lemma {:induction false} PairOutlives(s: State, x: Item, y: Item, expiry: nat, resend: nat)
    requires s.items == [x, y] && s.connected && x.pending == Transmitted && x.qos > 0 && y.tick < x.tick
    ensures Possible(s, Outlive(expiry, resend, x, y), x.tick, expiry, resend)
    ensures RunFrom(s, Outlive(expiry, resend, x, y)).log == s.log + [Expired(y.handle), Wrote(x.handle, x.id, true, true)]
  {
    var steps := Outlive(expiry, resend, x, y);
    var a, b := steps[0], steps[1];
    RunTwo(s, a, b);
    assert steps == [a, b] && steps[1..] == [b] && [b][1..] == [];
    PairExpire(s, x, y, a.now, expiry);
    ResendOnly(Next(s, a), x, b.now, resend);
  }

  /** The PUBREC marks the first message, and the second is written under its identifier. */
  function MarkThenSend(id: nat): seq<Step> {
    [ReceivePubrec(id), ResendQueued(true)]
  }

  lemma {:induction false} PairMarked(s: State, x: Item, y: Item, id: nat)
    requires Pair(s, x, y, id) && s.connected && y.pending == Queued
    ensures var t := RunFrom(s, MarkThenSend(id));
            && LegalRun(s, MarkThenSend(id)) && t.items == [x.(pending := Transmitted), y] && t.connected
            && t.log == s.log + [Marked(x.handle), WrotePubrel(id), Wrote(y.handle, id, false, true)]
  {
    RunTwo(s, ReceivePubrec(id), ResendQueued(true));
    PairPubrec(s, x, y, id);
    PairResendQueued(DoPubrec(s, id), x.(pending := Acknowledged), y, id);
  }

  lemma {:induction false} ClaimedWrite(log: seq<Action>, x: nat, y: nat, id: nat)
    requires Claims(log, x, id) && id != 0
    ensures !Safe(log + [Marked(x)] + [WrotePubrel(id)] + [Wrote(y, id, false, true)])
  {
    var a, b := Marked(x), WrotePubrel(id);
    LogMore(log, a, x);
    LogMore(log + [a], b, x);
    LogMore(log + [a] + [b], Wrote(y, id, false, true), x);
    assert !Unclaimed(log + [a] + [b], id);
  }

  /** With two messages of one identifier held, some run writes one of them while the other is
      marked. */
  lemma {:induction false} PairUnsafe(s: State, x: Item, y: Item, id: nat)
    requires Pair(s, x, y, id) && s.connected && y.pending == Queued && id != 0 && Claims(s.log, x.handle, id)
    ensures !Safe(RunFrom(s, MarkThenSend(id)).log)
  {
    PairMarked(s, x, y, id);
    ClaimedWrite(s.log, x.handle, y.handle, id);
    assert RunFrom(s, MarkThenSend(id)).log
        == s.log + [Marked(x.handle)] + [WrotePubrel(id)] + [Wrote(y.handle, id, false, true)];
  }

  /** Connect and have everything else acknowledged. */
  lemma {:induction false} Isolate(u: State, i: nat, j: nat, id: nat) returns (steps: seq<Step>)
    requires Twins(u.items, i, j, id) && Claims(u.log, u.items[i].handle, id)
    ensures LegalRun(u, steps) && Untimed(steps)
    ensures var v := RunFrom(u, steps);
            v.items == [u.items[i], u.items[j]] && v.connected && Claims(v.log, u.items[i].handle, id)
  {
    var clear := ClearOthers(u.(connected := true), i, j, id);
    steps := [Connect] + clear;
    assert steps[1..] == clear;
    RunCons(u, Connect, clear);
  }

  lemma {:induction false} TwinsUnsafe(u: State, i: nat, j: nat, id: nat) returns (steps: seq<Step>)
    requires Twins(u.items, i, j, id) && Claims(u.log, u.items[i].handle, id)
    ensures LegalRun(u, steps) && !Safe(RunFrom(u, steps).log)
  {
    var alone := Isolate(u, i, j, id);
    var v := RunFrom(u, alone);
    PairMarked(v, u.items[i], u.items[j], id);
    PairUnsafe(v, u.items[i], u.items[j], id);
    steps := alone + MarkThenSend(id);
    LegalAppend(u, alone, MarkThenSend(id));
  }

  /** If the second of the two is the older one, some run publishes the first again behind its
      mark, with any timeouts and a clock that does not go back. */
  lemma {:induction false} TwinsRepublished(u: State, i: nat, j: nat, id: nat, expiry: nat, resend: nat) returns (steps: seq<Step>)
    requires Twins(u.items, i, j, id) && Claims(u.log, u.items[i].handle, id) && u.items[j].tick < u.items[i].tick
    ensures Possible(u, steps, u.items[i].tick, expiry, resend) && !NoRepublish(RunFrom(u, steps).log)
  {
    var x, y := u.items[i], u.items[j];
    var alone := Isolate(u, i, j, id);
    var v := RunFrom(u, alone);
    PairMarked(v, x, y, id);
    var w, x' := RunFrom(v, MarkThenSend(id)), x.(pending := Transmitted);
    var last := Outlive(expiry, resend, x', y);
    PairOutlives(w, x', y, expiry, resend);
    PossibleAppend(v, MarkThenSend(id), last, x.tick, expiry, resend);
    PossibleAppend(u, alone, MarkThenSend(id) + last, x.tick, expiry, resend);
    steps := alone + (MarkThenSend(id) + last);
    var log, n := RunFrom(u, steps).log, |v.log|;
    assert log[n] == Marked(x.handle) && log[n + 4] == Wrote(x.handle, id, true, true);
  }

  // ------------------------------------------------------------------
  // Exactly when reuse does harm
  // ------------------------------------------------------------------

  /** A message of QoS 1 or 2 is stored, published or only enqueued. */
  predicate Storing(step: Step) {
    (step.Publish? || step.Enqueue?) && step.qos > 0 && step.id != 0
  }

  /** Storing a message under an identifier in flight makes twins. */
  lemma {:induction false} StoreTwins(s: State, qos: nat, id: nat, len: nat, now: int, i: nat)
    requires Inv(s) && qos > 0 && id != 0 && i < |s.items| && s.items[i].id == id
    ensures Twins(Store(s, qos, id, len, now).items, i, |s.items|, id)
    ensures Claims(Store(s, qos, id, len, now).log, s.items[i].handle, id)
  {
    assert ItemOk(s.log, s.items[i]);
    LogMore(s.log, Stored(s.next, id, qos), s.items[i].handle);
  }

  /** The tick of the first item with the identifier, once the message is stored. */
  function LeadTick(s: State, step: Step): int
    requires Storing(step) && !Fresh(s, step)
  {
    if step.Publish? && s.connected && step.whole then step.sent else s.items[First(s.items, HasId(step.id))].tick
  }

  /** The items once the message is stored. */
  lemma {:induction false} CollisionTwins(s: State, step: Step) returns (i: nat)
    requires Inv(s) && Storing(step) && !Fresh(s, step)
    ensures i < |s.items| && s.items[i].id == step.id
    ensures var items := Next(s, step).items;
            && |items| == |s.items| + 1 && Twins(items, i, |s.items|, step.id) && items[i].handle == s.items[i].handle
            && items[i].tick == LeadTick(s, step) && items[|s.items|].tick == step.now
  {
    i := First(s.items, HasId(step.id));
    StoreTwins(s, step.qos, step.id, step.len, step.now, i);
    if step.Publish? && s.connected && step.whole {
      PublishSets(s, step.qos, step.id, step.len, step.now, step.sent);
      TwinsTicked(Store(s, step.qos, step.id, step.len, step.now).items, i, |s.items|, step.id, step.sent);
    }
  }

  lemma {:induction false} TwinsTicked(items: seq<Item>, i: nat, j: nat, id: nat, tick: int)
    requires Twins(items, i, j, id)
    ensures Twins(items[i := items[i].(tick := tick, pending := Transmitted)], i, j, id)
  {
  }

  lemma {:induction false} CollisionClaims(s: State, step: Step, i: nat)
    requires Inv(s) && Storing(step) && i < |s.items| && s.items[i].id == step.id
    ensures Claims(Next(s, step).log, s.items[i].handle, step.id)
  {
    StoreTwins(s, step.qos, step.id, step.len, step.now, i);
    if step.Publish? && s.connected {
      var t := Store(s, step.qos, step.id, step.len, step.now);
      LogMore(t.log, Wrote(s.next, step.id, false, step.whole), s.items[i].handle);
    }
  }

  /** The identifier of a message is fresh exactly when every run behind it is safe: otherwise
      there is one that writes a PUBLISH under an identifier whose message is marked. */
  lemma {:induction false} CollisionExact(s: State, step: Step)
    requires Inv(s) && Storing(step)
    ensures Fresh(s, step) <==> forall steps :: LegalRun(Next(s, step), steps) ==> Safe(RunFrom(Next(s, step), steps).log)
  {
    var t := Next(s, step);
    if Fresh(s, step) {
      StepKeeps(s, step);
      forall steps | LegalRun(t, steps) ensures Safe(RunFrom(t, steps).log) {
        LegalIsFresh(t, steps);
        RunKeeps(t, steps);
      }
    } else {
      var i := CollisionTwins(s, step);
      CollisionClaims(s, step, i);
      var steps := TwinsUnsafe(t, i, |s.items|, step.id);
    }
  }

  lemma {:induction false} TwinsInOrder(items: seq<Item>, i: nat, j: nat, id: nat)
    requires Twins(items, i, j, id) && items[i].tick <= items[j].tick
    requires forall a, b :: 0 <= a < b < |items| && items[a].id == items[b].id ==> items[a].id == 0 || items[a].id == id
    ensures InOrder(items)
  {
  }

  /** A message whose identifier is in flight makes a marked message be published again, in some
      run behind it, exactly when the first item with the identifier then has a later tick than
      the new one. With a clock that does not go back that is: it was published while connected,
      and the clock moved while it was written. The timeouts do not matter. */
  lemma {:induction false} RepublishExact(s: State, step: Step, expiry: nat, resend: nat)
    requires Inv(s) && Storing(step) && !Fresh(s, step)
    ensures var t := Next(s, step);
            LeadTick(s, step) <= step.now
            <==> forall steps :: Possible(t, steps, LeadTick(s, step), expiry, resend) ==> NoRepublish(RunFrom(t, steps).log)
    ensures var t := Next(s, step);
            LeadTick(s, step) <= step.now <==> forall steps :: LegalRun(t, steps) ==> NoRepublish(RunFrom(t, steps).log)
  {
    var t := Next(s, step);
    var i := CollisionTwins(s, step);
    if LeadTick(s, step) <= step.now {
      InvSound(s);
      StepSound(s, step);
      CollisionInOrder(s, step, i);
      forall steps | LegalRun(t, steps) ensures NoRepublish(RunFrom(t, steps).log) {
        LegalIsFresh(t, steps);
        RunSound(t, steps);
      }
    } else {
      CollisionClaims(s, step, i);
      var steps := TwinsRepublished(t, i, |s.items|, step.id, expiry, resend);
    }
  }

  lemma {:induction false} CollisionInOrder(s: State, step: Step, i: nat)
    requires Inv(s) && Storing(step) && !Fresh(s, step)
    requires Twins(Next(s, step).items, i, |s.items|, step.id) && |Next(s, step).items| == |s.items| + 1
    requires Next(s, step).items[i].tick <= Next(s, step).items[|s.items|].tick
    ensures InOrder(Next(s, step).items)
  {
    var items := Next(s, step).items;
    forall k | 0 <= k < |s.items| ensures items[k].id == s.items[k].id {
      if step.Publish? && s.connected && step.whole {
        PublishSets(s, step.qos, step.id, step.len, step.now, step.sent);
      }
    }
    TwinsInOrder(items, i, |s.items|, step.id);
  }

  // ------------------------------------------------------------------
  // Two runs with a reused identifier
  // ------------------------------------------------------------------

  const LINKED := INITIAL.(connected := true)

  lemma {:induction false} OnlyItem(items: seq<Item>, x: Item, y: Item)
    requires items == []
    ensures items + [x] == [x] && [x][0 := y] == [y] && Target(items, x.id) == 0
  {
  }

  lemma {:induction false} FirstPublish(s: State, id: nat, len: nat)
    requires s.items == [] && s.connected
    ensures DoPublish(s, 2, id, len, 0, 0, true).items == [Item(s.next, id, PUBLISH, 2, 0, len, Transmitted)]
  {
    var x := Item(s.next, id, PUBLISH, 2, 0, len, Queued);
    PublishSets(s, 2, id, len, 0, 0);
    OnlyItem(s.items, x, x.(tick := 0, pending := Transmitted));
  }

  lemma {:induction false} SecondPublish(s: State, x: Item, len: nat)
    requires s.items == [x] && s.connected
    ensures var t := DoPublish(s, 2, x.id, len, 1, 2, true);
            t.items == [x.(tick := 2, pending := Transmitted), Item(s.next, x.id, PUBLISH, 2, 1, len, Queued)] && t.connected
  {
    PublishSets(s, 2, x.id, len, 1, 2);
    assert HasId(x.id)(s.items[0]);
    assert Target(s.items, x.id) == 0;
  }

  lemma {:induction false} OnlyPubrec(s: State, x: Item)
    requires s.items == [x]
    ensures var t := DoPubrec(s, x.id);
            t.items == [x.(pending := Acknowledged)] && t.connected == s.connected && t.next == s.next && Marked(x.handle) in t.log
  {
    assert HasId(x.id)(s.items[0]);
    assert First(s.items, HasId(x.id)) == 0;
    assert DoPubrec(s, x.id).log == s.log + [Marked(x.handle)] + [WrotePubrel(x.id)];
    assert DoPubrec(s, x.id).log[|s.log|] == Marked(x.handle);
  }

  /** A message is published and marked, and another is published under its identifier, which
      takes from tick 1 to tick 2. */
  function MarkedOnce(id: nat, len: nat): State {
    DoPubrec(DoPublish(LINKED, 2, id, len, 0, 0, true), id)
  }

  function UsedAgain(id: nat, len: nat): State {
    DoPublish(MarkedOnce(id, len), 2, id, len, 1, 2, true)
  }

  lemma {:induction false} ReuseState(id: nat, len: nat)
    requires id != 0
    ensures Marked(0) in MarkedOnce(id, len).log
    ensures UsedAgain(id, len).connected
    ensures UsedAgain(id, len).items == [Item(0, id, PUBLISH, 2, 2, len, Transmitted), Item(1, id, PUBLISH, 2, 1, len, Queued)]
  {
    var s1 := DoPublish(LINKED, 2, id, len, 0, 0, true);
    FirstPublish(LINKED, id, len);
    OnlyPubrec(s1, s1.items[0]);
    SecondPublish(MarkedOnce(id, len), MarkedOnce(id, len).items[0], len);
  }

  /** The first message, marked, is set back, outlives the second and is published again. */
  lemma {:induction false} ReusedIdentifierBreaksQos2(id: nat, len: nat, expiry: nat, resend: nat)
    requires id != 0
    ensures Marked(0) in MarkedOnce(id, len).log
    ensures |UsedAgain(id, len).items| == 2
    ensures var t := UsedAgain(id, len);
            var steps := Outlive(expiry, resend, t.items[0], t.items[1]);
            && Possible(t, steps, 2, expiry, resend)
            && RunFrom(t, steps).log == t.log + [Expired(1), Wrote(0, id, true, true)]
  {
    ReuseState(id, len);
    var t := UsedAgain(id, len);
    PairOutlives(t, t.items[0], t.items[1], expiry, resend);
  }

  /** The identifier is used again before the first message is marked: the PUBREC that comes later
      marks the first, and the second is written under its identifier. */
  lemma {:induction false} UnmarkedReuseBreaksQos2(id: nat, len: nat)
    requires id != 0
    ensures var s := DoPublish(DoPublish(LINKED, 2, id, len, 0, 0, true), 2, id, len, 1, 2, true);
            && LegalRun(s, MarkThenSend(id))
            && RunFrom(s, MarkThenSend(id)).log == s.log + [Marked(0), WrotePubrel(id), Wrote(1, id, false, true)]
  {
    var s1 := DoPublish(LINKED, 2, id, len, 0, 0, true);
    FirstPublish(LINKED, id, len);
    SecondPublish(s1, s1.items[0], len);
    var s := DoPublish(s1, 2, id, len, 1, 2, true);
    PairMarked(s, s.items[0], s.items[1], id);
  }
}
