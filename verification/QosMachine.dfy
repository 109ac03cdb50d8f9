/** The publishing side of QoS 0, 1 and 2 as a state machine. A step is what one holder of the
    API lock does; the broker, the clock and the link are arbitrary. */
module QosMachine {
  import opened MqttKinds
  import opened Outbox

  /** What a step leaves in the history: packets written, items marked by a PUBREC, PUBLISHED
      events, and the comings and goings of outbox items, named by their handles. */
  datatype Action =
    | Stored(handle: nat, id: nat, qos: nat)
    | Wrote(handle: nat, id: nat, dup: bool, whole: bool)
    | WroteUnstored(whole: bool)
    | WrotePubrel(id: nat)
    | Marked(handle: nat)
    | Acked(handle: nat)
    | Published(id: nat)
    | SentOnce(handle: nat)
    | Expired(handle: nat)
    | Dropped(handle: nat)

  datatype State = State(items: seq<Item>, next: nat, connected: bool, log: seq<Action>)

  const INITIAL := State([], 0, false, [])

  /** `whole` is false when the transport failed before the packet was out. A publish stores the
      message at `now` and is done writing at `sent`. */
  datatype Step =
    | Publish(qos: nat, id: nat, len: nat, now: int, sent: int, whole: bool)
    | Enqueue(qos: nat, store: bool, id: nat, len: nat, now: int)
    | ResendQueued(whole: bool)
    | ResendTransmitted(now: int, timeout: int, whole: bool)
    | ResendPubrel(now: int, timeout: int, whole: bool)
    | ReceivePuback(id: nat)
    | ReceivePubrec(id: nat)
    | ReceivePubcomp(id: nat)
    | Expire(now: int, timeout: int)
    | Lose
    | Connect
    | Stop

  // ------------------------------------------------------------------
  // Steps
  // ------------------------------------------------------------------

  function Log(s: State, a: Action): State {
    s.(log := s.log + [a])
  }

  function Store(s: State, qos: nat, id: nat, len: nat, now: int): State {
    var own := if qos > 0 then id else 0;
    Log(s.(items := s.items + [Item(s.next, own, PUBLISH, qos, now, len, Queued)], next := s.next + 1),
        Stored(s.next, own, qos))
  }

  function SetPendingOf(s: State, id: nat, pending: Pending): State {
    s.(items := SetPendingAt(s.items, First(s.items, HasId(id)), pending))
  }

  function SetTickOf(s: State, id: nat, tick: int): State {
    s.(items := SetTickAt(s.items, First(s.items, HasId(id)), tick))
  }

  function Leave(s: State, i: nat, a: Action): State
    requires i < |s.items|
  {
    Log(s.(items := RemoveAt(s.items, i)), a)
  }

  /** `esp_mqtt_client_publish`. */
  function DoPublish(s: State, qos: nat, id: nat, len: nat, now: int, sent: int, whole: bool): State {
    if qos == 0 then
      if s.connected then Log(s, WroteUnstored(whole)).(connected := whole) else s
    else
      var stored := Store(s, qos, id, len, now);
      if !s.connected then stored
      else
        var written := Log(stored, Wrote(s.next, id, false, whole)).(connected := whole);
        if whole then SetPendingOf(SetTickOf(written, id, sent), id, Transmitted) else written
  }

  /** The queued branch of `esp_mqtt_task`. */
  function DoResendQueued(s: State, whole: bool): State {
    var i := First(s.items, IsPending(Queued));
    if i < 0 then s
    else
      var item := s.items[i];
      var written := Log(s, Wrote(item.handle, item.id, item.qos > 0 && item.pending == Transmitted, whole)).(connected := whole);
      if !whole then written
      else if item.qos == 0 then Leave(written, i, SentOnce(item.handle))
      else SetPendingOf(written, item.id, Transmitted)
  }

  /** The first item in the given state, if it is old enough. */
  function Aged(s: State, pending: Pending, now: int, timeout: int): (i: int)
    ensures -1 <= i < |s.items|
    ensures i >= 0 ==> s.items[i].pending == pending
  {
    var i := First(s.items, IsPending(pending));
    if i >= 0 && now - s.items[i].tick > timeout then i else -1
  }

  /** Nothing waits to be sent for the first time. Only then does the task resend. */
  predicate NoneQueued(items: seq<Item>) {
    First(items, IsPending(Queued)) < 0
  }

  function DoResendTransmitted(s: State, now: int, timeout: int, whole: bool): State {
    var i := Aged(s, Transmitted, now, timeout);
    if i < 0 || !NoneQueued(s.items) then s
    else
      var item := s.items[i];
      Log(s, Wrote(item.handle, item.id, item.qos > 0 && item.pending == Transmitted, whole)).(connected := whole)
  }

  function DoResendPubrel(s: State, now: int, timeout: int, whole: bool): State {
    var i := Aged(s, Acknowledged, now, timeout);
    if i < 0 || !NoneQueued(s.items) then s else Log(s, WrotePubrel(s.items[i].id)).(connected := whole)
  }

  /** PUBACK and PUBCOMP. */
  function DoAck(s: State, id: nat): State {
    var i := First(s.items, HasIdAndKind(id, PUBLISH));
    if i < 0 then s else Log(Leave(s, i, Acked(s.items[i].handle)), Published(id))
  }

  function DoPubrec(s: State, id: nat): State {
    var i := First(s.items, HasId(id));
    if i < 0 then Log(s, WrotePubrel(id))
    else Log(Log(SetPendingOf(s, id, Acknowledged), Marked(s.items[i].handle)), WrotePubrel(id))
  }

  /** Expired items leave one after the other, first to last. */
  function DoExpire(s: State, now: int, timeout: int): State
    decreases |s.items|
  {
    var i := First(s.items, IsExpired(now, timeout));
    if i < 0 then s else DoExpire(Leave(s, i, Expired(s.items[i].handle)), now, timeout)
  }

  function DoStop(s: State): State
    decreases |s.items|
  {
    if s.items == [] then s.(connected := false) else DoStop(Leave(s, 0, Dropped(s.items[0].handle)))
  }

  function Next(s: State, step: Step): State {
    match step
    case Publish(qos, id, len, now, sent, whole) => DoPublish(s, qos, id, len, now, sent, whole)
    case Enqueue(qos, store, id, len, now) => if qos > 0 || store then Store(s, qos, id, len, now) else s
    case ResendQueued(whole) => DoResendQueued(s, whole)
    case ResendTransmitted(now, timeout, whole) => DoResendTransmitted(s, now, timeout, whole)
    case ResendPubrel(now, timeout, whole) => DoResendPubrel(s, now, timeout, whole)
    case ReceivePuback(id) => DoAck(s, id)
    case ReceivePubrec(id) => DoPubrec(s, id)
    case ReceivePubcomp(id) => DoAck(s, id)
    case Expire(now, timeout) => DoExpire(s, now, timeout)
    case Lose => s.(connected := false)
    case Connect => s.(connected := true)
    case Stop => DoStop(s)
  }

  /** The identifier chosen for a message is not 0 and not in flight. */
  predicate Fresh(s: State, step: Step) {
    && (step.Publish? && step.qos > 0 ==> step.id != 0 && First(s.items, HasId(step.id)) < 0)
    && (step.Enqueue? && step.qos > 0 ==> step.id != 0 && First(s.items, HasId(step.id)) < 0)
  }

  function RunFrom(s: State, steps: seq<Step>): State {
    if steps == [] then s else Next(RunFrom(s, steps[..|steps| - 1]), steps[|steps| - 1])
  }

  /** Every step of the run chose a fresh identifier. */
  predicate FreshRun(s: State, steps: seq<Step>) {
    steps == [] || (FreshRun(s, steps[..|steps| - 1]) && Fresh(RunFrom(s, steps[..|steps| - 1]), steps[|steps| - 1]))
  }

  // ------------------------------------------------------------------
  // What the history says about one message
  // ------------------------------------------------------------------

  datatype Fate = Fate(stored: nat, id: nat, qos: nat, transmitted: bool, marked: bool, left: nat)

  const UNKNOWN := Fate(0, 0, 0, false, false, 0)

  function After(f: Fate, a: Action, h: nat): Fate {
    match a
    case Stored(x, id, qos) => if x == h then f.(stored := f.stored + 1, id := id, qos := qos) else f
    case Wrote(x, _, _, whole) => if x == h && whole then f.(transmitted := true) else f
    case Marked(x) => if x == h then f.(marked := true) else f
    case Acked(x) => if x == h then f.(left := f.left + 1) else f
    case SentOnce(x) => if x == h then f.(left := f.left + 1) else f
    case Expired(x) => if x == h then f.(left := f.left + 1) else f
    case Dropped(x) => if x == h then f.(left := f.left + 1) else f
    case WroteUnstored(_) => f
    case WrotePubrel(_) => f
    case Published(_) => f
  }

  function FateOf(log: seq<Action>, h: nat): Fate {
    if log == [] then UNKNOWN else After(FateOf(log[..|log| - 1], h), log[|log| - 1], h)
  }

  /** No event is due: the last entry is not an acknowledgement. */
  predicate Settled(log: seq<Action>) {
    log == [] || !log[|log| - 1].Acked?
  }

  /** No message that a PUBREC has marked and that has not left has this identifier. */
  ghost predicate Unclaimed(log: seq<Action>, id: nat) {
    forall h: nat :: FateOf(log, h).marked && FateOf(log, h).left == 0 && FateOf(log, h).id == id ==> id == 0
  }

  /** A PUBLISH is written only for a message no PUBREC has marked, with its own identifier,
      which no marked message holds, and its DUP flag tells whether the message went out in
      full before. Only QoS 0 messages leave by being sent. A PUBLISHED event comes right after
      the acknowledgement of a message, with its identifier, and never else. */
  ghost predicate Allowed(log: seq<Action>, a: Action) {
    && (a.Wrote? ==>
          && !FateOf(log, a.handle).marked && a.dup == FateOf(log, a.handle).transmitted
          && a.id == FateOf(log, a.handle).id && Unclaimed(log, a.id))
    && (a.Acked? || a.SentOnce? ==> FateOf(log, a.handle).stored == 1)
    && (a.SentOnce? ==> FateOf(log, a.handle).qos == 0)
    && (if a.Published? then !Settled(log) && FateOf(log, log[|log| - 1].handle).id == a.id else Settled(log))
  }

  ghost predicate Safe(log: seq<Action>) {
    log == [] || (Safe(log[..|log| - 1]) && Allowed(log[..|log| - 1], log[|log| - 1]))
  }

  lemma {:induction false} LogMore(log: seq<Action>, a: Action, h: nat)
    ensures FateOf(log + [a], h) == After(FateOf(log, h), a, h)
    ensures Safe(log + [a]) <==> Safe(log) && Allowed(log, a)
    ensures Settled(log + [a]) <==> !a.Acked?
  {
    assert (log + [a])[..|log|] == log;
  }

  // ------------------------------------------------------------------
  // The invariant
  // ------------------------------------------------------------------

  /** Identifiers of QoS 1 and 2 messages are not 0 and differ; QoS 0 messages have 0. */
  ghost predicate DistinctIds(items: seq<Item>) {
    && (forall i :: 0 <= i < |items| ==> items[i].kind == PUBLISH && (items[i].qos == 0 <==> items[i].id == 0))
    && (forall i, j :: 0 <= i < j < |items| ==> items[i].id == items[j].id ==> items[i].id == 0)
  }

  /** An item in the outbox has not left, and its state is what its history says. */
  ghost predicate ItemOk(log: seq<Action>, x: Item) {
    var f := FateOf(log, x.handle);
    && f.stored == 1 && f.left == 0 && f.id == x.id && f.qos == x.qos
    && (f.marked <==> x.pending == Acknowledged)
    && (x.pending == Transmitted ==> f.transmitted && x.qos > 0)
    && (x.pending == Queued ==> !f.transmitted)
  }

  ghost predicate Held(items: seq<Item>, h: nat) {
    exists i :: 0 <= i < |items| && items[i].handle == h
  }

  /** Every message ever stored is held, or has left exactly once. */
  ghost predicate Accounted(s: State, h: nat) {
    if h >= s.next then FateOf(s.log, h) == UNKNOWN
    else FateOf(s.log, h).stored == 1 && FateOf(s.log, h).left == if Held(s.items, h) then 0 else 1
  }

  ghost predicate Inv(s: State) {
    && Ordered(s.items, s.next)
    && DistinctIds(s.items)
    && (forall i :: 0 <= i < |s.items| ==> ItemOk(s.log, s.items[i]))
    && (forall h: nat :: Accounted(s, h))
    && Safe(s.log) && Settled(s.log)
  }

  lemma {:induction false} InitialInv()
    ensures Inv(INITIAL)
  {
  }

  // ------------------------------------------------------------------
  // Building blocks of steps
  // ------------------------------------------------------------------

  /** An action that concerns no stored message. */
  predicate Neutral(a: Action) {
    a.WroteUnstored? || a.WrotePubrel?
  }

  lemma {:induction false} LogNeutral(s: State, a: Action)
    requires Inv(s) && Neutral(a)
    ensures Inv(Log(s, a))
  {
    var t := Log(s, a);
    forall h: nat ensures FateOf(t.log, h) == FateOf(s.log, h) {
      LogMore(s.log, a, h);
    }
    LogMore(s.log, a, 0);
    forall h: nat ensures Accounted(t, h) {
      assert Accounted(s, h);
    }
  }

  lemma {:induction false} ConnectedOnly(s: State, c: bool)
    requires Inv(s)
    ensures Inv(s.(connected := c))
  {
    var t := s.(connected := c);
    forall h: nat ensures Accounted(t, h) {
      assert Accounted(s, h);
    }
  }

  lemma {:induction false} StoreKeeps(s: State, qos: nat, id: nat, len: nat, now: int)
    requires Inv(s) && (qos > 0 ==> id != 0 && First(s.items, HasId(id)) < 0)
    ensures Inv(Store(s, qos, id, len, now))
  {
    var t := Store(s, qos, id, len, now);
    var a := t.log[|s.log|];
    assert Accounted(s, s.next);
    LogMore(s.log, a, s.next);
    forall i | 0 <= i < |t.items| ensures ItemOk(t.log, t.items[i]) {
      LogMore(s.log, a, t.items[i].handle);
      if i < |s.items| {
        assert ItemOk(s.log, s.items[i]);
      }
    }
    forall h: nat ensures Accounted(t, h) {
      LogMore(s.log, a, h);
      assert Accounted(s, h);
      HeldAppend(s.items, t.items[|s.items|], h);
    }
  }

  lemma {:induction false} HeldAppend(items: seq<Item>, x: Item, h: nat)
    ensures Held(items + [x], h) <==> Held(items, h) || x.handle == h
  {
    var all := items + [x];
    if Held(items, h) {
      var i :| 0 <= i < |items| && items[i].handle == h;
      assert all[i].handle == h;
    }
    if x.handle == h {
      assert all[|items|].handle == h;
    }
  }

  lemma {:induction false} HeldRemove(items: seq<Item>, next: nat, i: nat, h: nat)
    requires Ordered(items, next) && i < |items|
    ensures Held(RemoveAt(items, i), h) <==> Held(items, h) && h != items[i].handle
  {
    var rest := RemoveAt(items, i);
    if Held(items, h) && h != items[i].handle {
      var j :| 0 <= j < |items| && items[j].handle == h;
      assert rest[if j < i then j else j - 1].handle == h;
    }
    if Held(rest, h) {
      var j :| 0 <= j < |rest| && rest[j].handle == h;
      var k := if j < i then j else j + 1;
      assert items[k].handle == h;
    }
  }

  predicate Leaving(a: Action, h: nat) {
    (a.Expired? || a.Dropped?) && a.handle == h
  }

  lemma {:induction false} RemoveIndex(items: seq<Item>, i: nat, j: nat)
    requires i < |items| && j < |items| - 1
    ensures RemoveAt(items, i)[j] == items[if j < i then j else j + 1]
  {
  }

  lemma {:induction false} RemoveOrdered(items: seq<Item>, next: nat, i: nat)
    requires Ordered(items, next) && DistinctIds(items) && i < |items|
    ensures Ordered(RemoveAt(items, i), next) && DistinctIds(RemoveAt(items, i))
  {
    var rest := RemoveAt(items, i);
    forall j | 0 <= j < |rest| ensures rest[j] == items[if j < i then j else j + 1] {
      RemoveIndex(items, i, j);
    }
  }

  /** The items behind a removal are as they were, if the history says the same about them. */
  lemma {:induction false} RemoveItemsOk(s: State, i: nat, log: seq<Action>)
    requires Inv(s) && i < |s.items|
    requires forall h: nat :: h != s.items[i].handle ==> FateOf(log, h) == FateOf(s.log, h)
    ensures forall j :: 0 <= j < |s.items| - 1 ==> ItemOk(log, RemoveAt(s.items, i)[j])
  {
    forall j | 0 <= j < |s.items| - 1 ensures ItemOk(log, RemoveAt(s.items, i)[j]) {
      RemoveIndex(s.items, i, j);
      var k := if j < i then j else j + 1;
      assert ItemOk(s.log, s.items[k]) && s.items[k].handle != s.items[i].handle;
    }
  }

  /** Removing item `i` is accounted for by a history in which it has left. */
  lemma {:induction false} RemoveKeeps(s: State, i: nat, log: seq<Action>)
    requires Inv(s) && i < |s.items| && Safe(log) && Settled(log)
    requires forall h: nat :: h != s.items[i].handle ==> FateOf(log, h) == FateOf(s.log, h)
    requires FateOf(log, s.items[i].handle).stored == 1 && FateOf(log, s.items[i].handle).left == 1
    ensures Inv(s.(items := RemoveAt(s.items, i), log := log))
  {
    var t := s.(items := RemoveAt(s.items, i), log := log);
    RemoveOrdered(s.items, s.next, i);
    RemoveItemsOk(s, i, log);
    forall h: nat ensures Accounted(t, h) {
      assert Accounted(s, h);
      HeldRemove(s.items, s.next, i, h);
    }
  }

  lemma {:induction false} LeaveKeeps(s: State, i: nat, a: Action)
    requires Inv(s) && i < |s.items| && Leaving(a, s.items[i].handle)
    ensures Inv(Leave(s, i, a))
  {
    assert ItemOk(s.log, s.items[i]);
    forall h: nat ensures FateOf(s.log + [a], h) == After(FateOf(s.log, h), a, h) {
      LogMore(s.log, a, h);
    }
    LogMore(s.log, a, 0);
    RemoveKeeps(s, i, s.log + [a]);
  }

  /** Item `i` replaced by one that differs in state or tick only, with an action about it. */
  ghost predicate Touches(s: State, i: nat, x: Item, a: Action) {
    && i < |s.items|
    && x == s.items[i].(pending := x.pending, tick := x.tick)
    && (a.Wrote? || a.Marked?) && a.handle == x.handle
  }

  lemma {:induction false} TouchKeeps(s: State, i: nat, x: Item, a: Action)
    requires Inv(s) && Touches(s, i, x, a) && Allowed(s.log, a) && ItemOk(s.log + [a], x)
    ensures Inv(Log(s.(items := s.items[i := x]), a))
  {
    var t := Log(s.(items := s.items[i := x]), a);
    forall j | 0 <= j < |t.items| ensures ItemOk(t.log, t.items[j]) {
      if j != i {
        assert ItemOk(s.log, s.items[j]) && s.items[j].handle != x.handle;
        LogMore(s.log, a, s.items[j].handle);
      }
    }
    forall h: nat ensures Accounted(t, h) {
      assert Accounted(s, h);
      LogMore(s.log, a, h);
      HeldUpdate(s.items, i, x, h);
    }
    LogMore(s.log, a, 0);
  }

  lemma {:induction false} HeldUpdate(items: seq<Item>, i: nat, x: Item, h: nat)
    requires i < |items| && x.handle == items[i].handle
    ensures Held(items[i := x], h) <==> Held(items, h)
  {
    if Held(items, h) {
      var j :| 0 <= j < |items| && items[j].handle == h;
      assert items[i := x][j].handle == h;
    }
  }

  // ------------------------------------------------------------------
  // Every step keeps the invariant
  // ------------------------------------------------------------------

  /** A message that is still to be published shares its identifier with no marked one. */
  lemma {:induction false} NotClaimed(s: State, i: nat)
    requires Inv(s) && i < |s.items| && s.items[i].pending != Acknowledged
    ensures Unclaimed(s.log, s.items[i].id)
  {
    forall h: nat | FateOf(s.log, h).marked && FateOf(s.log, h).left == 0 && FateOf(s.log, h).id == s.items[i].id
      ensures s.items[i].id == 0
    {
      assert Accounted(s, h);
      var k :| 0 <= k < |s.items| && s.items[k].handle == h;
      assert ItemOk(s.log, s.items[k]);
      assert k != i;
    }
  }

  /** Writing item `i` in full or in part, and what becomes of its state. */
  lemma {:induction false} WriteKeeps(s: State, i: nat, whole: bool, x: Item)
    requires Inv(s) && i < |s.items| && s.items[i].pending != Acknowledged
    requires x == s.items[i].(pending := x.pending, tick := x.tick)
    requires x.pending == if whole && s.items[i].qos > 0 then Transmitted else s.items[i].pending
    requires whole ==> s.items[i].qos > 0
    ensures var y := s.items[i];
            Inv(Log(s.(items := s.items[i := x]), Wrote(y.handle, y.id, y.qos > 0 && y.pending == Transmitted, whole)))
  {
    var y := s.items[i];
    var a := Wrote(y.handle, y.id, y.qos > 0 && y.pending == Transmitted, whole);
    assert ItemOk(s.log, y);
    LogMore(s.log, a, y.handle);
    NotClaimed(s, i);
    TouchKeeps(s, i, x, a);
  }

  lemma {:induction false} FirstIsOnly(items: seq<Item>, i: nat)
    requires DistinctIds(items) && i < |items| && items[i].id != 0
    ensures First(items, HasId(items[i].id)) == i
  {
    assert HasId(items[i].id)(items[i]);
  }

  lemma {:induction false} ResendQueuedKeeps(s: State, whole: bool)
    requires Inv(s)
    ensures Inv(DoResendQueued(s, whole))
  {
    var i := First(s.items, IsPending(Queued));
    if i >= 0 {
      var item := s.items[i];
      var a := Wrote(item.handle, item.id, false, whole);
      assert item.pending == Queued;
      if !whole {
        WriteKeeps(s, i, whole, item);
        assert s.items[i := item] == s.items;
        ConnectedOnly(Log(s, a), whole);
      } else if item.qos == 0 {
        SendOnceKeeps(s, i);
        ConnectedOnly(Leave(Log(s, a), i, SentOnce(item.handle)), whole);
      } else {
        WriteKeeps(s, i, whole, item.(pending := Transmitted));
        FirstIsOnly(s.items, i);
        ConnectedOnly(Log(s.(items := s.items[i := item.(pending := Transmitted)]), a), whole);
      }
    }
  }

  /** A QoS 0 message is written once and leaves. */
  lemma {:induction false} SendOnceKeeps(s: State, i: nat)
    requires Inv(s) && i < |s.items| && s.items[i].pending == Queued && s.items[i].qos == 0
    ensures Inv(Leave(Log(s, Wrote(s.items[i].handle, s.items[i].id, false, true)), i, SentOnce(s.items[i].handle)))
  {
    var item := s.items[i];
    var a, b := Wrote(item.handle, item.id, false, true), SentOnce(item.handle);
    var log := s.log + [a] + [b];
    assert ItemOk(s.log, item);
    forall h: nat ensures FateOf(log, h) == After(After(FateOf(s.log, h), a, h), b, h) {
      LogMore(s.log, a, h);
      LogMore(s.log + [a], b, h);
    }
    LogMore(s.log, a, 0);
    LogMore(s.log + [a], b, 0);
    RemoveKeeps(s, i, log);
  }

  /** The last item, just stored, is written and marked as transmitted. */
  lemma {:induction false} PublishedKeeps(t: State, id: nat, now: int)
    requires Inv(t) && t.items != [] && t.items[|t.items| - 1].pending == Queued && t.items[|t.items| - 1].id == id != 0
    ensures var n := |t.items| - 1;
            var written := Log(t, Wrote(t.items[n].handle, id, false, true));
            Inv(SetPendingOf(SetTickOf(written, id, now), id, Transmitted))
  {
    var n := |t.items| - 1;
    var x := t.items[n].(tick := now, pending := Transmitted);
    FirstIsOnly(t.items, n);
    WriteKeeps(t, n, true, x);
    var u := t.items[n := t.items[n].(tick := now)];
    SameIds(t.items, u, id);
    assert u[n := u[n].(pending := Transmitted)] == t.items[n := x];
  }

  lemma {:induction false} PublishKeeps(s: State, qos: nat, id: nat, len: nat, now: int, sent: int, whole: bool)
    requires Inv(s) && (qos > 0 ==> id != 0 && First(s.items, HasId(id)) < 0)
    ensures Inv(DoPublish(s, qos, id, len, now, sent, whole))
  {
    if qos == 0 {
      if s.connected {
        LogNeutral(s, WroteUnstored(whole));
        ConnectedOnly(Log(s, WroteUnstored(whole)), whole);
      }
    } else {
      StoreKeeps(s, qos, id, len, now);
      var t := Store(s, qos, id, len, now);
      var n := |s.items|;
      if s.connected && whole {
        PublishedKeeps(t, id, sent);
        ConnectedOnly(SetPendingOf(SetTickOf(Log(t, Wrote(s.next, id, false, true)), id, sent), id, Transmitted), true);
      } else if s.connected {
        WriteKeeps(t, n, false, t.items[n]);
        assert t.items[n := t.items[n]] == t.items;
        ConnectedOnly(Log(t, Wrote(s.next, id, false, false)), false);
      }
    }
  }

  lemma {:induction false} SameIds(a: seq<Item>, b: seq<Item>, id: nat)
    requires |a| == |b| && forall k :: 0 <= k < |a| ==> a[k].id == b[k].id
    ensures First(a, HasId(id)) == First(b, HasId(id))
  {
    var i, j := First(a, HasId(id)), First(b, HasId(id));
    if i >= 0 {
      assert HasId(id)(b[i]);
    }
    if j >= 0 {
      assert HasId(id)(a[j]);
    }
  }

  lemma {:induction false} PubrecKeeps(s: State, id: nat)
    requires Inv(s)
    ensures Inv(DoPubrec(s, id))
  {
    var i := First(s.items, HasId(id));
    if i < 0 {
      LogNeutral(s, WrotePubrel(id));
    } else {
      var x := s.items[i].(pending := Acknowledged);
      var a := Marked(x.handle);
      assert ItemOk(s.log, s.items[i]);
      LogMore(s.log, a, x.handle);
      TouchKeeps(s, i, x, a);
      LogNeutral(Log(s.(items := s.items[i := x]), a), WrotePubrel(id));
    }
  }

  /** The message acknowledged leaves, and the event for it follows. */
  lemma {:induction false} AckKeeps(s: State, id: nat)
    requires Inv(s)
    ensures Inv(DoAck(s, id))
  {
    var i := First(s.items, HasIdAndKind(id, PUBLISH));
    if i >= 0 {
      var a, b := Acked(s.items[i].handle), Published(id);
      var log := s.log + [a] + [b];
      assert ItemOk(s.log, s.items[i]);
      forall h: nat ensures FateOf(log, h) == After(After(FateOf(s.log, h), a, h), b, h) {
        LogMore(s.log, a, h);
        LogMore(s.log + [a], b, h);
      }
      LogMore(s.log, a, s.items[i].handle);
      LogMore(s.log + [a], b, 0);
      RemoveKeeps(s, i, log);
    }
  }

  lemma {:induction false} ExpireKeeps(s: State, now: int, timeout: int)
    requires Inv(s)
    ensures Inv(DoExpire(s, now, timeout)) && DoExpire(s, now, timeout).items == KeepFresh(s.items, now, timeout)
    decreases |s.items|
  {
    var i := First(s.items, IsExpired(now, timeout));
    if i < 0 {
      KeepFreshAll(s.items, now, timeout);
    } else {
      LeaveKeeps(s, i, Expired(s.items[i].handle));
      KeepFreshRemove(s.items, i, now, timeout);
      ExpireKeeps(Leave(s, i, Expired(s.items[i].handle)), now, timeout);
    }
  }

  lemma {:induction false} StopKeeps(s: State)
    requires Inv(s)
    ensures Inv(DoStop(s)) && DoStop(s).items == []
    decreases |s.items|
  {
    if s.items == [] {
      ConnectedOnly(s, false);
    } else {
      LeaveKeeps(s, 0, Dropped(s.items[0].handle));
      StopKeeps(Leave(s, 0, Dropped(s.items[0].handle)));
    }
  }

  lemma {:induction false} ResendTransmittedKeeps(s: State, now: int, timeout: int, whole: bool)
    requires Inv(s)
    ensures Inv(DoResendTransmitted(s, now, timeout, whole))
  {
    var i := Aged(s, Transmitted, now, timeout);
    if i >= 0 && NoneQueued(s.items) {
      var item := s.items[i];
      assert ItemOk(s.log, item);
      WriteKeeps(s, i, whole, item);
      assert s.items[i := item] == s.items;
      ConnectedOnly(Log(s, Wrote(item.handle, item.id, true, whole)), whole);
    }
  }

  lemma {:induction false} ResendPubrelKeeps(s: State, now: int, timeout: int, whole: bool)
    requires Inv(s)
    ensures Inv(Next(s, ResendPubrel(now, timeout, whole)))
  {
    var i := Aged(s, Acknowledged, now, timeout);
    if i >= 0 && NoneQueued(s.items) {
      LogNeutral(s, WrotePubrel(s.items[i].id));
      ConnectedOnly(Log(s, WrotePubrel(s.items[i].id)), whole);
    }
  }

  /** The steps the client takes by itself to send. */
  predicate Sending(step: Step) {
    step.Publish? || step.Enqueue? || step.ResendQueued? || step.ResendTransmitted? || step.ResendPubrel?
  }

  lemma {:induction false} SendingKeeps(s: State, step: Step)
    requires Inv(s) && Fresh(s, step)
    requires Sending(step)
    ensures Inv(Next(s, step))
  {
    match step
    case Publish(qos, id, len, now, sent, whole) => PublishKeeps(s, qos, id, len, now, sent, whole);
    case Enqueue(qos, store, id, len, now) => StoreKeeps(s, qos, id, len, now);
    case ResendQueued(whole) => ResendQueuedKeeps(s, whole);
    case ResendTransmitted(now, timeout, whole) => ResendTransmittedKeeps(s, now, timeout, whole);
    case ResendPubrel(now, timeout, whole) => ResendPubrelKeeps(s, now, timeout, whole);
  }

  /** What the broker, the clock and the link do to it. */
  lemma {:induction false} OtherKeeps(s: State, step: Step)
    requires Inv(s)
    requires !Sending(step)
    ensures Inv(Next(s, step))
  {
    match step
    case ReceivePuback(id) => AckKeeps(s, id);
    case ReceivePubrec(id) => PubrecKeeps(s, id);
    case ReceivePubcomp(id) => AckKeeps(s, id);
    case Expire(now, timeout) => ExpireKeeps(s, now, timeout);
    case Lose => ConnectedOnly(s, false);
    case Connect => ConnectedOnly(s, true);
    case Stop => StopKeeps(s);
  }

  lemma {:induction false} StepKeeps(s: State, step: Step)
    requires Inv(s) && Fresh(s, step)
    ensures Inv(Next(s, step))
  {
    if Sending(step) {
      SendingKeeps(s, step);
    } else {
      OtherKeeps(s, step);
    }
  }
}
