/** What each step of the QoS machine writes and changes, and that every message can be brought to
    its end. */
module QosProgress {
  import opened MqttKinds
  import opened Outbox
  import opened QosMachine
  import opened QosRuns
  import opened QosCollision

  // ------------------------------------------------------------------
  // Effects of single steps
  // ------------------------------------------------------------------

  /** A published message of QoS 1 or 2 is stored whatever the link does, written once if there is
      one, and counts as transmitted, as of the end of writing, exactly when all of it went out. */
  lemma {:induction false} PublishEffect(s: State, qos: nat, id: nat, len: nat, now: int, sent: int, whole: bool)
    requires qos > 0 && forall k :: 0 <= k < |s.items| ==> s.items[k].id != id
    ensures var t := Next(s, Publish(qos, id, len, now, sent, whole));
            var out := s.connected && whole;
            && t.items == s.items + [Item(s.next, id, 3, qos, if out then sent else now, len, if out then Transmitted else Queued)]
            && t.log == s.log + [Stored(s.next, id, qos)] + (if s.connected then [Wrote(s.next, id, false, whole)] else [])
            && t.next == s.next + 1 && t.connected == out
  {
    assert Target(s.items, id) == |s.items|;
    if s.connected && whole {
      PublishSets(s, qos, id, len, now, sent);
      var all := s.items + [Item(s.next, id, PUBLISH, qos, now, len, Queued)];
      assert all[|s.items| := all[|s.items|].(tick := sent, pending := Transmitted)][..|s.items|] == s.items;
    }
  }

  /** One of QoS 0 is never stored, and written exactly when there is a link. */
  lemma {:induction false} PublishOnceEffect(s: State, id: nat, len: nat, now: int, sent: int, whole: bool)
    ensures var t := Next(s, Publish(0, id, len, now, sent, whole));
            && t.items == s.items && t.next == s.next && t.connected == (s.connected && whole)
            && t.log == if s.connected then s.log + [WroteUnstored(whole)] else s.log
  {
  }

  /** Enqueueing stores the message exactly when it has QoS 1 or 2 or is to be stored, and writes
      nothing. */
  lemma {:induction false} EnqueueEffect(s: State, qos: nat, store: bool, id: nat, len: nat, now: int)
    ensures var t := Next(s, Enqueue(qos, store, id, len, now));
            var own := if qos == 0 then 0 else id;
            if qos == 0 && !store then t == s
            else
              && t.items == s.items + [Item(s.next, own, 3, qos, now, len, Queued)] && t.next == s.next + 1
              && t.log == s.log + [Stored(s.next, own, qos)] && t.connected == s.connected
  {
  }

  /** Item `i` is the first in this state. */
  ghost predicate FirstIn(items: seq<Item>, i: nat, pending: Pending) {
    i < |items| && items[i].pending == pending && forall k :: 0 <= k < i ==> items[k].pending != pending
  }

  lemma {:induction false} FirstInIs(items: seq<Item>, i: nat, pending: Pending)
    requires FirstIn(items, i, pending)
    ensures First(items, IsPending(pending)) == i
  {
    assert IsPending(pending)(items[i]);
    var j := First(items, IsPending(pending));
    assert items[j].pending == pending;
    forall k | 0 <= k < i ensures !IsPending(pending)(items[k]) {
    }
  }

  lemma {:induction false} NoneQueuedIs(items: seq<Item>)
    ensures NoneQueued(items) <==> forall k :: 0 <= k < |items| ==> items[k].pending != Queued
  {
    if NoneQueued(items) {
      forall k | 0 <= k < |items| ensures items[k].pending != Queued {
        assert !IsPending(Queued)(items[k]);
      }
    } else {
      assert items[First(items, IsPending(Queued))].pending == Queued;
    }
  }

  /** The first queued message is written, without DUP; if all of it went out, a QoS 0 message
      leaves, and another counts as transmitted. */
  lemma {:induction false} QueuedEffect(s: State, i: nat, whole: bool)
    requires DistinctIds(s.items) && FirstIn(s.items, i, Queued)
    ensures var x, t := s.items[i], Next(s, ResendQueued(whole));
            && t.connected == whole && t.next == s.next
            && t.log == s.log + [Wrote(x.handle, x.id, false, whole)] + (if whole && x.qos == 0 then [SentOnce(x.handle)] else [])
            && t.items == if !whole then s.items
                          else if x.qos == 0 then s.items[..i] + s.items[i + 1..]
                          else s.items[i := x.(pending := Transmitted)]
  {
    FirstInIs(s.items, i, Queued);
    if s.items[i].qos > 0 {
      FirstIsOnly(s.items, i);
    }
  }

  /** With nothing queued, the first message that waits for its acknowledgement is written again,
      with DUP, exactly when it has waited longer than the timeout. */
  lemma {:induction false} ResendEffect(s: State, i: nat, now: int, timeout: int, whole: bool)
    requires FirstIn(s.items, i, Transmitted) && s.items[i].qos > 0 && forall k :: 0 <= k < |s.items| ==> s.items[k].pending != Queued
    ensures var x, t := s.items[i], Next(s, ResendTransmitted(now, timeout, whole));
            if now > x.tick + timeout then t == s.(log := s.log + [Wrote(x.handle, x.id, true, whole)], connected := whole) else t == s
  {
    FirstInIs(s.items, i, Transmitted);
    NoneQueuedIs(s.items);
  }

  /** So is the PUBREL of the first message a PUBREC has marked. */
  lemma {:induction false} PubrelEffect(s: State, i: nat, now: int, timeout: int, whole: bool)
    requires FirstIn(s.items, i, Acknowledged) && forall k :: 0 <= k < |s.items| ==> s.items[k].pending != Queued
    ensures var x, t := s.items[i], Next(s, ResendPubrel(now, timeout, whole));
            if now > x.tick + timeout then t == s.(log := s.log + [WrotePubrel(x.id)], connected := whole) else t == s
  {
    FirstInIs(s.items, i, Acknowledged);
    NoneQueuedIs(s.items);
  }

  /** A due round of the task, with nothing queued, ends with the PUBREL of the first marked message
      that has waited longer than the timeout. */
  lemma {:induction false} RoundWritesPubrel(s: State, i: nat, now: int, timeout: int, first: bool, second: bool)
    requires FirstIn(s.items, i, Acknowledged) && now > s.items[i].tick + timeout
    requires forall k :: 0 <= k < |s.items| ==> s.items[k].pending != Queued
    ensures var u := Next(s, ResendTransmitted(now, timeout, first));
            var t := Next(u, ResendPubrel(now, timeout, second));
            Extends(s.log, u.log) && t.log == u.log + [WrotePubrel(s.items[i].id)] && t.items == s.items
  {
    PubrelEffect(Next(s, ResendTransmitted(now, timeout, first)), i, now, timeout, second);
  }

  /** PUBACK and PUBCOMP take the first message with the identifier out, with its event. */
  lemma {:induction false} AckEffect(s: State, i: nat, id: nat)
    requires i < |s.items| && s.items[i].id == id && s.items[i].kind == 3 && forall k :: 0 <= k < i ==> s.items[k].id != id
    ensures var t := s.(items := s.items[..i] + s.items[i + 1..], log := s.log + [Acked(s.items[i].handle), Published(id)]);
            Next(s, ReceivePuback(id)) == t && Next(s, ReceivePubcomp(id)) == t
  {
    assert HasIdAndKind(id, PUBLISH)(s.items[i]);
    var j := First(s.items, HasIdAndKind(id, PUBLISH));
    assert s.items[j].id == id;
    assert s.log + [Acked(s.items[i].handle)] + [Published(id)] == s.log + [Acked(s.items[i].handle), Published(id)];
  }

  /** An acknowledgement of a message that is not held changes nothing. */
  lemma {:induction false} StrayAckEffect(s: State, id: nat)
    requires forall k :: 0 <= k < |s.items| ==> s.items[k].id != id
    ensures Next(s, ReceivePuback(id)) == s && Next(s, ReceivePubcomp(id)) == s
    ensures Next(s, ReceivePubrec(id)) == s.(log := s.log + [WrotePubrel(id)])
  {
  }

  /** A PUBREC marks the first message with the identifier; the PUBREL is written in any case. */
  lemma {:induction false} PubrecEffect(s: State, i: nat, id: nat)
    requires i < |s.items| && s.items[i].id == id && forall k :: 0 <= k < i ==> s.items[k].id != id
    ensures Next(s, ReceivePubrec(id)) == s.(items := s.items[i := s.items[i].(pending := Acknowledged)],
                                             log := s.log + [Marked(s.items[i].handle), WrotePubrel(id)])
  {
    assert HasId(id)(s.items[i]);
    var j := First(s.items, HasId(id));
    assert s.items[j].id == id;
    assert s.log + [Marked(s.items[i].handle)] + [WrotePubrel(id)] == s.log + [Marked(s.items[i].handle), WrotePubrel(id)];
  }

  /** Losing and gaining the link changes nothing else; stopping drops every message, with an entry
      for each, in order. */
  lemma {:induction false} LinkEffect(s: State)
    ensures Next(s, Lose) == State(s.items, s.next, false, s.log)
    ensures Next(s, Connect) == State(s.items, s.next, true, s.log)
  {
  }

  lemma {:induction false} StopEffect(s: State)
    ensures Next(s, Stop) == State([], s.next, false, s.log + seq(|s.items|, k requires 0 <= k < |s.items| => Dropped(s.items[k].handle)))
    decreases |s.items|
  {
    var all := seq(|s.items|, k requires 0 <= k < |s.items| => Dropped(s.items[k].handle));
    if s.items == [] {
      assert s.log + all == s.log;
    } else {
      var a, rest := Dropped(s.items[0].handle), RemoveAt(s.items, 0);
      StopEffect(Leave(s, 0, a));
      assert all == [a] + seq(|rest|, k requires 0 <= k < |rest| => Dropped(rest[k].handle));
      LogBehind(s.log, a, seq(|rest|, k requires 0 <= k < |rest| => Dropped(rest[k].handle)));
    }
  }

  /** An entry for each message that is too old, in order. */
  function TooOld(items: seq<Item>, now: int, timeout: int): seq<Action> {
    if items == [] then []
    else (if now > items[0].tick + timeout then [Expired(items[0].handle)] else []) + TooOld(items[1..], now, timeout)
  }

  lemma {:induction false} TooOldFirst(items: seq<Item>, i: nat, now: int, timeout: int)
    requires i < |items| && now > items[i].tick + timeout && forall k :: 0 <= k < i ==> now <= items[k].tick + timeout
    ensures TooOld(items, now, timeout) == [Expired(items[i].handle)] + TooOld(RemoveAt(items, i), now, timeout)
  {
    if i == 0 {
      assert RemoveAt(items, 0) == items[1..];
    } else {
      TooOldFirst(items[1..], i - 1, now, timeout);
      RemoveBehind(items, i);
      YoungFirst(items, now, timeout);
      YoungFirst(RemoveAt(items, i), now, timeout);
    }
  }

  lemma {:induction false} YoungFirst(items: seq<Item>, now: int, timeout: int)
    requires items != [] && now <= items[0].tick + timeout
    ensures TooOld(items, now, timeout) == TooOld(items[1..], now, timeout)
  {
  }

  lemma {:induction false} RemoveBehind(items: seq<Item>, i: nat)
    requires 0 < i < |items|
    ensures RemoveAt(items, i) != [] && RemoveAt(items, i)[0] == items[0]
    ensures RemoveAt(items, i)[1..] == RemoveAt(items[1..], i - 1)
  {
  }

  lemma {:induction false} TooOldNone(items: seq<Item>, now: int, timeout: int)
    requires forall k :: 0 <= k < |items| ==> now <= items[k].tick + timeout
    ensures TooOld(items, now, timeout) == []
  {
    if items != [] {
      TooOldNone(items[1..], now, timeout);
    }
  }

  lemma {:induction false} TooOldStep(items: seq<Item>, now: int, timeout: int)
    ensures (var i := First(items, IsExpired(now, timeout));
             TooOld(items, now, timeout) == if i < 0 then [] else [Expired(items[i].handle)] + TooOld(RemoveAt(items, i), now, timeout))
  {
    var i := First(items, IsExpired(now, timeout));
    forall k | 0 <= k < (if i < 0 then |items| else i) ensures now <= items[k].tick + timeout {
      assert !IsExpired(now, timeout)(items[k]);
    }
    if i < 0 {
      TooOldNone(items, now, timeout);
    } else {
      TooOldFirst(items, i, now, timeout);
    }
  }

  lemma {:induction false} ExpireLogs(s: State, now: int, timeout: int)
    ensures DoExpire(s, now, timeout).log == s.log + TooOld(s.items, now, timeout)
    decreases |s.items|
  {
    TooOldStep(s.items, now, timeout);
    var i := First(s.items, IsExpired(now, timeout));
    if i < 0 {
      assert s.log + [] == s.log;
    } else {
      var a := Expired(s.items[i].handle);
      ExpireLogs(Leave(s, i, a), now, timeout);
      LogBehind(s.log, a, TooOld(RemoveAt(s.items, i), now, timeout));
    }
  }

  lemma {:induction false} LogBehind(log: seq<Action>, a: Action, rest: seq<Action>)
    ensures log + [a] + rest == log + ([a] + rest)
  {
  }

  lemma {:induction false} ExpireItems(s: State, now: int, timeout: int)
    ensures var t := DoExpire(s, now, timeout);
            t.items == KeepFresh(s.items, now, timeout) && t.connected == s.connected && t.next == s.next
    decreases |s.items|
  {
    var i := First(s.items, IsExpired(now, timeout));
    if i < 0 {
      KeepFreshAll(s.items, now, timeout);
    } else {
      KeepFreshRemove(s.items, i, now, timeout);
      ExpireItems(Leave(s, i, Expired(s.items[i].handle)), now, timeout);
    }
  }

  /** Expiry takes out exactly the messages that are too old, with an entry for each, in order. */
  lemma {:induction false} ExpireEffect(s: State, now: int, timeout: int)
    requires Ordered(s.items, s.next)
    ensures OnlyYoung(s.items, Next(s, Expire(now, timeout)).items, s.next, now, timeout)
    ensures Next(s, Expire(now, timeout)).log == s.log + TooOld(s.items, now, timeout)
  {
    var t := DoExpire(s, now, timeout);
    assert Next(s, Expire(now, timeout)) == t;
    assert t.items == KeepFresh(s.items, now, timeout) by {
      ExpireItems(s, now, timeout);
    }
    KeptYoung(s.items, s.next, now, timeout);
    assert t.log == s.log + TooOld(s.items, now, timeout) by {
      ExpireLogs(s, now, timeout);
    }
  }

  /** `kept` are the items that are not too old, in the order of the list. */
  ghost predicate OnlyYoung(items: seq<Item>, kept: seq<Item>, next: nat, now: int, timeout: int) {
    Ordered(kept, next) && forall x :: x in kept <==> x in items && now - x.tick <= timeout
  }

  lemma {:induction false} KeptYoung(items: seq<Item>, next: nat, now: int, timeout: int)
    requires Ordered(items, next)
    ensures OnlyYoung(items, KeepFresh(items, now, timeout), next, now, timeout)
  {
    KeepFreshExact(items, next, now, timeout);
  }

  // ------------------------------------------------------------------
  // Every message can be brought to its end
  // ------------------------------------------------------------------

  /** The message `x` is held at `i`, perhaps transmitted by now. */
  ghost predicate HeldAs(s: State, i: nat, x: Item) {
    i < |s.items| && s.items[i] == x.(pending := s.items[i].pending)
    && (s.items[i].pending == x.pending || (x.pending == Queued && s.items[i].pending == Transmitted))
  }

  /** What the run needs of the items. */
  ghost predicate Usable(items: seq<Item>) {
    DistinctIds(items) && forall k :: 0 <= k < |items| && items[k].pending == Transmitted ==> items[k].qos > 0
  }

  /** Of a run: the link is up, the log goes on, and message `i` is held at `j`. */
  ghost predicate Carried(s: State, i: nat, t: State, j: nat)
    requires i < |s.items|
  {
    Usable(t.items) && t.connected && Extends(s.log, t.log) && HeldAs(t, j, s.items[i])
  }

  lemma {:induction false} CarriedTrans(s: State, i: nat, t: State, m: nat, u: State, j: nat)
    requires i < |s.items| && Carried(s, i, t, m) && Carried(t, m, u, j)
    ensures Carried(s, i, u, j)
  {
    ExtendsTrans(s.log, t.log, u.log);
  }

  /** All queued items are within the last `room`. */
  ghost predicate QueuedWithin(items: seq<Item>, room: int) {
    forall k :: 0 <= k < |items| && items[k].pending == Queued ==> |items| - k <= room
  }

  lemma {:induction false} WithoutUsable(items: seq<Item>, r: nat, rest: seq<Item>)
    requires Usable(items) && Without(items, r, rest)
    ensures Usable(rest)
  {
  }

  lemma {:induction false} SentItems(items: seq<Item>, q: nat, rest: seq<Item>)
    requires Usable(items) && FirstIn(items, q, Queued)
    requires if items[q].qos == 0 then Without(items, q, rest) else rest == items[q := items[q].(pending := Transmitted)]
    ensures Usable(rest) && QueuedWithin(rest, |items| - q - 1)
  {
    if items[q].qos == 0 {
      WithoutUsable(items, q, rest);
    }
  }

  lemma {:induction false} SentHeld(items: seq<Item>, q: nat, i: nat)
    requires q < |items| && items[q].pending == Queued && i < |items| && items[i].qos > 0
    requires items[q].qos == 0
    ensures var rest, j := items[..q] + items[q + 1..], if q < i then i - 1 else i;
            Without(items, q, rest) && j < |rest| && rest[j] == items[i]
  {
  }

  /** Sending one queued message keeps every other one, and leaves fewer behind the first queued. */
  lemma {:induction false} SendOne(s: State, q: nat, i: nat) returns (j: nat)
    requires Usable(s.items) && s.connected && FirstIn(s.items, q, Queued) && i < |s.items| && s.items[i].qos > 0
    ensures Carried(s, i, Next(s, ResendQueued(true)), j) && QueuedWithin(Next(s, ResendQueued(true)).items, |s.items| - q - 1)
  {
    QueuedEffect(s, q, true);
    var x, t := s.items[q], Next(s, ResendQueued(true));
    if x.qos == 0 {
      j := if q < i then i - 1 else i;
      SentHeld(s.items, q, i);
    } else {
      j := i;
    }
    SentItems(s.items, q, t.items);
    Longer(s.log, [Wrote(x.handle, x.id, false, true)], if x.qos == 0 then [SentOnce(x.handle)] else []);
  }

  lemma {:induction false} Longer(log: seq<Action>, a: seq<Action>, b: seq<Action>)
    ensures Extends(log, log + a + b)
  {
  }

  lemma {:induction false} LegalCons(s: State, a: Step, rest: seq<Step>)
    requires Fresh(s, a) && Enabled(s, a) && LegalRun(Next(s, a), rest) && Untimed([a]) && Untimed(rest)
    ensures LegalRun(s, [a] + rest) && Untimed([a] + rest) && RunFrom(s, [a] + rest) == RunFrom(Next(s, a), rest)
  {
    assert ([a] + rest)[1..] == rest;
    assert [a][0] == a;
    RunCons(s, a, rest);
  }

  /** Rounds of the task send all that is queued. */
  lemma {:induction false} SendAllQueued(s: State, i: nat, room: nat) returns (steps: seq<Step>, j: nat)
    requires Usable(s.items) && s.connected && i < |s.items| && s.items[i].qos > 0 && QueuedWithin(s.items, room)
    ensures LegalRun(s, steps) && Untimed(steps) && Carried(s, i, RunFrom(s, steps), j) && QueuedWithin(RunFrom(s, steps).items, 0)
    decreases room
  {
    var q := First(s.items, IsPending(Queued));
    if q < 0 {
      NothingToSend(s, i);
      steps, j := [], i;
    } else {
      FirstQueued(s.items);
      var t := Next(s, ResendQueued(true));
      var m := SendOne(s, q, i);
      var rest;
      rest, j := SendAllQueued(t, m, |s.items| - q - 1);
      steps := [ResendQueued(true)] + rest;
      LegalCons(s, ResendQueued(true), rest);
      CarriedTrans(s, i, t, m, RunFrom(t, rest), j);
    }
  }

  lemma {:induction false} NothingToSend(s: State, i: nat)
    requires Usable(s.items) && s.connected && i < |s.items| && First(s.items, IsPending(Queued)) < 0
    ensures Carried(s, i, RunFrom(s, []), i) && QueuedWithin(s.items, 0)
  {
    NoneQueuedIs(s.items);
  }

  lemma {:induction false} FirstQueued(items: seq<Item>)
    requires First(items, IsPending(Queued)) >= 0
    ensures FirstIn(items, First(items, IsPending(Queued)), Queued)
  {
    forall k | 0 <= k < First(items, IsPending(Queued)) ensures items[k].pending != Queued {
      assert !IsPending(Queued)(items[k]);
    }
  }

  /** The broker answers another message. */
  lemma {:induction false} AnswerOther(s: State, i: nat) returns (id: nat, j: nat)
    requires Usable(s.items) && s.connected && i < |s.items| && s.items[i].qos > 0 && |s.items| > 1 && QueuedWithin(s.items, 0)
    ensures var t := Next(s, ReceivePuback(id));
            Carried(s, i, t, j) && t.items[j] == s.items[i] && |t.items| < |s.items| && QueuedWithin(t.items, 0)
  {
    var r := if i == 0 then FirstOf(s.items, s.items[1].id) else FirstOf(s.items, s.items[0].id);
    id := s.items[r].id;
    AckEffect(s, r, id);
    var rest := s.items[..r] + s.items[r + 1..];
    assert Without(s.items, r, rest);
    WithoutUsable(s.items, r, rest);
    j := if i < r then i else i - 1;
    assert rest[j] == s.items[i];
  }

  /** The first item with an identifier that some item has. */
  function FirstOf(items: seq<Item>, id: nat): (r: nat)
    requires exists k :: 0 <= k < |items| && items[k].id == id
    ensures r < |items| && items[r].id == id && forall k :: 0 <= k < r ==> items[k].id != id
  {
    if items[0].id == id then 0
    else
      assert exists k :: 0 <= k < |items[1..]| && items[1..][k].id == id by {
        var k :| 0 <= k < |items| && items[k].id == id;
        assert items[1..][k - 1].id == id;
      }
      1 + FirstOf(items[1..], id)
  }

  lemma {:induction false} AnswerOthers(s: State, i: nat) returns (steps: seq<Step>)
    requires Usable(s.items) && s.connected && i < |s.items| && s.items[i].qos > 0 && QueuedWithin(s.items, 0)
    ensures LegalRun(s, steps) && Untimed(steps) && Carried(s, i, RunFrom(s, steps), 0) && RunFrom(s, steps).items == [s.items[i]]
    decreases |s.items|
  {
    if |s.items| == 1 {
      steps := [];
      assert s.items == [s.items[i]];
    } else {
      var id, j := AnswerOther(s, i);
      var rest := AnswerOthers(Next(s, ReceivePuback(id)), j);
      steps := [ReceivePuback(id)] + rest;
      LegalCons(s, ReceivePuback(id), rest);
      CarriedTrans(s, i, Next(s, ReceivePuback(id)), j, RunFrom(s, steps), 0);
    }
  }

  /** What the handshake of a message leaves in the log, from the moment it is the only one. */
  function Handshake(x: Item): seq<Action> {
    if x.pending == Acknowledged then [WrotePubrel(x.id), Acked(x.handle), Published(x.id)]
    else if x.qos == 1 then [Wrote(x.handle, x.id, true, true), Acked(x.handle), Published(x.id)]
    else [Wrote(x.handle, x.id, true, true), Marked(x.handle), WrotePubrel(x.id), WrotePubrel(x.id), Acked(x.handle), Published(x.id)]
  }

  /** The due time of a resend. */
  function Due(x: Item, clock: int, resend: int): int {
    if clock > x.tick + resend then clock else x.tick + resend + 1
  }

  lemma {:induction false} FinishMarked(s: State, x: Item, clock: int, expiry: int, resend: int) returns (steps: seq<Step>)
    requires s.items == [x] && s.connected && x.pending == Acknowledged && x.kind == 3
    ensures Possible(s, steps, clock, expiry, resend) && RunFrom(s, steps).items == []
    ensures RunFrom(s, steps).log == s.log + [WrotePubrel(x.id), Acked(x.handle), Published(x.id)]
  {
    var a, b := ResendPubrel(Due(x, clock, resend), resend, true), ReceivePubcomp(x.id);
    steps := [a, b];
    RunTwo(s, a, b);
    PubrelEffect(s, 0, Due(x, clock, resend), resend, true);
    AckEffect(Next(s, a), 0, x.id);
    assert steps[1..] == [b] && [b][1..] == [];
    assert s.log + [WrotePubrel(x.id)] + [Acked(x.handle), Published(x.id)] == s.log + [WrotePubrel(x.id), Acked(x.handle), Published(x.id)];
  }

  lemma {:induction false} FinishOnce(s: State, x: Item, clock: int, expiry: int, resend: int) returns (steps: seq<Step>)
    requires s.items == [x] && s.connected && x.pending == Transmitted && x.kind == 3 && x.qos > 0
    ensures Possible(s, steps, clock, expiry, resend) && RunFrom(s, steps).items == []
    ensures RunFrom(s, steps).log == s.log + [Wrote(x.handle, x.id, true, true), Acked(x.handle), Published(x.id)]
  {
    var a, b := ResendTransmitted(Due(x, clock, resend), resend, true), ReceivePuback(x.id);
    steps := [a, b];
    RunTwo(s, a, b);
    ResendEffect(s, 0, Due(x, clock, resend), resend, true);
    AckEffect(Next(s, a), 0, x.id);
    assert steps[1..] == [b] && [b][1..] == [];
    assert s.log + [Wrote(x.handle, x.id, true, true)] + [Acked(x.handle), Published(x.id)]
        == s.log + [Wrote(x.handle, x.id, true, true), Acked(x.handle), Published(x.id)];
  }

  /** A PUBREC, then the rest. */
  lemma {:induction false} FinishTwice(s: State, x: Item, clock: int, expiry: int, resend: int) returns (steps: seq<Step>)
    requires s.items == [x] && s.connected && x.pending == Transmitted && x.kind == 3 && x.qos > 0
    ensures Possible(s, steps, clock, expiry, resend) && RunFrom(s, steps).items == []
    ensures RunFrom(s, steps).log == s.log + [Wrote(x.handle, x.id, true, true), Marked(x.handle), WrotePubrel(x.id)]
                                           + [WrotePubrel(x.id), Acked(x.handle), Published(x.id)]
  {
    var due := Due(x, clock, resend);
    var a, b := ResendTransmitted(due, resend, true), ReceivePubrec(x.id);
    ResendEffect(s, 0, due, resend, true);
    PubrecEffect(Next(s, a), 0, x.id);
    var u := Next(Next(s, a), b);
    assert u.items == [x.(pending := Acknowledged)];
    assert u.log == s.log + [Wrote(x.handle, x.id, true, true), Marked(x.handle), WrotePubrel(x.id)];
    var rest := FinishMarked(u, x.(pending := Acknowledged), due, expiry, resend);
    steps := [a] + ([b] + rest);
    assert ([b] + rest)[1..] == rest && steps[1..] == [b] + rest;
    RunCons(Next(s, a), b, rest);
    RunCons(s, a, [b] + rest);
  }

  /** The only message, no longer queued, completes its handshake. */
  lemma {:induction false} Finish(s: State, x: Item, clock: int, expiry: int, resend: int) returns (steps: seq<Step>)
    requires s.items == [x] && s.connected && x.pending != Queued && x.kind == 3 && x.qos > 0
    ensures Possible(s, steps, clock, expiry, resend) && RunFrom(s, steps).items == []
    ensures RunFrom(s, steps).log == s.log + Handshake(x)
  {
    if x.pending == Acknowledged {
      steps := FinishMarked(s, x, clock, expiry, resend);
    } else if x.qos == 1 {
      steps := FinishOnce(s, x, clock, expiry, resend);
    } else {
      steps := FinishTwice(s, x, clock, expiry, resend);
      assert s.log + [Wrote(x.handle, x.id, true, true), Marked(x.handle), WrotePubrel(x.id)] + [WrotePubrel(x.id), Acked(x.handle), Published(x.id)]
          == s.log + Handshake(x);
    }
  }

  /** No message is stuck: from every reachable state that holds a message of QoS 1 or 2, some run of
      rounds of the task and answers of the broker ends with its handshake: it is written again,
      marked, its PUBREL written again, and its PUBLISHED event comes; a marked message begins
      at the PUBREL. Nothing expires on the way, for any timeouts and from any time on. */
  lemma {:induction false} EveryMessageCompletes(s: State, i: nat, clock: int, expiry: int, resend: int) returns (steps: seq<Step>, log: seq<Action>, x: Item)
    requires Inv(s) && i < |s.items| && s.items[i].qos > 0
    ensures Possible(s, steps, clock, expiry, resend)
    ensures Extends(s.log, log) && RunFrom(s, steps).log == log + Handshake(x)
    ensures x == s.items[i].(pending := if s.items[i].pending == Queued then Transmitted else s.items[i].pending)
  {
    var t := Next(s, Connect);
    InvUsable(s);
    var a, j := SendAllQueued(t, i, |s.items|);
    var u := RunFrom(t, a);
    x := u.items[j];
    var b := AnswerOthers(u, j);
    var v := RunFrom(u, b);
    log := v.log;
    var c := Finish(v, x, clock, expiry, resend);
    PossibleAppend(u, b, c, clock, expiry, resend);
    PossibleAppend(t, a, b + c, clock, expiry, resend);
    steps := [Connect] + (a + (b + c));
    assert steps[1..] == a + (b + c);
    RunCons(s, Connect, a + (b + c));
    ExtendsTrans(s.log, u.log, v.log);
  }

  lemma {:induction false} InvUsable(s: State)
    requires Inv(s)
    ensures Usable(s.items)
  {
    forall k | 0 <= k < |s.items| && s.items[k].pending == Transmitted ensures s.items[k].qos > 0 {
      assert ItemOk(s.log, s.items[k]);
    }
  }
}
