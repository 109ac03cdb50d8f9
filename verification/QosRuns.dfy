/** What holds over every run of the QoS state machine. */
module QosRuns {
  import opened MqttKinds
  import opened Outbox
  import opened QosMachine

  // ------------------------------------------------------------------
  // Whole runs
  // ------------------------------------------------------------------

  lemma {:induction false} RunKeeps(s: State, steps: seq<Step>)
    requires Inv(s) && FreshRun(s, steps)
    ensures Inv(RunFrom(s, steps))
  {
    if steps != [] {
      RunKeeps(s, steps[..|steps| - 1]);
      StepKeeps(RunFrom(s, steps[..|steps| - 1]), steps[|steps| - 1]);
    }
  }

  /** The history only grows. */
  ghost predicate Extends(log: seq<Action>, longer: seq<Action>) {
    |log| <= |longer| && longer[..|log|] == log
  }

  lemma {:induction false} ExtendsTrans(a: seq<Action>, b: seq<Action>, c: seq<Action>)
    requires Extends(a, b) && Extends(b, c)
    ensures Extends(a, c)
  {
    assert c[..|a|] == c[..|b|][..|a|];
  }

  lemma {:induction false} ExpireExtends(s: State, now: int, timeout: int)
    ensures Extends(s.log, DoExpire(s, now, timeout).log)
    decreases |s.items|
  {
    var i := First(s.items, IsExpired(now, timeout));
    if i >= 0 {
      var t := Leave(s, i, Expired(s.items[i].handle));
      ExpireExtends(t, now, timeout);
      ExtendsTrans(s.log, t.log, DoExpire(t, now, timeout).log);
    }
  }

  lemma {:induction false} StopExtends(s: State)
    ensures Extends(s.log, DoStop(s).log)
    decreases |s.items|
  {
    if s.items != [] {
      var t := Leave(s, 0, Dropped(s.items[0].handle));
      StopExtends(t);
      ExtendsTrans(s.log, t.log, DoStop(t).log);
    }
  }

  lemma {:induction false} StepExtends(s: State, step: Step)
    ensures Extends(s.log, Next(s, step).log)
  {
    if step.Expire? {
      ExpireExtends(s, step.now, step.timeout);
    } else if step.Stop? {
      StopExtends(s);
    }
  }

  lemma {:induction false} RunExtends(s: State, steps: seq<Step>, n: nat)
    requires n <= |steps|
    ensures Extends(RunFrom(s, steps[..n]).log, RunFrom(s, steps).log)
    decreases |steps|
  {
    if n == |steps| {
      assert steps[..n] == steps;
    } else {
      var shorter := steps[..|steps| - 1];
      assert shorter[..n] == steps[..n];
      RunExtends(s, shorter, n);
      StepExtends(RunFrom(s, shorter), steps[|steps| - 1]);
      ExtendsTrans(RunFrom(s, steps[..n]).log, RunFrom(s, shorter).log, RunFrom(s, steps).log);
    }
  }

  /** What the history once said about a message stays said. */
  lemma {:induction false} FateGrows(log: seq<Action>, longer: seq<Action>, h: nat)
    requires Extends(log, longer)
    ensures FateOf(log, h).marked ==> FateOf(longer, h).marked
    ensures FateOf(log, h).transmitted ==> FateOf(longer, h).transmitted
    decreases |longer|
  {
    if |log| < |longer| {
      var shorter := longer[..|longer| - 1];
      assert shorter[..|log|] == longer[..|log|];
      FateGrows(log, shorter, h);
    } else {
      assert longer[..|log|] == longer;
    }
  }

  function Rank(p: Pending): nat {
    match p
    case Queued => 0
    case Transmitted => 1
    case Acknowledged => 2
  }

  /** Items held in both states have only moved forward. */
  ghost predicate Forward(a: seq<Item>, b: seq<Item>) {
    forall i, j :: 0 <= i < |a| && 0 <= j < |b| && a[i].handle == b[j].handle ==> Rank(a[i].pending) <= Rank(b[j].pending)
  }

  lemma {:induction false} ForwardBetween(s: State, t: State)
    requires Inv(s) && Inv(t) && Extends(s.log, t.log)
    ensures Forward(s.items, t.items)
  {
    forall i, j | 0 <= i < |s.items| && 0 <= j < |t.items| && s.items[i].handle == t.items[j].handle
      ensures Rank(s.items[i].pending) <= Rank(t.items[j].pending)
    {
      assert ItemOk(s.log, s.items[i]) && ItemOk(t.log, t.items[j]);
      FateGrows(s.log, t.log, s.items[i].handle);
    }
  }

  /** Over every run with fresh identifiers, between any two moments, an item's state only
      moves from queued to transmitted to acknowledged. */
  lemma {:induction false} PendingMovesForward(steps: seq<Step>, n: nat)
    requires FreshRun(INITIAL, steps) && n <= |steps|
    ensures Forward(RunFrom(INITIAL, steps[..n]).items, RunFrom(INITIAL, steps).items)
  {
    InitialInv();
    RunKeeps(INITIAL, steps);
    FreshPrefix(INITIAL, steps, n);
    RunKeeps(INITIAL, steps[..n]);
    RunExtends(INITIAL, steps, n);
    ForwardBetween(RunFrom(INITIAL, steps[..n]), RunFrom(INITIAL, steps));
  }

  lemma {:induction false} FreshPrefix(s: State, steps: seq<Step>, n: nat)
    requires FreshRun(s, steps) && n <= |steps|
    ensures FreshRun(s, steps[..n])
    decreases |steps|
  {
    if n == |steps| {
      assert steps[..n] == steps;
    } else {
      assert steps[..|steps| - 1][..n] == steps[..n];
      FreshPrefix(s, steps[..|steps| - 1], n);
    }
  }

  lemma {:induction false} MarkedStays(log: seq<Action>, i: nat, h: nat)
    requires i < |log| && log[i] == Marked(h)
    ensures FateOf(log, h).marked
  {
    assert log[..i + 1][..i] == log[..i];
    FateGrows(log[..i + 1], log, h);
  }

  /** A message went out in full before, seen from the history's entries. */
  predicate WentOut(log: seq<Action>, h: nat) {
    exists i :: 0 <= i < |log| && log[i].Wrote? && log[i].handle == h && log[i].whole
  }

  lemma {:induction false} TransmittedMeans(log: seq<Action>, h: nat)
    ensures FateOf(log, h).transmitted <==> WentOut(log, h)
  {
    if log != [] {
      var shorter := log[..|log| - 1];
      TransmittedMeans(shorter, h);
      if WentOut(shorter, h) {
        var i :| 0 <= i < |shorter| && shorter[i].Wrote? && shorter[i].handle == h && shorter[i].whole;
        assert log[i].Wrote? && log[i].handle == h && log[i].whole;
      }
    }
  }

  lemma {:induction false} SafeAt(log: seq<Action>, j: nat)
    requires Safe(log) && j < |log|
    ensures Allowed(log[..j], log[j])
  {
    if j < |log| - 1 {
      assert log[..|log| - 1][..j] == log[..j];
      SafeAt(log[..|log| - 1], j);
    }
  }

  /** QoS 2 safety over every run (section 4.3.3 of MQTT 3.1.1): once a PUBREC has marked a
      message, no PUBLISH of it is written again, whatever the broker sends and however often
      the link drops. And a PUBLISH has its DUP flag set exactly when the message has gone out
      in full before. */
  lemma {:induction false} QosSafety(steps: seq<Step>, j: nat)
    requires FreshRun(INITIAL, steps)
    requires var log := RunFrom(INITIAL, steps).log; j < |log| && log[j].Wrote?
    ensures var log := RunFrom(INITIAL, steps).log;
            && (forall i :: 0 <= i < j ==> log[i] != Marked(log[j].handle))
            && (log[j].dup <==> WentOut(log[..j], log[j].handle))
  {
    InitialInv();
    RunKeeps(INITIAL, steps);
    var log := RunFrom(INITIAL, steps).log;
    SafeAt(log, j);
    TransmittedMeans(log[..j], log[j].handle);
    forall i | 0 <= i < j ensures log[i] != Marked(log[j].handle) {
      if log[i] == Marked(log[j].handle) {
        MarkedStays(log[..j], i, log[j].handle);
      }
    }
  }

  /** An entry by which message `h` leaves the outbox. */
  predicate Leaves(a: Action, h: nat) {
    (a.Acked? || a.SentOnce? || a.Expired? || a.Dropped?) && a.handle == h
  }

  predicate Gone(log: seq<Action>, h: nat) {
    exists k :: 0 <= k < |log| && Leaves(log[k], h)
  }

  predicate StoredAs(log: seq<Action>, h: nat, id: nat, qos: nat) {
    exists k :: 0 <= k < |log| && log[k] == Stored(h, id, qos)
  }

  /** The fate of a message in terms of the entries of the history. */
  lemma {:induction false} FateMeans(log: seq<Action>, h: nat)
    ensures FateOf(log, h).left == 0 <==> !Gone(log, h)
    ensures FateOf(log, h).stored > 0 ==> StoredAs(log, h, FateOf(log, h).id, FateOf(log, h).qos)
    ensures FateOf(log, h).stored == 0 ==> forall k :: 0 <= k < |log| ==> !(log[k].Stored? && log[k].handle == h)
  {
    if log != [] {
      var shorter, last := log[..|log| - 1], log[|log| - 1];
      FateMeans(shorter, h);
      if Gone(shorter, h) {
        var k :| 0 <= k < |shorter| && Leaves(shorter[k], h);
        assert Leaves(log[k], h);
      }
      if last.Stored? && last.handle == h {
        assert log[|log| - 1] == Stored(h, last.id, last.qos);
      } else if FateOf(shorter, h).stored > 0 {
        var f := FateOf(shorter, h);
        var k :| 0 <= k < |shorter| && shorter[k] == Stored(h, f.id, f.qos);
        assert log[k] == Stored(h, f.id, f.qos);
      }
    }
  }

  /** A message stored once has one identifier. */
  lemma {:induction false} StoredOnce(log: seq<Action>, h: nat, id: nat, qos: nat)
    requires FateOf(log, h).stored <= 1 && StoredAs(log, h, id, qos)
    ensures FateOf(log, h).id == id && FateOf(log, h).qos == qos
  {
    var k :| 0 <= k < |log| && log[k] == Stored(h, id, qos);
    var shorter := log[..|log| - 1];
    FateMeans(shorter, h);
    if k < |log| - 1 {
      assert shorter[k] == Stored(h, id, qos);
      StoredOnce(shorter, h, id, qos);
    }
  }

  lemma {:induction false} StoredGrows(log: seq<Action>, n: nat, h: nat)
    requires n <= |log|
    ensures FateOf(log[..n], h).stored <= FateOf(log, h).stored
    decreases |log|
  {
    if n < |log| {
      assert log[..|log| - 1][..n] == log[..n];
      StoredGrows(log[..|log| - 1], n, h);
    } else {
      assert log[..n] == log;
    }
  }

  /** Over every run: from the PUBREC that marks a message until it leaves the outbox, no PUBLISH
      with its identifier is written. */
  lemma {:induction false} IdentifierQuiet(steps: seq<Step>, i: nat, j: nat, id: nat, qos: nat)
    requires FreshRun(INITIAL, steps)
    requires var log := RunFrom(INITIAL, steps).log;
             && i < j < |log| && log[i].Marked? && log[j].Wrote?
             && StoredAs(log[..j], log[i].handle, id, qos) && id != 0 && !Gone(log[..j], log[i].handle)
    ensures RunFrom(INITIAL, steps).log[j].id != id
  {
    InitialInv();
    RunKeeps(INITIAL, steps);
    var s := RunFrom(INITIAL, steps);
    var log, h := s.log, s.log[i].handle;
    SafeAt(log, j);
    MarkedStays(log[..j], i, h);
    FateMeans(log[..j], h);
    assert Accounted(s, h);
    StoredGrows(log, j, h);
    StoredOnce(log[..j], h, id, qos);
  }

  // ------------------------------------------------------------------
  // Conservation
  // ------------------------------------------------------------------

  /** Over every run, each message ever stored is in the outbox or has left it exactly once. */
  lemma {:induction false} Conservation(steps: seq<Step>, h: nat)
    requires FreshRun(INITIAL, steps)
    ensures var s := RunFrom(INITIAL, steps);
            && FateOf(s.log, h).stored == (if h < s.next then 1 else 0)
            && FateOf(s.log, h).left + (if Held(s.items, h) then 1 else 0) == (if h < s.next then 1 else 0)
  {
    InitialInv();
    RunKeeps(INITIAL, steps);
    var s := RunFrom(INITIAL, steps);
    assert Accounted(s, h);
    if Held(s.items, h) {
      assert h < s.next;
    }
  }

  /** The message of this handle was stored before, under this identifier. */
  ghost predicate KnownAs(log: seq<Action>, h: nat, id: nat) {
    exists qos :: StoredAs(log, h, id, qos)
  }

  /** Over every run, a message that leaves by acknowledgement has its PUBLISHED event right after
      that, with the identifier it was stored under, and there are no other PUBLISHED events;
      only messages stored with QoS 0 leave by being sent. */
  lemma {:induction false} LeavingExact(steps: seq<Step>, j: nat)
    requires FreshRun(INITIAL, steps) && j < |RunFrom(INITIAL, steps).log|
    ensures var log := RunFrom(INITIAL, steps).log;
            && (log[j].Acked? ==> j + 1 < |log| && log[j + 1].Published? && KnownAs(log[..j], log[j].handle, log[j + 1].id))
            && (log[j].Published? ==> j > 0 && log[j - 1].Acked?)
            && (log[j].SentOnce? ==> exists id :: StoredAs(log[..j], log[j].handle, id, 0))
  {
    InitialInv();
    RunKeeps(INITIAL, steps);
    var log := RunFrom(INITIAL, steps).log;
    SafeAt(log, j);
    if log[j].Acked? {
      SafeAt(log, j + 1);
      AckedThenPublished(log, j);
    } else if log[j].SentOnce? {
      FateMeans(log[..j], log[j].handle);
    }
  }

  /** The fate behind an acknowledgement names the identifier of the event that follows. */
  lemma {:induction false} AckedThenPublished(log: seq<Action>, j: nat)
    requires Safe(log) && j + 1 < |log| && log[j].Acked? && log[j + 1].Published? && FateOf(log[..j], log[j].handle).stored > 0
    ensures KnownAs(log[..j], log[j].handle, log[j + 1].id)
  {
    var h := log[j].handle;
    assert log[..j + 1] == log[..j] + [log[j]];
    LogMore(log[..j], log[j], h);
    SafeAt(log, j + 1);
    FateMeans(log[..j], h);
    assert StoredAs(log[..j], h, FateOf(log[..j], h).id, FateOf(log[..j], h).qos);
  }
}
