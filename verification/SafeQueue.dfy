/** The gateway's queue between any number of producers and consumers, as an interleaving of
    critical sections. A consumer in `pop` is blocked on the condition variable, woken but not
    yet back in the mutex, or neither. */
module SafeQueue {
  type Thread = nat

  /** A finished `pop`: which consumer got what; `None` is `nullopt`. */
  datatype Popped = Item(who: Thread, record: string) | Nothing(who: Thread)

  datatype State = State(queue: seq<string>, aborted: bool, blocked: set<Thread>, woken: set<Thread>,
                         pushed: seq<string>, popped: seq<Popped>)

  const EMPTY := State([], false, {}, {}, [], [])

  datatype Step =
    | Push(record: string, wake: Thread)
    | Enter(who: Thread)
    | Resume(who: Thread)
    | Spurious(who: Thread)
    | Abort

  /** A thread is in one call of `pop` at a time, only a woken one resumes, and `notify_one`
      wakes one of the blocked if there are any. */
  predicate Legal(s: State, step: Step) {
    match step
    case Push(_, wake) => s.blocked == {} || wake in s.blocked
    case Enter(who) => who !in s.blocked && who !in s.woken
    case Resume(who) => who in s.woken
    case Spurious(who) => who in s.blocked
    case Abort => true
  }

  /** The rest of `pop` for a consumer that holds the mutex: the wait predicate, then the result. */
  function TryPop(s: State, who: Thread): State {
    if s.queue == [] && !s.aborted then s.(blocked := s.blocked + {who})
    else if s.queue == [] then s.(popped := s.popped + [Nothing(who)])
    else s.(queue := s.queue[1..], popped := s.popped + [Item(who, s.queue[0])])
  }

  function Next(s: State, step: Step): State {
    match step
    case Push(record, wake) =>
      var t := s.(queue := s.queue + [record], pushed := s.pushed + [record]);
      if s.blocked == {} then t else t.(blocked := s.blocked - {wake}, woken := s.woken + {wake})
    case Enter(who) => TryPop(s, who)
    case Resume(who) => TryPop(s.(woken := s.woken - {who}), who)
    case Spurious(who) => s.(blocked := s.blocked - {who}, woken := s.woken + {who})
    case Abort => s.(aborted := true, blocked := {}, woken := s.woken + s.blocked)
  }

  /** The records handed out, in the order of the pops. */
  function Records(popped: seq<Popped>): seq<string> {
    if popped == [] then []
    else
      var last := popped[|popped| - 1];
      Records(popped[..|popped| - 1]) + if last.Item? then [last.record] else []
  }

  lemma {:induction false} RecordsMore(popped: seq<Popped>, p: Popped)
    ensures Records(popped + [p]) == Records(popped) + if p.Item? then [p.record] else []
  {
    assert (popped + [p])[..|popped|] == popped;
  }

  /** No lost wake-up: while a consumer is blocked, the queue is not aborted and there are at
      least as many woken consumers as records. And records come out in the order they went
      in, none lost, none twice. */
  ghost predicate Inv(s: State) {
    && s.blocked !! s.woken
    && (s.blocked != {} ==> !s.aborted && |s.woken| >= |s.queue|)
    && s.pushed == Records(s.popped) + s.queue
  }

  lemma {:induction false} TakeKeepsOrder(pushed: seq<string>, popped: seq<Popped>, queue: seq<string>, who: Thread)
    requires queue != [] && pushed == Records(popped) + queue
    ensures pushed == Records(popped + [Item(who, queue[0])]) + queue[1..]
  {
    RecordsMore(popped, Item(who, queue[0]));
    assert queue == [queue[0]] + queue[1..];
    assert Records(popped) + ([queue[0]] + queue[1..]) == (Records(popped) + [queue[0]]) + queue[1..];
  }

  lemma {:induction false} TryPopKeeps(s: State, who: Thread)
    requires who !in s.blocked && who !in s.woken && s.blocked !! s.woken
    requires s.blocked != {} ==> !s.aborted && |s.woken| + 1 >= |s.queue|
    requires s.pushed == Records(s.popped) + s.queue
    ensures Inv(TryPop(s, who))
  {
    if s.queue == [] {
      RecordsMore(s.popped, Nothing(who));
    } else {
      TakeKeepsOrder(s.pushed, s.popped, s.queue, who);
    }
  }

  lemma {:induction false} PushKeeps(s: State, record: string, wake: Thread)
    requires Inv(s) && (s.blocked == {} || wake in s.blocked)
    ensures Inv(Next(s, Push(record, wake)))
  {
    assert Records(s.popped) + (s.queue + [record]) == (Records(s.popped) + s.queue) + [record];
    if wake in s.blocked {
      assert |s.woken + {wake}| == |s.woken| + 1;
    }
  }

  lemma {:induction false} StepKeeps(s: State, step: Step)
    requires Inv(s) && Legal(s, step)
    ensures Inv(Next(s, step))
  {
    match step
    case Push(record, wake) => PushKeeps(s, record, wake);
    case Enter(who) => TryPopKeeps(s, who);
    case Resume(who) => TryPopKeeps(s.(woken := s.woken - {who}), who);
    case Spurious(who) =>
    case Abort =>
  }

  function RunFrom(s: State, steps: seq<Step>): State {
    if steps == [] then s else Next(RunFrom(s, steps[..|steps| - 1]), steps[|steps| - 1])
  }

  predicate LegalRun(s: State, steps: seq<Step>) {
    steps == [] || (LegalRun(s, steps[..|steps| - 1]) && Legal(RunFrom(s, steps[..|steps| - 1]), steps[|steps| - 1]))
  }

  lemma {:induction false} RunKeeps(s: State, steps: seq<Step>)
    requires Inv(s) && LegalRun(s, steps)
    ensures Inv(RunFrom(s, steps))
  {
    if steps != [] {
      RunKeeps(s, steps[..|steps| - 1]);
      StepKeeps(RunFrom(s, steps[..|steps| - 1]), steps[|steps| - 1]);
    }
  }

  /** Over every run of any number of producers and consumers: no lost wake-up; what was popped
      followed by what is queued is what was pushed; and when no woken consumer is left to run,
      a blocked one means an empty queue. */
  lemma {:induction false} NoLostWakeup(steps: seq<Step>)
    requires LegalRun(EMPTY, steps)
    ensures var s := RunFrom(EMPTY, steps);
            && s.pushed == Records(s.popped) + s.queue
            && (s.blocked != {} ==> |s.woken| >= |s.queue|)
            && (s.blocked != {} && s.queue != [] ==> s.woken != {})
  {
    RunKeeps(EMPTY, steps);
  }

  /** The records given to `push` in the run, in order. */
  function PushedIn(steps: seq<Step>): seq<string> {
    if steps == [] then []
    else
      var last := steps[|steps| - 1];
      PushedIn(steps[..|steps| - 1]) + if last.Push? then [last.record] else []
  }

  lemma {:induction false} PushedIs(s: State, steps: seq<Step>)
    ensures RunFrom(s, steps).pushed == s.pushed + PushedIn(steps)
  {
    if steps != [] {
      PushedIs(s, steps[..|steps| - 1]);
    }
  }

  /** Over every run: the records of the pushes, in order, are what the pops handed out followed by
      what is queued. */
  lemma {:induction false} NothingLost(steps: seq<Step>)
    requires LegalRun(EMPTY, steps)
    ensures PushedIn(steps) == Records(RunFrom(EMPTY, steps).popped) + RunFrom(EMPTY, steps).queue
  {
    RunKeeps(EMPTY, steps);
    PushedIs(EMPTY, steps);
    assert EMPTY.pushed + PushedIn(steps) == PushedIn(steps);
  }

  /** Calls of `pop` by a thread in the run, and results it got. */
  function CallsIn(steps: seq<Step>, who: Thread): nat {
    if steps == [] then 0
    else CallsIn(steps[..|steps| - 1], who) + if steps[|steps| - 1] == Enter(who) then 1 else 0
  }

  function ResultsOf(popped: seq<Popped>, who: Thread): nat {
    if popped == [] then 0
    else ResultsOf(popped[..|popped| - 1], who) + if popped[|popped| - 1].who == who then 1 else 0
  }

  lemma {:induction false} ResultsMore(popped: seq<Popped>, p: Popped, who: Thread)
    ensures ResultsOf(popped + [p], who) == ResultsOf(popped, who) + if p.who == who then 1 else 0
  {
    assert (popped + [p])[..|popped|] == popped;
  }

  /** The thread is inside a call. */
  predicate Inside(s: State, who: Thread) {
    who in s.blocked || who in s.woken
  }

  lemma {:induction false} TryPopResults(s: State, taker: Thread, who: Thread)
    requires !Inside(s, taker)
    ensures ResultsOf(TryPop(s, taker).popped, who) + (if Inside(TryPop(s, taker), who) then 1 else 0)
         == ResultsOf(s.popped, who) + (if Inside(s, who) || who == taker then 1 else 0)
  {
    if s.queue == [] {
      ResultsMore(s.popped, Nothing(taker), who);
    } else {
      ResultsMore(s.popped, Item(taker, s.queue[0]), who);
    }
  }

  /** Over every run no consumer is lost: each call has had its result, or its thread is blocked
      or woken. */
  lemma {:induction false} NobodyLost(steps: seq<Step>, who: Thread)
    requires LegalRun(EMPTY, steps)
    ensures var s := RunFrom(EMPTY, steps);
            CallsIn(steps, who) == ResultsOf(s.popped, who) + if Inside(s, who) then 1 else 0
  {
    if steps != [] {
      var shorter, last := steps[..|steps| - 1], steps[|steps| - 1];
      var s := RunFrom(EMPTY, shorter);
      NobodyLost(shorter, who);
      RunKeeps(EMPTY, shorter);
      if last.Enter? {
        TryPopResults(s, last.who, who);
      } else if last.Resume? {
        TryPopResults(s.(woken := s.woken - {last.who}), last.who, who);
      }
    }
  }

  /** A push lets exactly one blocked consumer go on, if there is one, and adds its record behind
      the others; it hands nothing out. */
  lemma {:induction false} PushWakesOne(s: State, record: string, wake: Thread)
    requires Inv(s) && Legal(s, Push(record, wake))
    ensures var t := Next(s, Push(record, wake));
            && t.queue == s.queue + [record] && t.popped == s.popped && t.aborted == s.aborted
            && |t.blocked| == (if s.blocked == {} then 0 else |s.blocked| - 1)
            && t.blocked + t.woken == s.blocked + s.woken && t.blocked !! t.woken
  {
  }

  /** A run in which only woken consumers take their turns. */
  predicate OnlyResumes(steps: seq<Step>) {
    forall k :: 0 <= k < |steps| ==> steps[k].Resume?
  }

  /** Progress: while only woken consumers run, each turn leaves one fewer of them, so that there
      are at most as many turns as woken consumers; and when all have had their turn, the queue
      is empty or nobody is blocked. */
  lemma {:induction false} ResumesDrain(s: State, steps: seq<Step>)
    requires Inv(s) && LegalRun(s, steps) && OnlyResumes(steps)
    ensures |RunFrom(s, steps).woken| == |s.woken| - |steps|
    ensures |steps| == |s.woken| ==> RunFrom(s, steps).queue == [] || RunFrom(s, steps).blocked == {}
  {
    RunKeeps(s, steps);
    if steps != [] {
      var shorter := steps[..|steps| - 1];
      ResumesDrain(s, shorter);
    }
  }

  lemma {:induction false} LegalCons(s: State, a: Step, rest: seq<Step>)
    ensures RunFrom(s, [a] + rest) == RunFrom(Next(s, a), rest)
    ensures LegalRun(s, [a] + rest) <==> Legal(s, a) && LegalRun(Next(s, a), rest)
    decreases |rest|
  {
    var all := [a] + rest;
    if rest == [] {
      assert all[..0] == [];
    } else {
      assert all[..|all| - 1] == [a] + rest[..|rest| - 1];
      LegalCons(s, a, rest[..|rest| - 1]);
    }
  }

  lemma {:induction false} ResumeTakesOne(s: State, who: Thread)
    requires who in s.woken
    ensures Next(s, Resume(who)).woken == s.woken - {who} && |s.woken - {who}| == |s.woken| - 1
  {
  }

  lemma {:induction false} LetAllRun(s: State) returns (steps: seq<Step>)
    requires Inv(s)
    ensures LegalRun(s, steps) && OnlyResumes(steps) && RunFrom(s, steps).woken == {}
    decreases |s.woken|
  {
    if s.woken == {} {
      steps := [];
    } else {
      var who :| who in s.woken;
      StepKeeps(s, Resume(who));
      ResumeTakesOne(s, who);
      var rest := LetAllRun(Next(s, Resume(who)));
      LegalCons(s, Resume(who), rest);
      steps := [Resume(who)] + rest;
    }
  }

  /** Such a run can always go on until no woken consumer is left: no record stays queued while
      consumers are blocked and nobody is on the way to fetch it. */
  lemma {:induction false} CanDrain(s: State) returns (steps: seq<Step>)
    requires Inv(s)
    ensures LegalRun(s, steps) && OnlyResumes(steps) && RunFrom(s, steps).woken == {}
    ensures RunFrom(s, steps).queue == [] || RunFrom(s, steps).blocked == {}
  {
    steps := LetAllRun(s);
    RunKeeps(s, steps);
  }

  /** Abort happened at some point of the run. */
  predicate HasAbort(steps: seq<Step>) {
    exists k :: 0 <= k < |steps| && steps[k] == Abort
  }

  lemma {:induction false} AbortedStays(s: State, steps: seq<Step>)
    ensures RunFrom(s, steps).aborted <==> s.aborted || HasAbort(steps)
  {
    if steps != [] {
      var shorter := steps[..|steps| - 1];
      AbortedStays(s, shorter);
      if HasAbort(shorter) {
        var k :| 0 <= k < |shorter| && shorter[k] == Abort;
        assert steps[k] == Abort;
      }
    }
  }

  /** After abort nobody is blocked any more, and nobody blocks again. */
  lemma {:induction false} AbortReleases(steps: seq<Step>)
    requires LegalRun(EMPTY, steps) && HasAbort(steps)
    ensures RunFrom(EMPTY, steps).blocked == {}
  {
    RunKeeps(EMPTY, steps);
    AbortedStays(EMPTY, steps);
  }

  /** A step hands out `nullopt` exactly when the queue is aborted and drained. */
  lemma {:induction false} NothingStep(s: State, step: Step)
    requires Legal(s, step)
    ensures var t := Next(s, step);
            && (t.popped == s.popped || (|t.popped| == |s.popped| + 1 && t.popped[..|s.popped|] == s.popped))
            && (|t.popped| > |s.popped| && t.popped[|s.popped|].Nothing?
                <==> (step.Enter? || step.Resume?) && s.aborted && s.queue == [])
  {
  }

  /** Before turn `n` of the run, `k` pops had finished, the queue was aborted, and every record
      pushed so far had been popped. */
  ghost predicate DrainedBefore(steps: seq<Step>, n: nat, k: nat)
    requires n <= |steps|
  {
    var s := RunFrom(EMPTY, steps[..n]);
    HasAbort(steps[..n]) && |s.popped| == k && s.pushed == Records(s.popped)
  }

  lemma {:induction false} DrainedLonger(steps: seq<Step>, n: nat, k: nat)
    requires n < |steps| && DrainedBefore(steps[..|steps| - 1], n, k)
    ensures DrainedBefore(steps, n, k)
  {
    assert steps[..|steps| - 1][..n] == steps[..n];
  }

  lemma {:induction false} DrainedNow(steps: seq<Step>)
    requires steps != [] && LegalRun(EMPTY, steps)
    requires RunFrom(EMPTY, steps[..|steps| - 1]).aborted && RunFrom(EMPTY, steps[..|steps| - 1]).queue == []
    ensures DrainedBefore(steps, |steps| - 1, |RunFrom(EMPTY, steps[..|steps| - 1]).popped|)
  {
    RunKeeps(EMPTY, steps[..|steps| - 1]);
    AbortedStays(EMPTY, steps[..|steps| - 1]);
  }

  /** Over every run, at each empty result abort has happened, and all that was pushed until then
      had come out before. */
  lemma {:induction false} NothingMeansDrained(steps: seq<Step>, k: nat)
    requires LegalRun(EMPTY, steps)
    requires k < |RunFrom(EMPTY, steps).popped| && RunFrom(EMPTY, steps).popped[k].Nothing?
    ensures exists n :: 0 <= n < |steps| && DrainedBefore(steps, n, k)
  {
    var shorter, last := steps[..|steps| - 1], steps[|steps| - 1];
    var s := RunFrom(EMPTY, shorter);
    NothingStep(s, last);
    if k < |s.popped| {
      assert RunFrom(EMPTY, steps).popped[..|s.popped|][k] == s.popped[k];
      NothingMeansDrained(shorter, k);
      var n :| 0 <= n < |shorter| && DrainedBefore(shorter, n, k);
      DrainedLonger(steps, n, k);
    } else {
      DrainedNow(steps);
    }
  }

  // ------------------------------------------------------------------
  // The class
  // ------------------------------------------------------------------

  /** `SafeQueue` with its mutex and condition variable: every method is a critical section. */
  class Queue {
    var queue: seq<string>
    var aborted: bool
    var blocked: set<Thread>
    var woken: set<Thread>
    ghost var pushed: seq<string>
    ghost var popped: seq<Popped>

    ghost function Abs(): State
      reads this
    {
      State(queue, aborted, blocked, woken, pushed, popped)
    }

    constructor ()
      ensures Abs() == EMPTY && Inv(Abs())
    {
      queue, aborted, blocked, woken := [], false, {}, {};
      pushed, popped := [], [];
    }

    /** `push`; the condition variable may wake any of the blocked. */
    method Push(record: string) returns (ghost wake: Thread)
      requires Inv(Abs())
      modifies this
      ensures Legal(old(Abs()), Step.Push(record, wake)) && Abs() == Next(old(Abs()), Step.Push(record, wake))
      ensures Inv(Abs()) && queue == old(queue) + [record] && aborted == old(aborted)
      ensures if old(blocked) == {} then blocked == {} else wake in old(blocked) && blocked == old(blocked) - {wake}
    {
      wake := 0;
      ghost var before := Abs();
      queue := queue + [record];
      pushed := pushed + [record];
      if blocked != {} {
        var t :| t in blocked;
        wake := t;
        blocked, woken := blocked - {t}, woken + {t};
      }
      StepKeeps(before, Step.Push(record, wake));
    }

    /** The body of `pop` behind the lock. */
    method CheckAndTake(who: Thread) returns (returned: bool, record: seq<string>)
      modifies this
      ensures Abs() == TryPop(old(Abs()), who)
      ensures returned <==> old(queue) != [] || old(aborted)
      ensures returned ==> record == if old(queue) == [] then [] else [old(queue)[0]]
    {
      record := [];
      if queue == [] && !aborted {
        blocked := blocked + {who};
        return false, [];
      }
      returned := true;
      if aborted && queue == [] {
        popped := popped + [Nothing(who)];
        return;
      }
      popped := popped + [Item(who, queue[0])];
      record := [queue[0]];
      queue := queue[1..];
    }

    /** `pop` from the moment `who` holds the mutex, on entry or after a wake-up, to the moment
        it returns or blocks. */
    method Pop(who: Thread) returns (returned: bool, record: seq<string>)
      requires Inv(Abs()) && who !in blocked
      modifies this
      ensures Abs() == Next(old(Abs()), if who in old(woken) then Resume(who) else Enter(who)) && Inv(Abs())
      ensures returned <==> old(queue) != [] || old(aborted)
      ensures returned ==> record == if old(queue) == [] then [] else [old(queue)[0]]
    {
      StepKeeps(Abs(), if who in woken then Resume(who) else Enter(who));
      if who in woken {
        woken := woken - {who};
      }
      returned, record := CheckAndTake(who);
    }

    method Abort()
      requires Inv(Abs())
      modifies this
      ensures Abs() == Next(old(Abs()), Step.Abort) && Inv(Abs()) && blocked == {}
    {
      StepKeeps(Abs(), Step.Abort);
      aborted := true;
      woken := woken + blocked;
      blocked := {};
    }
  }
}
