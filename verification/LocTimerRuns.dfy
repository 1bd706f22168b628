/** The guarantees of the timer service over every interleaving of its threads. */
module LocTimerRuns {
  import opened Wrappers
  import opened HeapTree
  import opened LocTimer

  // ----- The history of one delegate -----

  predicate About(h: Happening, d: nat) {
    !h.CalledBack? && h.d == d
  }

  function HistoryOf(log: seq<Happening>, d: nat): seq<Happening> {
    if log == [] then []
    else HistoryOf(log[..|log| - 1], d) + if About(log[|log| - 1], d) then [log[|log| - 1]] else []
  }

  function Life(d: nat): seq<Happening> {
    [Pushed(d), Removed(d), Freed(d)]
  }

  /** How far delegate d has come: not created, ticking, stopped, freed. */
  function Stage(s: Sys, d: nat): nat {
    if d >= |s.owner| then 0 else if s.owner[d].Some? then 1 else if d !in s.freed then 2 else 3
  }

  /** Every delegate's history is a beginning of push, remove, free, as long as its stage. */
  ghost predicate HistoryOk(s: Sys) {
    forall d: nat :: HistoryOf(s.log, d) == Life(d)[..Stage(s, d)]
  }

  lemma HistoryGrows(log: seq<Happening>, h: Happening, d: nat)
    ensures HistoryOf(log + [h], d) == HistoryOf(log, d) + if About(h, d) then [h] else []
  {
    assert (log + [h])[..|log + [h]| - 1] == log;
  }

  /** Logging the next happening of one delegate's life moves it to the next stage. */
  lemma HistoryStep(s: Sys, n: Sys, h: Happening)
    requires HistoryOk(s) && !h.CalledBack? && n.log == s.log + [h]
    requires Stage(s, h.d) < 3 && h == Life(h.d)[Stage(s, h.d)]
    requires forall d: nat :: Stage(n, d) == Stage(s, d) + if d == h.d then 1 else 0
    ensures HistoryOk(n)
  {
    forall d: nat
      ensures HistoryOf(n.log, d) == Life(d)[..Stage(n, d)]
    {
      HistoryGrows(s.log, h, d);
    }
  }

  lemma HistorySame(s: Sys, n: Sys)
    requires HistoryOk(s) && n.owner == s.owner && n.freed == s.freed
    requires n.log == s.log || exists c :: n.log == s.log + [CalledBack(c)]
    ensures HistoryOk(n)
  {
    forall d: nat
      ensures HistoryOf(n.log, d) == Life(d)[..Stage(n, d)]
    {
      if n.log != s.log {
        var c :| n.log == s.log + [CalledBack(c)];
        HistoryGrows(s.log, CalledBack(c), d);
      }
    }
  }

  lemma StopKeepsHistory(s: Sys, client: nat)
    requires LifeInv(s) && Refers(s) && HistoryOk(s)
    ensures HistoryOk(DoStop(s, client))
  {
    if client in s.timers {
      var d := s.timers[client];
      assert d !in s.freed by {
        assert d in s.freed ==> Gone(s, d);
      }
      HistoryStep(s, DoStop(s, client), Removed(d));
    }
  }

  lemma StartKeepsHistory(s: Sys, client: nat, ms: nat)
    requires LifeInv(s) && HistoryOk(s)
    ensures HistoryOk(DoStart(s, client, ms))
  {
    if client !in s.timers {
      HistoryStep(s, DoStart(s, client, ms), Pushed(|s.delegates|));
    }
  }

  lemma TaskKeepsHistory(s: Sys)
    requires LifeInv(s) && Refers(s) && HistoryOk(s)
    ensures HistoryOk(DoTask(s))
  {
    hide LifeInv, HistoryOk, HistoryOf, DoStop;
    match s.task
    case Deleting(d) => FreeKeepsHistory(s, d);
    case Stopping(_, client) =>
      StopKeepsHistory(s, client);
      StopLogs(s, client);
      HistorySame(DoStop(s, client), DoTask(s));
    case _ => HistorySame(s, DoTask(s));
  }

  lemma StopLogs(s: Sys, client: nat)
    requires Refers(s) && s.task.Stopping? && s.task.client == client
    ensures var n := DoTask(s);
            && n.owner == DoStop(s, client).owner && n.freed == DoStop(s, client).freed
            && (n.log == DoStop(s, client).log || n.log == DoStop(s, client).log + [CalledBack(client)])
  {
  }

  lemma FreeKeepsHistory(s: Sys, d: nat)
    requires LifeInv(s) && Refers(s) && HistoryOk(s) && s.task == Deleting(d)
    ensures HistoryOk(DoTask(s))
  {
    hide HistoryOk, HistoryOf;
    assert Gone(s, d);
    HistoryStep(s, DoTask(s), Freed(d));
  }

  lemma StepKeepsHistory(s: Sys, step: Step)
    requires LifeInv(s) && Refers(s) && HistoryOk(s)
    ensures HistoryOk(Do(s, step))
  {
    match step
    case Tick(to) => HistorySame(s, Do(s, step));
    case Start(client, ms) => StartKeepsHistory(s, client, ms);
    case Stop(client) => StopKeepsHistory(s, client);
    case TaskStep => TaskKeepsHistory(s);
    case PollStep => HistorySame(s, Do(s, step));
  }

  // ----- Runs -----

  ghost predicate Inv(s: Sys) {
    LifeInv(s) && WakeInv(s) && HistoryOk(s)
  }

  lemma StepKeepsInv(s: Sys, step: Step)
    requires Inv(s)
    ensures Refers(s) && Inv(Do(s, step))
  {
    LifeRefers(s);
    StepKeepsLife(s, step);
    StepKeepsWake(s, step);
    StepKeepsHistory(s, step);
  }

  ghost function Run(s: Sys, steps: seq<Step>): Sys
    requires Inv(s)
    decreases |steps|
  {
    if steps == [] then s
    else
      StepKeepsInv(s, steps[0]);
      Run(Do(s, steps[0]), steps[1..])
  }

  lemma {:induction false} RunKeepsInv(s: Sys, steps: seq<Step>)
    requires Inv(s)
    ensures Inv(Run(s, steps))
    decreases |steps|
  {
    if steps != [] {
      StepKeepsInv(s, steps[0]);
      RunKeepsInv(Do(s, steps[0]), steps[1..]);
    }
  }

  lemma InitialIsFine(now: Time)
    ensures Inv(Initial(now))
  {
    forall d: nat
      ensures HistoryOf([], d) == Life(d)[..0]
    {
    }
  }

  /** The system after an interleaving of steps that started with no timers. */
  ghost function Reach(now: Time, steps: seq<Step>): Sys {
    InitialIsFine(now);
    Run(Initial(now), steps)
  }

  lemma ReachIsFine(now: Time, steps: seq<Step>)
    ensures Inv(Reach(now, steps))
  {
    InitialIsFine(now);
    RunKeepsInv(Initial(now), steps);
  }

  /** No lost wakeup: whenever timers are ticking and the message task is between messages, the
      fd is polled and armed at exactly the top timer's expiry, or an expire message is queued,
      or the poll thread is on its way to sending one. */
  lemma NoLostWakeup(now: Time, steps: seq<Step>)
    ensures var s := Reach(now, steps);
            s.heap.Node? && s.task.Idle? ==> ArmedForTop(s) || ExpiryUnderWay(s)
  {
    ReachIsFine(now, steps);
  }

  /** The branch of updateSoonestTime that stops polling and disarms the fd is never taken, so
      the fd stays polled and armed when the last timer is removed. */
  lemma NeverDisarmedByTheTask(now: Time, steps: seq<Step>)
    ensures var s := Reach(now, steps);
            !s.task.RemovingPoll? && !s.task.Disarming?
  {
    ReachIsFine(now, steps);
  }

  /** A delegate's push precedes its single remove, and its single free follows that. */
  lemma LifeOverEveryRun(now: Time, steps: seq<Step>, d: nat)
    ensures var s := Reach(now, steps);
            && HistoryOf(s.log, d) == Life(d)[..Stage(s, d)]
            && (Stage(s, d) == 2 ==> MsgTimerRemove(d) in s.queue || BeingDeleted(s.task) == Some(d))
  {
    ReachIsFine(now, steps);
  }

  /** The delegates that a step dereferences. */
  ghost function Touches(s: Sys, step: Step): set<nat>
    requires Refers(s)
  {
    var heap := set x | x in Elements(s.heap) :: x.addr;
    match step
    case Stop(c) => if c in s.timers then {s.timers[c]} else {}
    case TaskStep =>
      (match s.task
       case Idle =>
         if s.queue == [] || s.queue[0].MsgTimerExpire? then {} else heap + {s.queue[0].d}
       case SettingTime(_) => heap
       case Popping(_, _) => heap
       case Expiring(_, d) => {d}
       case Deleting(d) => {d}
       case Stopping(_, c) => if c in s.timers then {s.timers[c]} else {}
       case _ => {})
    case _ => {}
  }

  /** No step of any run dereferences a freed delegate; nor is one in the heap, in a queued
      message or in a client's hands. */
  lemma NoUseAfterFree(now: Time, steps: seq<Step>, step: Step)
    ensures var s := Reach(now, steps);
            && Refers(s) && Touches(s, step) !! s.freed
            && (forall x :: x in Elements(s.heap) ==> x.addr !in s.freed)
            && (forall m :: m in s.queue && !m.MsgTimerExpire? ==> m.d !in s.freed)
            && (forall c :: c in s.timers ==> s.timers[c] !in s.freed)
  {
    ReachIsFine(now, steps);
    hide Reach, HistoryOk, WakeInv, LifeInv, Touches;
    var s := Reach(now, steps);
    LifeRefers(s);
    NothingFreedIsHeld(s);
    HeldIsTouched(s, step);
  }

  /** What a step dereferences is held by the heap, a message, a client or the message task. */
  ghost predicate NoneFreed(s: Sys) {
    && (forall x :: x in Elements(s.heap) ==> x.addr !in s.freed)
    && (forall m :: m in s.queue && !m.MsgTimerExpire? ==> m.d !in s.freed)
    && (forall c :: c in s.timers ==> s.timers[c] !in s.freed)
    && (s.task.Expiring? || s.task.Deleting? ==> s.task.d !in s.freed)
  }

  lemma NothingFreedIsHeld(s: Sys)
    requires LifeInv(s)
    ensures NoneFreed(s)
  {
    forall x | x in Elements(s.heap)
      ensures x.addr !in s.freed
    {
      assert InHeap(s.delegates, s.heap, x.addr);
      assert x.addr in s.freed ==> Gone(s, x.addr);
    }
    forall m | m in s.queue && !m.MsgTimerExpire?
      ensures m.d !in s.freed
    {
      assert MsgOk(s, m);
    }
    forall c | c in s.timers
      ensures s.timers[c] !in s.freed
    {
      assert s.timers[c] in s.freed ==> Gone(s, s.timers[c]);
    }
    assert s.task.Deleting? ==> BeingDeleted(s.task) == Some(s.task.d);
  }

  lemma HeldIsTouched(s: Sys, step: Step)
    requires Refers(s) && NoneFreed(s)
    ensures Touches(s, step) !! s.freed
  {
    assert s.queue != [] ==> s.queue[0] in s.queue;
  }

  // ----- A run in which the wrong timer is called back for -----

  /** A client's timer of 1 s, just pushed, armed, delivered by the poll thread, and popped: its client
      is about to be stopped. */
  function Ticking(): Sys {
    Sys([Rankable(0, 1, 0)], [Some(0)], [0], {}, map[0 := 0], [], Idle, Waiting, Single(Rankable(0, 1, 0)),
        true, Some(Time(1, 0)), Time(0, 0), [Pushed(0)])
  }

  function Delivered(): Sys {
    Ticking().(queue := [MsgTimerExpire], polled := false, armed := None, now := Time(1, 0))
  }

  function Popped(): Sys {
    Delivered().(queue := [], heap := Nil, task := Stopping(Time(1, 0), 0))
  }

  lemma RunFirst(s: Sys, steps: seq<Step>, rest: seq<Step>)
    requires Inv(s) && steps != [] && steps[1..] == rest
    ensures Refers(s) && Inv(Do(s, steps[0]))
    ensures Run(s, steps) == Run(Do(s, steps[0]), rest)
  {
    StepKeepsInv(s, steps[0]);
  }

  lemma RunNothing(s: Sys)
    requires Inv(s)
    ensures Run(s, []) == s
  {
  }

  lemma {:induction false} RunAppend(s: Sys, a: seq<Step>, b: seq<Step>)
    requires Inv(s)
    ensures Inv(Run(s, a)) && Run(s, a + b) == Run(Run(s, a), b)
    decreases |a|
  {
    hide Inv, Run, Do;
    RunKeepsInv(s, a);
    if a == [] {
      assert a + b == b;
      RunNothing(s);
    } else {
      RunFirst(s, a, a[1..]);
      RunFirst(s, a + b, a[1..] + b);
      RunAppend(Do(s, a[0]), a[1..], b);
    }
  }

  lemma TickingIsReached()
    requires Inv(Initial(Time(0, 0)))
    ensures Run(Initial(Time(0, 0)), [Start(0, 1000), TaskStep, TaskStep, TaskStep]) == Ticking()
  {
    hide Inv, Run;
    var s0 := Initial(Time(0, 0));
    RunFirst(s0, [Start(0, 1000), TaskStep, TaskStep, TaskStep], [TaskStep, TaskStep, TaskStep]);
    var s1 := Do(s0, Start(0, 1000));
    RunFirst(s1, [TaskStep, TaskStep, TaskStep], [TaskStep, TaskStep]);
    var s2 := Do(s1, TaskStep);
    RunFirst(s2, [TaskStep, TaskStep], [TaskStep]);
    var s3 := Do(s2, TaskStep);
    RunFirst(s3, [TaskStep], []);
    RunNothing(Do(s3, TaskStep));
  }

  lemma DeliveredIsReached()
    requires Inv(Ticking())
    ensures Run(Ticking(), [Tick(Time(1, 0)), PollStep, PollStep, PollStep, PollStep]) == Delivered()
  {
    hide Inv, Run;
    var s0 := Ticking();
    RunFirst(s0, [Tick(Time(1, 0)), PollStep, PollStep, PollStep, PollStep], [PollStep, PollStep, PollStep, PollStep]);
    var s1 := Do(s0, Tick(Time(1, 0)));
    RunFirst(s1, [PollStep, PollStep, PollStep, PollStep], [PollStep, PollStep, PollStep]);
    var s2 := Do(s1, PollStep);
    RunFirst(s2, [PollStep, PollStep, PollStep], [PollStep, PollStep]);
    var s3 := Do(s2, PollStep);
    RunFirst(s3, [PollStep, PollStep], [PollStep]);
    var s4 := Do(s3, PollStep);
    RunFirst(s4, [PollStep], []);
    RunNothing(Do(s4, PollStep));
  }

  lemma PoppedIsReached()
    requires Inv(Delivered())
    ensures Run(Delivered(), [TaskStep, TaskStep, TaskStep]) == Popped()
  {
    hide Inv, Run;
    var s0 := Delivered();
    RunFirst(s0, [TaskStep, TaskStep, TaskStep], [TaskStep, TaskStep]);
    var s1 := Do(s0, TaskStep);
    RunFirst(s1, [TaskStep, TaskStep], [TaskStep]);
    var s2 := Do(s1, TaskStep);
    RunFirst(s2, [TaskStep], []);
    RunNothing(Do(s2, TaskStep));
  }

  function EarlySteps(): seq<Step> {
    [Start(0, 1000), TaskStep, TaskStep, TaskStep]
    + ([Tick(Time(1, 0)), PollStep, PollStep, PollStep, PollStep]
    + ([TaskStep, TaskStep, TaskStep]
    + [Stop(0), Start(0, 5000), TaskStep]))
  }

  lemma RestartAfterPop()
    requires Inv(Popped())
    ensures var s := Run(Popped(), [Stop(0), Start(0, 5000), TaskStep]);
            && s.log == [Pushed(0), Removed(0), Pushed(1), Removed(1), CalledBack(0)]
            && s.now == Time(1, 0) && s.delegates == [Rankable(0, 1, 0), Rankable(1, 6, 0)]
  {
    hide Inv, Run;
    var s0 := Popped();
    RunFirst(s0, [Stop(0), Start(0, 5000), TaskStep], [Start(0, 5000), TaskStep]);
    var s1 := Do(s0, Stop(0));
    RunFirst(s1, [Start(0, 5000), TaskStep], [TaskStep]);
    var s2 := Do(s1, Start(0, 5000));
    RunFirst(s2, [TaskStep], []);
    RunNothing(Do(s2, TaskStep));
  }

  /** A client that stops its timer and starts a new one between expire()'s two looks at it has the
      new one stopped and is called back for it at once, before its time: here 5 s early. */
  lemma RestartedTimerIsCalledBackEarly()
    ensures var s := Reach(Time(0, 0), EarlySteps());
            && s.log == [Pushed(0), Removed(0), Pushed(1), Removed(1), CalledBack(0)]
            && s.now == Time(1, 0) && s.delegates == [Rankable(0, 1, 0), Rankable(1, 6, 0)]
  {
    hide Inv, Run;
    var rest := [Stop(0), Start(0, 5000), TaskStep];
    InitialIsFine(Time(0, 0));
    RunAppend(Initial(Time(0, 0)), [Start(0, 1000), TaskStep, TaskStep, TaskStep],
              [Tick(Time(1, 0)), PollStep, PollStep, PollStep, PollStep] + ([TaskStep, TaskStep, TaskStep] + rest));
    TickingIsReached();
    RunAppend(Ticking(), [Tick(Time(1, 0)), PollStep, PollStep, PollStep, PollStep], [TaskStep, TaskStep, TaskStep] + rest);
    DeliveredIsReached();
    RunAppend(Delivered(), [TaskStep, TaskStep, TaskStep], rest);
    PoppedIsReached();
    RestartAfterPop();
  }
}
