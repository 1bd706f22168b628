/** Which timer an expiry stops, and what a client is called back for, over every interleaving. */
module LocTimerCallbacks {
  import opened Wrappers
  import opened LocTimer
  import opened LocTimerRuns

  // ----- The clients' timers while the message task stands still -----

  /** The last time that client called start or stop. */
  function LastCall(steps: seq<Step>, client: nat): Option<Step> {
    if steps == [] then None
    else
      var last := steps[|steps| - 1];
      if (last.Start? || last.Stop?) && last.client == client then Some(last) else LastCall(steps[..|steps| - 1], client)
  }

  lemma {:induction false} LastCallFirst(steps: seq<Step>, client: nat)
    requires steps != []
    ensures LastCall(steps, client) ==
            if LastCall(steps[1..], client).Some? then LastCall(steps[1..], client) else LastCall(steps[..1], client)
  {
    if |steps| > 1 {
      var front := steps[..|steps| - 1];
      LastCallFirst(front, client);
      assert front[..1] == steps[..1];
      assert steps[1..][..|steps| - 2] == front[1..];
    }
  }

  /** One step of another thread than the message task. */
  lemma OtherStep(s: Sys, step: Step, client: nat)
    requires Refers(s) && !step.TaskStep?
    ensures var n := Do(s, step);
            var call := LastCall([step], client);
            && n.task == s.task && |s.delegates| <= |n.delegates|
            && (client in n.timers <==> if call.Some? then call.value.Start? else client in s.timers)
            && (client in n.timers ==>
                  n.timers[client] == if client in s.timers then s.timers[client] else |s.delegates|)
            && (client in s.timers ==> (client in n.timers <==> step != Stop(client)))
            && (step == Stop(client) ==> client !in n.timers)
  {
    assert [step][..0] == [];
  }

  /** A client has a timer if its last call was a start, or it made none and had one: the same one
      if it has not stopped it, and otherwise one that was created meanwhile. */
  lemma {:induction false} TimersAfter(s: Sys, mid: seq<Step>, client: nat)
    requires Inv(s) && TaskStep !in mid
    ensures var t := Run(s, mid);
            var call := LastCall(mid, client);
            && t.task == s.task && |s.delegates| <= |t.delegates|
            && (client in t.timers <==> if call.Some? then call.value.Start? else client in s.timers)
            && (client in t.timers ==>
                  if client in s.timers && Stop(client) !in mid then t.timers[client] == s.timers[client]
                  else t.timers[client] >= |s.delegates|)
    decreases |mid|
  {
    hide Inv, Do, Refers, Run, LastCall;
    if mid == [] {
      RunNothing(s);
      NoCall(client);
    } else {
      var step := mid[0];
      assert step in mid && mid == [step] + mid[1..];
      RunFirst(s, mid, mid[1..]);
      OtherStep(s, step, client);
      TimersAfter(Do(s, step), mid[1..], client);
      LastCallFirst(mid, client);
      assert mid[..1] == [step];
    }
  }

  lemma NoCall(client: nat)
    ensures LastCall([], client) == None
  {
  }

  /** What the message task, about to stop the client of delegate d, does in state t: it calls the client
      back for d if and only if the client has not called stop() in mid; for another delegate, created in
      mid, if and only if it has and its last call was a start(); for none if and only if its last
      call was a stop(). */
  ghost predicate CallsBack(t: Sys, client: nat, d: nat, created: nat, mid: seq<Step>) {
    var call := LastCall(mid, client);
    && Refers(t)
    && DoTask(t).log == t.log + (if client in t.timers then [Removed(t.timers[client]), CalledBack(client)] else [])
    && (client in t.timers && t.timers[client] == d <==> Stop(client) !in mid)
    && (client in t.timers && t.timers[client] != d <==> Stop(client) in mid && call.Some? && call.value.Start?)
    && (client in t.timers && t.timers[client] != d ==> t.timers[client] >= created)
    && (client !in t.timers <==> call == Some(Stop(client)))
  }

  /** Between expire()'s unlocked look at mClient and the stop() it calls, other threads may do anything. */
  lemma WhoIsCalledBack(s: Sys, now: Time, d: nat, client: nat, mid: seq<Step>)
    requires Inv(s) && Refers(s) && s.task == Expiring(now, d) && s.owner[d] == Some(client) && TaskStep !in mid
    ensures Inv(DoTask(s)) && Run(DoTask(s), mid).task == Stopping(now, client)
    ensures CallsBack(Run(DoTask(s), mid), client, d, |s.delegates|, mid)
  {
    hide Run, LastCall, CallsBack, HistoryOk, WakeInv;
    StepKeepsInv(s, TaskStep);
    ExpiringIsTicking(s, d, client);
    StoppedMeanwhile(DoTask(s), now, d, client, mid);
  }

  lemma ExpiringIsTicking(s: Sys, d: nat, client: nat)
    requires Inv(s) && Refers(s) && d < |s.owner| && s.owner[d] == Some(client)
    ensures client in s.timers && s.timers[client] == d
  {
  }

  lemma StoppedMeanwhile(m: Sys, now: Time, d: nat, client: nat, mid: seq<Step>)
    requires Inv(m) && m.task == Stopping(now, client) && TaskStep !in mid
    requires client in m.timers && m.timers[client] == d < |m.delegates|
    ensures Run(m, mid).task == Stopping(now, client) && CallsBack(Run(m, mid), client, d, |m.delegates|, mid)
  {
    hide Run, LastCall, Inv, DoTask, Refers;
    TimersAfter(m, mid, client);
    RunKeepsInv(m, mid);
    InvRefers(Run(m, mid));
    CallsInclude(mid, client);
    StoppingCallsBack(Run(m, mid), now, client);
  }

  lemma InvRefers(s: Sys)
    requires Inv(s)
    ensures Refers(s)
  {
    LifeRefers(s);
  }

  lemma StoppingCallsBack(t: Sys, now: Time, client: nat)
    requires Refers(t) && t.task == Stopping(now, client)
    ensures DoTask(t).log == t.log + if client in t.timers then [Removed(t.timers[client]), CalledBack(client)] else []
  {
    if client in t.timers {
      var d := t.timers[client];
      assert t.log + [Removed(d)] + [CalledBack(client)] == t.log + [Removed(d), CalledBack(client)];
    }
  }

  lemma {:induction false} CallsInclude(steps: seq<Step>, client: nat)
    ensures var call := LastCall(steps, client);
            && (call.Some? ==> call.value in steps && (call.value.Start? || call.value == Stop(client)))
            && (call.None? ==> Stop(client) !in steps)
  {
    if steps != [] {
      CallsInclude(steps[..|steps| - 1], client);
      assert steps == steps[..|steps| - 1] + [steps[|steps| - 1]];
    }
  }

  // ----- Callbacks over every run -----

  /** Every callback directly follows the removal of a delegate that was created for that client. */
  ghost predicate CallbacksOk(s: Sys) {
    && TimersOk(s)
    && (forall i :: 0 <= i < |s.log| && s.log[i].CalledBack? ==> AfterRemoval(s, i))
  }

  predicate AfterRemoval(s: Sys, i: nat)
    requires i < |s.log| && s.log[i].CalledBack?
  {
    && i > 0 && s.log[i - 1].Removed? && s.log[i - 1].d < |s.startedBy|
    && s.startedBy[s.log[i - 1].d] == s.log[i].client
  }

  /** What a step adds to the log. */
  function Added(s: Sys, step: Step): seq<Happening>
    requires Refers(s)
  {
    match step
    case Start(c, _) => if c in s.timers then [] else [Pushed(|s.delegates|)]
    case Stop(c) => if c in s.timers then [Removed(s.timers[c])] else []
    case TaskStep =>
      (match s.task
       case Deleting(d) => [Freed(d)]
       case Stopping(_, c) => if c in s.timers then [Removed(s.timers[c]), CalledBack(c)] else []
       case _ => [])
    case _ => []
  }

  lemma StepAdds(s: Sys, step: Step)
    requires Refers(s)
    ensures Do(s, step).log == s.log + Added(s, step)
  {
    if step.TaskStep? && s.task.Stopping? {
      StoppingCallsBack(s, s.task.now, s.task.client);
    }
  }

  /** The part of the invariant that knows whose each timer is. */
  ghost predicate TimersOk(s: Sys) {
    && |s.startedBy| == |s.delegates|
    && (forall c :: c in s.timers ==> s.timers[c] < |s.startedBy| && s.startedBy[s.timers[c]] == c)
  }

  lemma StopStarts(s: Sys, client: nat)
    requires Refers(s) && TimersOk(s)
    ensures TimersOk(DoStop(s, client)) && DoStop(s, client).startedBy == s.startedBy
  {
  }

  lemma StartStarts(s: Sys, client: nat, ms: nat)
    requires TimersOk(s)
    ensures TimersOk(DoStart(s, client, ms)) && s.startedBy <= DoStart(s, client, ms).startedBy
  {
  }

  lemma TaskStarts(s: Sys)
    requires Refers(s) && TimersOk(s)
    ensures TimersOk(DoTask(s)) && DoTask(s).startedBy == s.startedBy
  {
    hide TimersOk, DoStop;
    if s.task.Stopping? {
      StopStarts(s, s.task.client);
      SameTimers(DoStop(s, s.task.client), DoTask(s));
    } else {
      SameTimers(s, DoTask(s));
    }
  }

  lemma SameTimers(s: Sys, n: Sys)
    requires TimersOk(s)
    requires n.timers == s.timers && n.startedBy == s.startedBy && n.delegates == s.delegates
    ensures TimersOk(n)
  {
  }

  lemma StepStarts(s: Sys, step: Step)
    requires Refers(s) && TimersOk(s)
    ensures TimersOk(Do(s, step)) && s.startedBy <= Do(s, step).startedBy
  {
    hide TimersOk, DoStop, DoStart, DoTask;
    match step
    case Tick(_) => SameTimers(s, Do(s, step));
    case Start(c, ms) => StartStarts(s, c, ms);
    case Stop(c) => StopStarts(s, c);
    case TaskStep => TaskStarts(s);
    case PollStep => SameTimers(s, Do(s, step));
  }

  lemma StepKeepsCallbacks(s: Sys, step: Step)
    requires Refers(s) && CallbacksOk(s)
    ensures CallbacksOk(Do(s, step))
  {
    var n := Do(s, step);
    StepAdds(s, step);
    StepStarts(s, step);
    hide Do, Refers;
    forall i | 0 <= i < |n.log| && n.log[i].CalledBack?
      ensures AfterRemoval(n, i)
    {
      if i < |s.log| {
        assert s.log[i] == n.log[i] && AfterRemoval(s, i);
      } else {
        assert n.log[i] == Added(s, step)[i - |s.log|] && n.log[i - 1] == Added(s, step)[i - |s.log| - 1];
      }
    }
  }

  lemma {:induction false} RunKeepsCallbacks(s: Sys, steps: seq<Step>)
    requires Inv(s) && CallbacksOk(s)
    ensures CallbacksOk(Run(s, steps)) && s.log <= Run(s, steps).log
    decreases |steps|
  {
    hide Inv, Do, Refers, CallbacksOk, Added;
    if steps == [] {
      RunNothing(s);
    } else {
      RunFirst(s, steps, steps[1..]);
      InvRefers(s);
      StepKeepsCallbacks(s, steps[0]);
      StepAdds(s, steps[0]);
      RunKeepsCallbacks(Do(s, steps[0]), steps[1..]);
    }
  }

  // ----- No delegate is removed twice -----

  lemma {:induction false} HistoryCounts(log: seq<Happening>, d: nat)
    ensures multiset(log)[Removed(d)] == multiset(HistoryOf(log, d))[Removed(d)]
  {
    if log != [] {
      var front, last := log[..|log| - 1], log[|log| - 1];
      HistoryCounts(front, d);
      assert log == front + [last];
    }
  }

  lemma TwoCopies(log: seq<Happening>, i: nat, j: nat)
    requires i < j < |log| && log[i] == log[j]
    ensures multiset(log)[log[i]] >= 2
  {
    assert log == log[..j] + [log[j]] + log[j + 1..];
    assert log[..j][i] == log[j];
  }

  lemma RemovedOnce(s: Sys, i: nat, j: nat)
    requires HistoryOk(s) && i < |s.log| && j < |s.log| && s.log[i].Removed? && s.log[j] == s.log[i]
    ensures i == j
  {
    var d := s.log[i].d;
    HistoryCounts(s.log, d);
    assert HistoryOf(s.log, d) == Life(d)[..Stage(s, d)];
    AtMostOneRemoved(d, Stage(s, d));
    if i < j {
      TwoCopies(s.log, i, j);
    } else if j < i {
      TwoCopies(s.log, j, i);
    }
  }

  lemma RemovedOnceByInv(s: Sys, i: nat, j: nat)
    requires Inv(s) && i < |s.log| && j < |s.log| && s.log[i].Removed? && s.log[j] == s.log[i]
    ensures i == j
  {
    RemovedOnce(s, i, j);
  }

  lemma AtMostOneRemoved(d: nat, stage: nat)
    requires stage <= 3
    ensures multiset(Life(d)[..stage])[Removed(d)] <= 1
  {
    if stage == 0 {
      assert Life(d)[..0] == [];
    } else if stage == 1 {
      assert Life(d)[..1] == [Pushed(d)];
    } else if stage == 2 {
      assert Life(d)[..2] == [Pushed(d), Removed(d)];
    } else {
      assert Life(d)[..3] == [Pushed(d), Removed(d), Freed(d)];
    }
  }

  lemma InitialCallbacks(now: Time)
    ensures CallbacksOk(Initial(now))
  {
  }

  /** Entry i of the log is a callback for delegate d. */
  predicate CalledBackFor(s: Sys, i: nat, d: nat) {
    0 < i < |s.log| && s.log[i].CalledBack? && s.log[i - 1] == Removed(d)
  }

  lemma CalledBackOnce(s: Sys, i: nat, j: nat, d: nat)
    requires Inv(s) && CalledBackFor(s, i, d) && CalledBackFor(s, j, d)
    ensures i == j
  {
    RemovedOnceByInv(s, i - 1, j - 1);
  }

  /** Over every run each callback is for a delegate that its client started and that was removed just
      before, and no delegate is called back for twice. */
  lemma CallbacksOverEveryRun(now: Time, steps: seq<Step>)
    ensures var s := Reach(now, steps);
            && (forall i :: 0 <= i < |s.log| && s.log[i].CalledBack? ==> AfterRemoval(s, i))
            && (forall i, j, d :: CalledBackFor(s, i, d) && CalledBackFor(s, j, d) ==> i == j)
  {
    InitialIsFine(now);
    InitialCallbacks(now);
    RunKeepsCallbacks(Initial(now), steps);
    ReachIsFine(now, steps);
    hide Inv, CalledBackFor, AfterRemoval, TimersOk, Run;
    var s := Reach(now, steps);
    forall i, j, d | CalledBackFor(s, i, d) && CalledBackFor(s, j, d)
      ensures i == j
    {
      CalledBackOnce(s, i, j, d);
    }
  }

  /** What a run adds to the log does not begin with a callback. */
  lemma {:induction false} RunAddsNoCallbackFirst(s: Sys, steps: seq<Step>)
    requires Inv(s)
    ensures s.log <= Run(s, steps).log
    ensures |Run(s, steps).log| > |s.log| ==> !Run(s, steps).log[|s.log|].CalledBack?
    decreases |steps|
  {
    hide Inv, Do, Refers;
    if steps == [] {
      RunNothing(s);
    } else {
      RunFirst(s, steps, steps[1..]);
      InvRefers(s);
      StepAdds(s, steps[0]);
      RunAddsNoCallbackFirst(Do(s, steps[0]), steps[1..]);
    }
  }

  /** A delegate that its client stops is never called back for, however the run goes on. */
  lemma StoppedIsNeverCalledBack(now: Time, before: seq<Step>, client: nat, after: seq<Step>)
    ensures Inv(Reach(now, before)) && Refers(Reach(now, before)) && Inv(Do(Reach(now, before), Stop(client)))
    ensures var s := Reach(now, before);
            var t := Run(Do(s, Stop(client)), after);
            client in s.timers ==> forall i :: !CalledBackFor(t, i, s.timers[client])
  {
    var s := Reach(now, before);
    ReachIsFine(now, before);
    StepKeepsInv(s, Stop(client));
    if client in s.timers {
      StopSilences(s, client, after);
    }
  }

  lemma StopSilences(s: Sys, client: nat, after: seq<Step>)
    requires Inv(s) && Refers(s) && client in s.timers && Inv(Do(s, Stop(client)))
    ensures var t := Run(Do(s, Stop(client)), after);
            forall i :: !CalledBackFor(t, i, s.timers[client])
  {
    hide Run, Do, Inv, Refers, CalledBackFor;
    var n, d := Do(s, Stop(client)), s.timers[client];
    StepAdds(s, Stop(client));
    RunAddsNoCallbackFirst(n, after);
    RunKeepsInv(n, after);
    var t := Run(n, after);
    forall i
      ensures !CalledBackFor(t, i, d)
    {
      RemovedThenQuiet(t, |s.log|, d, i);
    }
  }

  lemma RemovedThenQuiet(t: Sys, k: nat, d: nat, i: nat)
    requires Inv(t) && k < |t.log| && t.log[k] == Removed(d) && (k + 1 < |t.log| ==> !t.log[k + 1].CalledBack?)
    ensures !CalledBackFor(t, i, d)
  {
    if CalledBackFor(t, i, d) {
      RemovedOnceByInv(t, i - 1, k);
    }
  }
}
