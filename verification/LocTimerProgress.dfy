/** What the threads of the timer service get done when they are left undisturbed, and a run in which a
    timer expires long before its time. */
module LocTimerProgress {
  import opened Wrappers
  import opened HeapTree
  import opened LocTimer
  import opened LocTimerRuns

  // ----- Starting -----

  /** A client without a timer gets a new one that expires exactly ms milliseconds from now, and its push is
      queued behind everything else; for a client with a timer nothing happens. */
  lemma StartDoes(s: Sys, client: nat, ms: nat)
    requires Refers(s)
    ensures var n := Do(s, Start(client, ms));
            if client in s.timers then n == s
            else
              var d := |s.delegates|;
              && |n.delegates| == d + 1 && n.delegates[d].addr == d
              && n.delegates[d].sec * 1_000_000_000 + n.delegates[d].nsec
                 == s.now.sec * 1_000_000_000 + s.now.nsec + ms * 1_000_000
              && n == s.(delegates := s.delegates + [n.delegates[d]], owner := s.owner + [Some(client)],
                         startedBy := s.startedBy + [client], timers := s.timers[client := d],
                         queue := s.queue + [MsgTimerPush(d)], log := s.log + [Pushed(d)])
  {
  }

  // ----- Runs of a few steps -----

  function Times(step: Step, n: nat): seq<Step> {
    seq(n, _ => step)
  }

  lemma RunOne(s: Sys, step: Step)
    requires Inv(s)
    ensures Refers(s) && Inv(Do(s, step)) && Run(s, Times(step, 1)) == Do(s, step)
  {
    hide Run, Inv;
    RunFirst(s, Times(step, 1), []);
    RunNothing(Do(s, step));
  }

  lemma RunTwo(s: Sys, step: Step)
    requires Inv(s)
    ensures Refers(s) && Inv(Do(s, step)) && Refers(Do(s, step))
    ensures Run(s, Times(step, 2)) == Do(Do(s, step), step)
  {
    hide Run, Inv, Do;
    RunFirst(s, Times(step, 2), Times(step, 1));
    RunOne(Do(s, step), step);
  }

  /** The run that begins with the steps a and goes on from where they lead. */
  lemma RunThen(s: Sys, a: seq<Step>, t: Sys, b: seq<Step>)
    requires Inv(s) && Run(s, a) == t
    ensures Inv(t) && Run(s, a + b) == Run(t, b)
  {
    RunAppend(s, a, b);
  }

  lemma RunTask(s: Sys)
    requires Inv(s)
    ensures Refers(s) && Inv(DoTask(s)) && Run(s, Times(TaskStep, 1)) == DoTask(s)
  {
    hide Run, Inv, DoTask;
    RunOne(s, TaskStep);
  }

  lemma RunTaskTwice(s: Sys)
    requires Inv(s)
    ensures Refers(s) && Refers(DoTask(s)) && Run(s, Times(TaskStep, 2)) == DoTask(DoTask(s))
  {
    hide Run, Inv, DoTask;
    RunTwo(s, TaskStep);
  }

  lemma RunPollTwice(s: Sys)
    requires Inv(s)
    ensures Run(s, Times(PollStep, 2)) == DoPoll(DoPoll(s))
  {
    hide Run, Inv, DoPoll;
    RunTwo(s, PollStep);
  }

  // ----- The message task, undisturbed -----

  lemma InvIsHealthy(s: Sys)
    requires Inv(s)
    ensures Healthy(s.heap) && (s.task.AddingPoll? ==> s.heap.Node?)
  {
    assert WakeInv(s);
  }

  /** A fd that has to be set is in the epoll set and armed for the top two steps later. */
  lemma FdIsSet(s: Sys, del: Option<nat>)
    requires Inv(s) && s.task == AddingPoll(del)
    ensures s.heap.Node?
    ensures Run(s, Times(TaskStep, 2)) == s.(polled := true, armed := Some(TimeOf(s.heap.data)), task := Finish(del))
  {
    InvIsHealthy(s);
    hide Run, Inv;
    RunTaskTwice(s);
  }

  /** The message task processes a push: the timer is in the heap, and the fd is set for the top if that has
      changed, and only then. */
  lemma PushIsProcessed(s: Sys, d: nat)
    requires Inv(s) && s.task.Idle? && s.queue != [] && s.queue[0] == MsgTimerPush(d)
    ensures d < |s.delegates|
    ensures var heap := Push(s.heap, s.delegates[d]);
            if PeekOf(heap) == PeekOf(s.heap) then
              Run(s, Times(TaskStep, 1)) == s.(queue := s.queue[1..], heap := heap)
            else
              Run(s, Times(TaskStep, 1) + Times(TaskStep, 2))
              == s.(queue := s.queue[1..], heap := heap, polled := true, armed := Some(TimeOf(heap.data)))
  {
    InvIsHealthy(s);
    hide Run, Inv;
    RunTask(s);
    PushGoesOn(s, d);
    var n := DoTask(s);
    hide DoTask, Push, Refers;
    if PeekOf(n.heap) != PeekOf(s.heap) {
      RunThen(s, Times(TaskStep, 1), n, Times(TaskStep, 2));
      FdIsSet(n, None);
    }
  }

  lemma PushGoesOn(s: Sys, d: nat)
    requires Refers(s) && Healthy(s.heap) && s.task.Idle? && s.queue != [] && s.queue[0] == MsgTimerPush(d)
    ensures d < |s.delegates|
    ensures var heap := Push(s.heap, s.delegates[d]);
            DoTask(s) == s.(queue := s.queue[1..], heap := heap,
              task := if PeekOf(heap) == PeekOf(s.heap) then Idle else AddingPoll(None))
  {
    PushKeeps(s.heap, s.delegates[d]);
    hide Push, Healthy, Elements;
  }

  /** The message task processes a remove: the timer is out of the heap, the fd is set for the next one if it was
      the top, and the delegate is deleted. */
  lemma RemoveIsProcessed(s: Sys, d: nat)
    requires Inv(s) && s.task.Idle? && s.queue != [] && s.queue[0] == MsgTimerRemove(d)
    ensures d < |s.delegates|
    ensures var heap := RemoveFrom(s.heap, s.delegates[d]);
            if PeekOf(s.heap) != Some(s.delegates[d]) || heap.Nil? then
              Run(s, Times(TaskStep, 1) + Times(TaskStep, 1))
              == s.(queue := s.queue[1..], heap := heap, freed := s.freed + {d}, log := s.log + [Freed(d)])
            else
              Run(s, Times(TaskStep, 1) + (Times(TaskStep, 2) + Times(TaskStep, 1)))
              == s.(queue := s.queue[1..], heap := heap, polled := true, armed := Some(TimeOf(heap.data)),
                    freed := s.freed + {d}, log := s.log + [Freed(d)])
  {
    InvIsHealthy(s);
    hide Run, Inv;
    RunTask(s);
    RemoveGoesOn(s, d);
    var n := DoTask(s);
    hide DoTask, RemoveFrom, Refers;
    if n.task.Deleting? {
      RunThen(s, Times(TaskStep, 1), n, Times(TaskStep, 1));
      DeleteIsDone(n, d);
    } else {
      RunThen(s, Times(TaskStep, 1), n, Times(TaskStep, 2) + Times(TaskStep, 1));
      FdIsSet(n, Some(d));
      var m := n.(polled := true, armed := Some(TimeOf(n.heap.data)), task := Deleting(d));
      RunThen(n, Times(TaskStep, 2), m, Times(TaskStep, 1));
      DeleteIsDone(m, d);
    }
  }

  lemma DeleteIsDone(s: Sys, d: nat)
    requires Inv(s) && s.task == Deleting(d)
    ensures Run(s, Times(TaskStep, 1)) == s.(freed := s.freed + {d}, log := s.log + [Freed(d)], task := Idle)
  {
    hide Run, Inv;
    RunTask(s);
  }

  lemma RemoveGoesOn(s: Sys, d: nat)
    requires Refers(s) && Healthy(s.heap) && s.task.Idle? && s.queue != [] && s.queue[0] == MsgTimerRemove(d)
    ensures d < |s.delegates|
    ensures var heap := RemoveFrom(s.heap, s.delegates[d]);
            DoTask(s) == s.(queue := s.queue[1..], heap := heap,
              task := if PeekOf(s.heap) == Some(s.delegates[d]) && heap.Node? then AddingPoll(Some(d)) else Deleting(d))
  {
    RemoveFromKeeps(s.heap, s.delegates[d]);
    assert s.heap.Node? ==> s.heap.data in Elements(s.heap);
    hide RemoveFrom, Remove, Healthy, Elements;
  }

  // ----- The poll thread, undisturbed -----

  /** The poll thread wakes up exactly when the armed time has come, and then disarms the fd, takes it out of the
      epoll set and sends an expire message. */
  lemma PollDelivers(s: Sys)
    requires Inv(s) && s.poll.Waiting?
    ensures if s.polled && s.armed.Some? && AtOrBefore(s.armed.value, s.now) then
              Run(s, Times(PollStep, 2) + Times(PollStep, 2))
              == s.(armed := None, polled := false, queue := s.queue + [MsgTimerExpire])
            else DoPoll(s) == s
  {
    hide Run, Inv;
    RunPollTwice(s);
    var m := s.(poll := Disarmed, armed := None);
    if s.polled && s.armed.Some? && AtOrBefore(s.armed.value, s.now) {
      RunThen(s, Times(PollStep, 2), m, Times(PollStep, 2));
      RunPollTwice(m);
    }
  }

  // ----- A due timer -----

  predicate HasClient(s: Sys, d: nat) {
    d < |s.owner| && s.owner[d].Some? && s.owner[d].value in s.timers && s.timers[s.owner[d].value] == d
  }

  /** When nothing else is under way, a timer in the heap still has its client. */
  lemma TickingHasClient(s: Sys)
    requires Inv(s) && s.task.Idle? && s.queue == [] && s.heap.Node?
    ensures HasClient(s, s.heap.data.addr)
  {
    var d := s.heap.data.addr;
    assert s.heap.data in Elements(s.heap);
    assert InHeap(s.delegates, s.heap, d);
    assert d !in s.freed by {
      assert d in s.freed ==> Gone(s, d);
    }
    hide HeapOk, HistoryOk, WakeInv, QueueOk;
  }

  lemma TopIsPopped(s: Sys)
    requires Refers(s) && s.task.Idle? && s.queue == [MsgTimerExpire] && s.heap.Node?
    ensures Refers(DoTask(s))
    ensures DoTask(DoTask(s)) == s.(queue := [], heap := Pop(s.heap), task := Expiring(s.now, s.heap.data.addr))
  {
    hide Pop;
  }

  lemma ClientIsStopped(m: Sys, d: nat)
    requires Refers(m) && m.task.Expiring? && m.task.d == d && HasClient(m, d)
    ensures Refers(DoTask(m))
    ensures var n := DoTask(DoTask(m));
            && n.log == m.log + [Removed(d), CalledBack(m.owner[d].value)]
            && n.now == m.now && n.delegates == m.delegates
  {
    assert m.log + [Removed(d)] + [CalledBack(m.owner[d].value)] == m.log + [Removed(d), CalledBack(m.owner[d].value)];
  }

  /** The expire message pops the top and has its client's timer stopped. */
  lemma ExpireIsProcessed(s: Sys)
    requires Inv(s) && s.task.Idle? && s.queue == [MsgTimerExpire] && s.heap.Node? && HasClient(s, s.heap.data.addr)
    ensures var n := Run(s, Times(TaskStep, 2) + Times(TaskStep, 2));
            && n.log == s.log + [Removed(s.heap.data.addr), CalledBack(s.owner[s.heap.data.addr].value)]
            && n.now == s.now && n.delegates == s.delegates
  {
    hide Run, Inv, Refers, DoTask;
    RunTaskTwice(s);
    TopIsPopped(s);
    var d := s.heap.data.addr;
    var m := DoTask(DoTask(s));
    RunThen(s, Times(TaskStep, 2), m, Times(TaskStep, 2));
    RunTaskTwice(m);
    ClientIsStopped(m, d);
  }

  function DueSteps(): seq<Step> {
    Times(PollStep, 2) + Times(PollStep, 2) + (Times(TaskStep, 2) + Times(TaskStep, 2))
  }

  /** Whenever the message task and the poll thread are both waiting and the top timer's time has come, four
      steps of each call its client back for it. */
  lemma DueIsCalledBack(s: Sys)
    requires Inv(s) && s.task.Idle? && s.queue == [] && s.poll.Waiting?
    requires s.heap.Node? && AtOrBefore(TimeOf(s.heap.data), s.now)
    ensures var d := s.heap.data.addr;
            && HasClient(s, d)
            && Run(s, DueSteps()).log == s.log + [Removed(d), CalledBack(s.owner[d].value)]
  {
    assert ArmedForTop(s);
    TickingHasClient(s);
    PollDelivers(s);
    hide Inv, Run;
    var d := s.heap.data.addr;
    var m := s.(armed := None, polled := false, queue := s.queue + [MsgTimerExpire]);
    RunThen(s, Times(PollStep, 2) + Times(PollStep, 2), m, Times(TaskStep, 2) + Times(TaskStep, 2));
    ExpireIsProcessed(m);
  }

  // ----- An expire message that finds its timer gone -----

  /** The timer that an expire message was sent for is removed first, and the message then takes the next one. */
  function StaleSteps(): seq<Step> {
    Times(TaskStep, 1) + (Times(TaskStep, 2) + Times(TaskStep, 1)) + (Times(TaskStep, 2) + Times(TaskStep, 2))
  }

  /** An expire message queued behind the removal of the timer that it was sent for stops the next timer and calls
      its client back, whatever the time. */
  lemma StaleExpiryTakesTheNext(s: Sys, d: nat)
    requires Inv(s) && s.task.Idle? && s.queue == [MsgTimerRemove(d), MsgTimerExpire]
    requires s.heap.Node? && s.heap.data.addr == d < |s.delegates|
    requires var next := RemoveFrom(s.heap, s.delegates[d]); next.Node? && HasClient(s, next.data.addr)
    ensures var next := RemoveFrom(s.heap, s.delegates[d]).data.addr;
            var n := Run(s, StaleSteps());
            && n.log == s.log + [Freed(d), Removed(next), CalledBack(s.owner[next].value)]
            && n.now == s.now && n.delegates == s.delegates
  {
    TopIsItsDelegate(s);
    RemoveIsProcessed(s, d);
    hide Run, Inv, RemoveFrom, Refers;
    var heap := RemoveFrom(s.heap, s.delegates[d]);
    var m := s.(queue := [MsgTimerExpire], heap := heap, polled := true, armed := Some(TimeOf(heap.data)),
                freed := s.freed + {d}, log := s.log + [Freed(d)]);
    assert s.queue[1..] == m.queue;
    RunThen(s, Times(TaskStep, 1) + (Times(TaskStep, 2) + Times(TaskStep, 1)), m, Times(TaskStep, 2) + Times(TaskStep, 2));
    ExpireIsProcessed(m);
    LogsJoin(s.log, Freed(d), Removed(heap.data.addr), CalledBack(s.owner[heap.data.addr].value));
  }

  lemma LogsJoin(log: seq<Happening>, a: Happening, b: Happening, c: Happening)
    ensures log + [a] + [b, c] == log + [a, b, c]
  {
  }

  lemma TopIsItsDelegate(s: Sys)
    requires Inv(s) && s.heap.Node?
    ensures s.heap.data.addr < |s.delegates| && s.delegates[s.heap.data.addr] == s.heap.data
  {
    assert HeapOk(s.delegates, s.heap);
    hide Inv;
    assert s.heap.data in Elements(s.heap);
  }

  /** The message task pops a timer whose second has not come exactly when it is the first one of an expire message
      and the top is that late. */
  lemma EarlyPopExactlyWhen(s: Sys, now: Time, first: bool)
    requires Inv(s) && Refers(s) && s.task == Popping(now, first)
    ensures var n := DoTask(s);
            (n.task.Expiring? && n.task.d < |s.delegates| && s.delegates[n.task.d].sec > now.sec)
            <==> first && s.heap.Node? && s.heap.data.sec > now.sec
  {
    if s.heap.Node? {
      TopIsItsDelegate(s);
    }
    hide Inv, Pop;
  }

  // ----- A run that gets there -----

  const SHORT := Rankable(0, 1, 0)
  const LONG := Rankable(1, 100, 0)

  /** Two clients have started a timer each, of one second and of a hundred. */
  function BothStarted(): Sys {
    Sys([SHORT, LONG], [Some(0), Some(1)], [0, 1], {}, map[0 := 0, 1 := 1], [MsgTimerPush(0), MsgTimerPush(1)], Idle, Waiting,
        Nil, false, None, Time(0, 0), [Pushed(0), Pushed(1)])
  }

  function BothTick(): Sys {
    BothStarted().(queue := [], heap := Node(2, SHORT, Single(LONG), Nil), polled := true, armed := Some(Time(1, 0)))
  }

  /** The first has been stopped just before its second was over. */
  function StoppedLate(): Sys {
    BothTick().(timers := map[1 := 1], owner := [None, Some(1)], queue := [MsgTimerRemove(0)], now := Time(1, 0),
                log := [Pushed(0), Pushed(1), Removed(0)])
  }

  function StaleExpiry(): Sys {
    StoppedLate().(queue := [MsgTimerRemove(0), MsgTimerExpire], polled := false, armed := None)
  }

  lemma BothAreStarted()
    requires Inv(Initial(Time(0, 0)))
    ensures Run(Initial(Time(0, 0)), Times(Start(0, 1000), 1) + Times(Start(1, 100_000), 1)) == BothStarted()
  {
    hide Run, Inv;
    var s := Initial(Time(0, 0));
    RunOne(s, Start(0, 1000));
    var m := s.(delegates := [SHORT], owner := [Some(0)], startedBy := [0], timers := map[0 := 0],
                queue := [MsgTimerPush(0)], log := [Pushed(0)]);
    assert Do(s, Start(0, 1000)) == m;
    RunThen(s, Times(Start(0, 1000), 1), m, Times(Start(1, 100_000), 1));
    RunOne(m, Start(1, 100_000));
    assert Do(m, Start(1, 100_000)) == BothStarted();
  }

  lemma BothTickSoon()
    requires Inv(BothStarted())
    ensures Run(BothStarted(), Times(TaskStep, 1) + Times(TaskStep, 2) + Times(TaskStep, 1)) == BothTick()
  {
    hide Run, Inv;
    var s := BothStarted();
    PushIsProcessed(s, 0);
    var m := s.(queue := [MsgTimerPush(1)], heap := Single(SHORT), polled := true, armed := Some(Time(1, 0)));
    assert s.queue[1..] == m.queue;
    RunThen(s, Times(TaskStep, 1) + Times(TaskStep, 2), m, Times(TaskStep, 1));
    PushIsProcessed(m, 1);
    assert m.queue[1..] == [];
  }

  lemma StopComesLate()
    requires Inv(BothTick())
    ensures Run(BothTick(), Times(Stop(0), 1) + Times(Tick(Time(1, 0)), 1)) == StoppedLate()
  {
    hide Run, Inv;
    var s := BothTick();
    RunOne(s, Stop(0));
    var m := StoppedLate().(now := Time(0, 0));
    assert Do(s, Stop(0)) == m by {
      assert map[0 := 0, 1 := 1] - {0} == map[1 := 1];
    }
    RunThen(s, Times(Stop(0), 1), m, Times(Tick(Time(1, 0)), 1));
    RunOne(m, Tick(Time(1, 0)));
  }

  function LateStopSteps(): seq<Step> {
    Times(Start(0, 1000), 1) + Times(Start(1, 100_000), 1)
    + (Times(TaskStep, 1) + Times(TaskStep, 2) + Times(TaskStep, 1)
    + (Times(Stop(0), 1) + Times(Tick(Time(1, 0)), 1)
    + (Times(PollStep, 2) + Times(PollStep, 2)
    + StaleSteps())))
  }

  /** A client's timer of a hundred seconds expires after one, because another client stopped its own too late. */
  lemma LaterTimerIsCalledBackEarly()
    ensures var s := Reach(Time(0, 0), LateStopSteps());
            && s.log == [Pushed(0), Pushed(1), Removed(0), Freed(0), Removed(1), CalledBack(1)]
            && s.now == Time(1, 0) && s.delegates == [Rankable(0, 1, 0), Rankable(1, 100, 0)]
  {
    hide Run, Inv;
    var polled, stopped := Times(PollStep, 2) + Times(PollStep, 2), Times(Stop(0), 1) + Times(Tick(Time(1, 0)), 1);
    var pushed := Times(TaskStep, 1) + Times(TaskStep, 2) + Times(TaskStep, 1);
    InitialIsFine(Time(0, 0));
    BothAreStarted();
    RunThen(Initial(Time(0, 0)), Times(Start(0, 1000), 1) + Times(Start(1, 100_000), 1), BothStarted(),
            pushed + (stopped + (polled + StaleSteps())));
    BothTickSoon();
    RunThen(BothStarted(), pushed, BothTick(), stopped + (polled + StaleSteps()));
    StopComesLate();
    RunThen(BothTick(), stopped, StoppedLate(), polled + StaleSteps());
    PollDelivers(StoppedLate());
    RunThen(StoppedLate(), polled, StaleExpiry(), StaleSteps());
    StaleExpiryTakesTheNext(StaleExpiry(), 0);
  }
}
