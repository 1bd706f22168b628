/** What the message task makes of a whole message when no other thread comes between, step by step: the same as
    the procedures of LocTimerContainer. */
module LocTimerExpiry {
  import opened Wrappers
  import opened HeapTree
  import opened LocTimer
  import opened LocTimerRuns
  import opened LocTimerProgress
  import opened LocTimerContainerClass

  /** The steps that follow updateSoonestTime's decision leave the fd as the container's method does. */
  lemma UpdateIsCarriedOut(s: Sys, prior: Option<Rankable>, del: Option<nat>)
    requires Refers(s) && s.task == Update(PeekOf(s.heap), prior, del)
    ensures var (polled, armed) := FdAfter((s.polled, s.armed), PeekOf(s.heap), prior);
            if s.task == Finish(del) then (polled, armed) == (s.polled, s.armed)
            else Refers(DoTask(s)) && DoTask(DoTask(s)) == s.(polled := polled, armed := armed, task := Finish(del))
  {
  }

  lemma TimesJoin(step: Step, a: nat, b: nat)
    ensures Times(step, a) + Times(step, b) == Times(step, a + b)
  {
  }

  /** What is logged when the timers expire one after the other: each that still has a client is removed and its
      client called back. */
  function Told(expired: seq<Rankable>, owner: seq<Option<nat>>): seq<Happening> {
    if expired == [] then []
    else
      var d := expired[0].addr;
      (if d < |owner| && owner[d].Some? then [Removed(d), CalledBack(owner[d].value)] else []) + Told(expired[1..], owner)
  }

  /** Only the owners of those that expire are looked at. */
  lemma {:induction false} ToldAlike(expired: seq<Rankable>, a: seq<Option<nat>>, b: seq<Option<nat>>)
    requires |a| == |b| && forall i :: 0 <= i < |expired| && expired[i].addr < |a| ==> a[expired[i].addr] == b[expired[i].addr]
    ensures Told(expired, a) == Told(expired, b)
  {
    if expired != [] {
      assert forall i :: 0 <= i < |expired| - 1 ==> expired[1..][i] == expired[i + 1];
      ToldAlike(expired[1..], a, b);
    }
  }

  // ----- One timer expires -----

  /** From the pop of the top to the next look at the heap. */
  ghost predicate Expires(s: Sys, t: Sys, now: Time)
    requires s.heap.Node?
  {
    var d := s.heap.data.addr;
    && t.task == Popping(now, false) && t.heap == Pop(s.heap) && t.polled == s.polled && t.armed == s.armed
    && t.now == s.now && t.delegates == s.delegates && t.freed == s.freed
    && |t.owner| == |s.owner| && (forall e :: 0 <= e < |s.owner| && e != d ==> t.owner[e] == s.owner[e])
    && t.log == s.log + Told([s.heap.data], s.owner)
  }

  lemma ToldOne(x: Rankable, owner: seq<Option<nat>>)
    ensures Told([x], owner) == if x.addr < |owner| && owner[x.addr].Some? then [Removed(x.addr), CalledBack(owner[x.addr].value)] else []
  {
    assert [x][1..] == [];
  }

  lemma OwnedHasClient(s: Sys, d: nat)
    requires Inv(s) && d < |s.owner| && s.owner[d].Some?
    ensures HasClient(s, d)
  {
  }

  lemma PopExpires(s: Sys, now: Time, first: bool) returns (n: nat)
    requires Inv(s) && s.task == Popping(now, first) && s.heap.Node? && (first || s.heap.data.sec <= now.sec)
    ensures Expires(s, Run(s, Times(TaskStep, n)), now)
  {
    hide Inv, Run, DoTask, Pop, Told, Refers, HasClient;
    TopIsItsDelegate(s);
    InvHasOwners(s);
    var d := s.heap.data.addr;
    RunTask(s);
    var m := DoTask(s);
    PopGoesOn(s, now, first);
    if m.owner[d].None? {
      RunTaskTwice(s);
      GoneGoesOn(m, now, d);
      ToldOne(s.heap.data, s.owner);
      n := 2;
    } else {
      RunTaskThrice(s);
      OwnedHasClient(m, d);
      ClientGoesOn(m, now, d);
      ToldOne(s.heap.data, s.owner);
      n := 3;
    }
  }

  lemma InvHasOwners(s: Sys)
    requires Inv(s)
    ensures |s.owner| == |s.delegates|
  {
  }

  lemma PopGoesOn(s: Sys, now: Time, first: bool)
    requires Refers(s) && s.task == Popping(now, first) && s.heap.Node? && (first || s.heap.data.sec <= now.sec)
    ensures DoTask(s) == s.(heap := Pop(s.heap), task := Expiring(now, s.heap.data.addr))
  {
    hide Pop;
  }

  lemma GoneGoesOn(m: Sys, now: Time, d: nat)
    requires Refers(m) && m.task == Expiring(now, d) && m.owner[d].None?
    ensures DoTask(m) == m.(task := Popping(now, false))
  {
  }

  lemma ClientGoesOn(m: Sys, now: Time, d: nat)
    requires Refers(m) && m.task == Expiring(now, d) && HasClient(m, d)
    ensures Refers(DoTask(m))
    ensures var t := DoTask(DoTask(m));
            && t.task == Popping(now, false) && t.heap == m.heap && t.polled == m.polled && t.armed == m.armed
            && t.now == m.now && t.delegates == m.delegates && t.freed == m.freed
            && |t.owner| == |m.owner| && (forall e :: 0 <= e < |m.owner| && e != d ==> t.owner[e] == m.owner[e])
            && t.log == m.log + [Removed(d), CalledBack(m.owner[d].value)]
  {
    ClientIsStopped(m, d);
  }

  lemma RunTaskThrice(s: Sys)
    requires Inv(s)
    ensures Refers(s) && Inv(DoTask(s)) && Refers(DoTask(s)) && Refers(DoTask(DoTask(s)))
    ensures Run(s, Times(TaskStep, 3)) == DoTask(DoTask(DoTask(s)))
  {
    hide Run, Inv, DoTask, Refers;
    RunTask(s);
    RunTaskTwice(DoTask(s));
    RunThen(s, Times(TaskStep, 1), DoTask(s), Times(TaskStep, 2));
    TimesJoin(TaskStep, 1, 2);
  }

  // ----- The loop -----

  /** The task is done, the timers left are those of `heap`, those in `expired` were told, and the fd is set for the
      next one if there is one. */
  ghost predicate LeavesBehind(s: Sys, t: Sys, heap: Tree, expired: seq<Rankable>) {
    && t.task.Idle? && t.heap == heap && t.log == s.log + Told(expired, s.owner)
    && t.now == s.now && t.delegates == s.delegates && t.freed == s.freed
    && (t.polled, t.armed) == if heap.Nil? then (s.polled, s.armed) else (true, Some(TimeOf(heap.data)))
  }

  lemma StopPopping(s: Sys, now: Time, first: bool) returns (n: nat)
    requires Inv(s) && s.task == Popping(now, first) && (s.heap.Nil? || (!first && s.heap.data.sec > now.sec))
    ensures LeavesBehind(s, Run(s, Times(TaskStep, n)), s.heap, [])
  {
    hide Inv, Run;
    RunTask(s);
    if s.heap.Nil? {
      n := 1;
    } else {
      var m := s.(task := AddingPoll(None));
      assert DoTask(s) == m;
      FdIsSet(m, None);
      RunThen(s, Times(TaskStep, 1), m, Times(TaskStep, 2));
      TimesJoin(TaskStep, 1, 2);
      n := 3;
    }
  }

  /** From a look at the heap on: the timers that are due expire. */
  lemma {:induction false} DueExpire(s: Sys, now: Time) returns (n: nat)
    requires Inv(s) && s.task == Popping(now, false)
    ensures SizesOk(s.heap) && LeavesBehind(s, Run(s, Times(TaskStep, n)), NotDue(s.heap, now), Due(s.heap, now))
    decreases Count(s.heap)
  {
    InvIsHealthy(s);
    DueUnfolds(s.heap, now);
    if IsDue(s.heap, now) {
      n := OneThenDue(s, now, false);
    } else {
      n := StopPopping(s, now, false);
    }
  }

  /** The top expires, and then those that are due. */
  lemma {:induction false} OneThenDue(s: Sys, now: Time, first: bool) returns (n: nat)
    requires Inv(s) && s.task == Popping(now, first) && s.heap.Node? && (first || s.heap.data.sec <= now.sec)
    ensures Healthy(Pop(s.heap))
    ensures LeavesBehind(s, Run(s, Times(TaskStep, n)), NotDue(Pop(s.heap), now), [s.heap.data] + Due(Pop(s.heap), now))
    decreases Count(s.heap), 0
  {
    InvIsHealthy(s);
    PopKeeps(s.heap);
    DueAreOthers(s, now);
    hide Inv, Run, NotDue, Due, Pop, Told, Healthy, Expires, LeavesBehind;
    var a := PopExpires(s, now, first);
    var m := Run(s, Times(TaskStep, a));
    RunIsFine(s, Times(TaskStep, a));
    ExpiresPops(s, m, now);
    var b := DueExpire(m, now);
    RunThen(s, Times(TaskStep, a), m, Times(TaskStep, b));
    TimesJoin(TaskStep, a, b);
    n := a + b;
    BothLeaveBehind(s, m, Run(m, Times(TaskStep, b)), now, NotDue(Pop(s.heap), now), Due(Pop(s.heap), now));
  }

  lemma RunIsFine(s: Sys, steps: seq<Step>)
    requires Inv(s)
    ensures Inv(Run(s, steps))
  {
    RunKeepsInv(s, steps);
  }

  lemma ExpiresPops(s: Sys, m: Sys, now: Time)
    requires s.heap.Node? && Expires(s, m, now)
    ensures m.task == Popping(now, false) && m.heap == Pop(s.heap)
  {
  }

  lemma BothLeaveBehind(s: Sys, m: Sys, t: Sys, now: Time, heap: Tree, due: seq<Rankable>)
    requires s.heap.Node? && Expires(s, m, now) && LeavesBehind(m, t, heap, due)
    requires forall i :: 0 <= i < |due| ==> due[i].addr != s.heap.data.addr
    ensures LeavesBehind(s, t, heap, [s.heap.data] + due)
  {
    hide Told;
    ToldAlike(due, s.owner, m.owner);
    ToldFirst(s.heap.data, due, s.owner);
  }

  lemma ToldFirst(x: Rankable, rest: seq<Rankable>, owner: seq<Option<nat>>)
    ensures Told([x] + rest, owner) == Told([x], owner) + Told(rest, owner)
  {
    ToldOne(x, owner);
    assert ([x] + rest)[1..] == rest;
  }

  /** Those that are due below the top are other delegates than the top. */
  lemma DueAreOthers(s: Sys, now: Time)
    requires Inv(s) && s.heap.Node? && Healthy(Pop(s.heap))
    ensures forall i :: 0 <= i < |Due(Pop(s.heap), now)| ==> Due(Pop(s.heap), now)[i].addr != s.heap.data.addr
  {
    PopKeeps(s.heap);
    DueSplits(Pop(s.heap), now);
    var due, top := Due(Pop(s.heap), now), s.heap.data;
    assert HeapOk(s.delegates, s.heap);
    hide Inv, Due, NotDue, Pop, Healthy;
    assert top in Elements(s.heap);
    forall i | 0 <= i < |due|
      ensures due[i].addr != top.addr
    {
      assert due[i] in multiset(due);
      assert due[i] in Elements(Pop(s.heap));
      assert due[i] in Elements(s.heap);
    }
  }

  lemma ExpireMessageRuns(s: Sys) returns (n: nat)
    requires Inv(s) && s.task.Idle? && s.queue != [] && s.queue[0] == MsgTimerExpire
    ensures SizesOk(s.heap) && LeavesBehind(s, Run(s, Times(TaskStep, n)), LeftBy(s.heap, s.now), Expired(s.heap, s.now))
  {
    InvIsHealthy(s);
    hide Inv, Run, Pop, Due, NotDue, LeavesBehind;
    RunTask(s);
    var m := s.(queue := s.queue[1..], task := Popping(s.now, true));
    assert DoTask(s) == m;
    var k;
    if s.heap.Nil? {
      k := StopPopping(m, s.now, true);
    } else {
      k := OneThenDue(m, s.now, true);
    }
    hide DoTask;
    RunThen(s, Times(TaskStep, 1), m, Times(TaskStep, k));
    TimesJoin(TaskStep, 1, k);
    n := 1 + k;
    SameBehind(s, m, Run(m, Times(TaskStep, k)), LeftBy(s.heap, s.now), Expired(s.heap, s.now));
  }

  /** Taking the message off the queue has changed nothing else. */
  lemma SameBehind(s: Sys, m: Sys, t: Sys, heap: Tree, expired: seq<Rankable>)
    requires m == s.(queue := m.queue, task := m.task) && LeavesBehind(m, t, heap, expired)
    ensures LeavesBehind(s, t, heap, expired)
  {
  }

  /** An expire message: the top expires and then the timers that are due, in the order in which they are popped; what is
      left is left by LocTimerContainer.ProcExpire too. */
  lemma ExpireMessageDoes(s: Sys)
    requires Inv(s) && s.task.Idle? && s.queue != [] && s.queue[0] == MsgTimerExpire
    ensures SizesOk(s.heap)
    ensures exists n :: LeavesBehind(s, Run(s, Times(TaskStep, n)), LeftBy(s.heap, s.now), Expired(s.heap, s.now))
  {
    hide *;
    var n := ExpireMessageRuns(s);
  }
}
