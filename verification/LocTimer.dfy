/** The timer service of gps/utils/LocTimer.cpp as a system of three kinds of threads: clients
    that start and stop timers, the message task that owns the heap, and the poll thread.

    One step is one lock section, one system call or one heap operation; steps of different
    threads interleave in any order.  Pointers to timer delegates are indexes into
    `delegates`, which only grows, so a dangling pointer is visible as a freed index. */
module LocTimer {
  import opened Wrappers
  import opened HeapTree

  datatype Time = Time(sec: int, nsec: int)

  predicate AtOrBefore(a: Time, b: Time) {
    a.sec < b.sec || (a.sec == b.sec && a.nsec <= b.nsec)
  }

  function TimeOf(d: Rankable): Time {
    Time(d.sec, d.nsec)
  }

  const NSEC_PER_SEC := 1_000_000_000

  /** The expiry computed by LocTimer::start: exactly ms milliseconds from now, normalized. */
  function FutureTime(now: Time, ms: nat): (r: Time)
    ensures r.sec * NSEC_PER_SEC + r.nsec == now.sec * NSEC_PER_SEC + now.nsec + ms * 1_000_000
    ensures 0 <= now.nsec < NSEC_PER_SEC ==> 0 <= r.nsec < NSEC_PER_SEC
  {
    var sec := now.sec + ms / 1000;
    var nsec := now.nsec + ms % 1000 * 1_000_000;
    if nsec >= NSEC_PER_SEC then Time(sec + nsec / NSEC_PER_SEC, nsec % NSEC_PER_SEC) else Time(sec, nsec)
  }

  // ----- The state -----

  datatype Msg = MsgTimerPush(d: nat) | MsgTimerRemove(d: nat) | MsgTimerExpire

  /** Where the message task is.  `del` is the delegate that the message being processed will
      delete when it is done. */
  datatype Task =
    | Idle
    | AddingPoll(del: Option<nat>)
    | SettingTime(del: Option<nat>)
    | RemovingPoll(del: Option<nat>)
    | Disarming(del: Option<nat>)
    | Deleting(d: nat)
    | Popping(now: Time, first: bool)
    | Expiring(now: Time, d: nat)
    | Stopping(now: Time, client: nat)

  /** Where the poll thread is: in epoll_wait, or in LocTimerContainer::expire after n calls. */
  datatype Poll = Waiting | GotEvent | Disarmed | Unpolled

  datatype Happening = Pushed(d: nat) | Removed(d: nat) | Freed(d: nat) | CalledBack(client: nat)

  datatype Sys = Sys(
    delegates: seq<Rankable>,     // every delegate ever created
    owner: seq<Option<nat>>,      // its mClient; None also means its mContainer is NULL
    startedBy: seq<nat>,          // the client it was created for
    freed: set<nat>,
    timers: map<nat, nat>,        // the clients' mTimer, where not NULL
    queue: seq<Msg>,
    task: Task,
    poll: Poll,
    heap: Tree,
    polled: bool,                 // is the timer fd in the epoll set?
    armed: Option<Time>,          // the timer fd
    now: Time,
    log: seq<Happening>)

  function Initial(now: Time): Sys {
    Sys([], [], [], {}, map[], [], Idle, Waiting, Nil, false, None, now, [])
  }

  // ----- The steps -----

  datatype Step = Tick(to: Time) | Start(client: nat, ms: nat) | Stop(client: nat) | TaskStep | PollStep

  predicate Refers(s: Sys) {
    |s.owner| == |s.delegates| &&
    (forall c :: c in s.timers ==> s.timers[c] < |s.delegates|) &&
    (forall i :: 0 <= i < |s.queue| && !s.queue[i].MsgTimerExpire? ==> s.queue[i].d < |s.delegates|) &&
    (s.task.Expiring? || s.task.Deleting? ==> s.task.d < |s.delegates|)
  }

  function DoStart(s: Sys, client: nat, ms: nat): Sys {
    if client in s.timers then s
    else
      var t := FutureTime(s.now, ms);
      var d := |s.delegates|;
      s.(delegates := s.delegates + [Rankable(d, t.sec, t.nsec)],
         owner := s.owner + [Some(client)],
         startedBy := s.startedBy + [client],
         timers := s.timers[client := d],
         queue := s.queue + [MsgTimerPush(d)],
         log := s.log + [Pushed(d)])
  }

  function DoStop(s: Sys, client: nat): Sys
    requires Refers(s)
  {
    if client !in s.timers then s
    else
      var d := s.timers[client];
      s.(timers := s.timers - {client},
         owner := s.owner[d := None],
         queue := s.queue + [MsgTimerRemove(d)],
         log := s.log + [Removed(d)])
  }

  /** Where a message's processing goes when its heap work is done. */
  function Finish(del: Option<nat>): Task {
    if del.Some? then Deleting(del.value) else Idle
  }

  /** LocTimerContainer::updateSoonestTime: what it decides to do next. */
  function Update(cur: Option<Rankable>, prior: Option<Rankable>, del: Option<nat>): Task {
    if cur == prior then Finish(del)
    else if cur.None? then RemovingPoll(del)
    else if prior.None? || OutRanks(cur.value, prior.value) then AddingPoll(del)
    else Finish(del)
  }

  function ProcPush(s: Sys, d: nat): Sys
    requires Refers(s) && d < |s.delegates|
  {
    var heap := Push(s.heap, s.delegates[d]);
    s.(heap := heap, task := Update(PeekOf(heap), PeekOf(s.heap), None))
  }

  function ProcRemove(s: Sys, d: nat): Sys
    requires Refers(s) && d < |s.delegates|
  {
    var x := s.delegates[d];
    var removed := if s.heap.Node? && Remove(s.heap, x).1 then Some(x) else None;
    var heap := RemoveFrom(s.heap, x);
    s.(heap := heap,
       task := if PeekOf(s.heap) == removed then Update(PeekOf(heap), None, Some(d)) else Deleting(d))
  }

  /** pop() for the first timer, popIfOutRanks(timerOfNow) for the others. */
  function ProcPop(s: Sys, now: Time, first: bool): Sys {
    if s.heap.Nil? || (!first && OutRanks(Rankable(0, now.sec, now.nsec), s.heap.data)) then
      s.(task := Update(PeekOf(s.heap), None, None))
    else
      s.(heap := Pop(s.heap), task := Expiring(now, s.heap.data.addr))
  }

  function DoTask(s: Sys): Sys
    requires Refers(s)
  {
    match s.task
    case Idle =>
      if s.queue == [] then s
      else
        var r := s.(queue := s.queue[1..]);
        (match s.queue[0]
         case MsgTimerPush(d) => ProcPush(r, d)
         case MsgTimerRemove(d) => ProcRemove(r, d)
         case MsgTimerExpire => r.(task := Popping(s.now, true)))
    case AddingPoll(del) => s.(polled := true, task := SettingTime(del))
    case SettingTime(del) =>
      s.(armed := if s.heap.Nil? then None else Some(TimeOf(s.heap.data)), task := Finish(del))
    case RemovingPoll(del) => s.(polled := false, task := Disarming(del))
    case Disarming(del) => s.(armed := None, task := Finish(del))
    case Deleting(d) => s.(freed := s.freed + {d}, log := s.log + [Freed(d)], task := Idle)
    case Popping(now, first) => ProcPop(s, now, first)
    case Expiring(now, d) =>
      s.(task := if s.owner[d].Some? then Stopping(now, s.owner[d].value) else Popping(now, false))
    case Stopping(now, client) =>
      var stopped := client in s.timers;
      var t := DoStop(s, client);
      t.(log := if stopped then t.log + [CalledBack(client)] else t.log, task := Popping(now, false))
  }

  function DoPoll(s: Sys): Sys {
    match s.poll
    case Waiting =>
      if s.polled && s.armed.Some? && AtOrBefore(s.armed.value, s.now) then s.(poll := GotEvent) else s
    case GotEvent => s.(armed := None, poll := Disarmed)
    case Disarmed => s.(polled := false, poll := Unpolled)
    case Unpolled => s.(queue := s.queue + [MsgTimerExpire], poll := Waiting)
  }

  function Do(s: Sys, step: Step): Sys
    requires Refers(s)
  {
    match step
    case Tick(to) => if AtOrBefore(s.now, to) then s.(now := to) else s
    case Start(client, ms) => DoStart(s, client, ms)
    case Stop(client) => DoStop(s, client)
    case TaskStep => DoTask(s)
    case PollStep => DoPoll(s)
  }

  // ----- No lost wakeup -----

  /** The fd is polled and armed at exactly the expiry of the top timer. */
  predicate ArmedForTop(s: Sys) {
    s.heap.Node? && s.polled && s.armed == Some(TimeOf(s.heap.data))
  }

  /** An expiry is on its way to the message task. */
  predicate ExpiryUnderWay(s: Sys) {
    MsgTimerExpire in s.queue || !s.poll.Waiting?
  }

  predicate TaskWillUpdate(s: Sys) {
    s.task.AddingPoll? || s.task.SettingTime? || s.task.Popping? || s.task.Expiring? || s.task.Stopping?
  }

  ghost predicate WakeInv(s: Sys) {
    Healthy(s.heap) &&
    (s.heap.Node? ==> ArmedForTop(s) || ExpiryUnderWay(s) || TaskWillUpdate(s)) &&
    (s.task.AddingPoll? || s.task.SettingTime? ==> s.heap.Node?) &&
    (s.task.SettingTime? ==> s.polled || ExpiryUnderWay(s)) &&
    !s.task.RemovingPoll? && !s.task.Disarming?
  }

  lemma PushWakes(s: Sys, d: nat)
    requires Refers(s) && d < |s.delegates| && WakeInv(s) && s.task.Idle?
    ensures WakeInv(ProcPush(s, d))
  {
    PushKeeps(s.heap, s.delegates[d]);
  }

  lemma RemoveWakes(s: Sys, d: nat)
    requires Refers(s) && d < |s.delegates| && WakeInv(s) && s.task.Idle?
    ensures WakeInv(ProcRemove(s, d))
  {
    RemoveFromKeeps(s.heap, s.delegates[d]);
  }

  lemma PopWakes(s: Sys, now: Time, first: bool)
    requires WakeInv(s) && s.task == Popping(now, first)
    ensures WakeInv(ProcPop(s, now, first))
  {
    if s.heap.Node? {
      PopKeeps(s.heap);
    }
  }

  lemma StepKeepsWake(s: Sys, step: Step)
    requires Refers(s) && WakeInv(s)
    ensures WakeInv(Do(s, step))
  {
    if step.TaskStep? {
      match s.task
      case Idle =>
        if s.queue != [] {
          assert s.queue == [s.queue[0]] + s.queue[1..];
          var r := s.(queue := s.queue[1..]);
          match s.queue[0]
          case MsgTimerPush(d) => PushWakes(r, d);
          case MsgTimerRemove(d) => RemoveWakes(r, d);
          case MsgTimerExpire =>
        }
      case Popping(now, first) => PopWakes(s, now, first);
      case _ =>
    }
  }

  // ----- What an expire message leaves behind -----

  /** When the expire message stops popping, every timer still in the heap has tv_sec later
      than the time the message read; and only its first pop can take a timer whose tv_sec is
      later than that time. */
  lemma ExpireLeavesOnlyLaterTimers(s: Sys, now: Time, first: bool)
    requires Refers(s) && Healthy(s.heap) && s.task == Popping(now, first)
    ensures var n := DoTask(s);
            if n.task.Expiring? then
              && s.heap.Node? && n.task.d == s.heap.data.addr
              && (first || s.heap.data.sec <= now.sec)
              && Elements(s.heap) == Elements(n.heap) + multiset{s.heap.data}
            else
              && n.heap == s.heap
              && (!first || s.heap.Nil?)
              && (forall x :: x in Elements(n.heap) ==> x.sec > now.sec)
  {
    if s.heap.Node? {
      PopKeeps(s.heap);
      forall x | x in Elements(s.heap)
        ensures !OutRanks(x, s.heap.data)
      {
        TopIsHighest(s.heap, x);
      }
    }
  }

  // ----- The life of a delegate -----

  /** The delegate that the message task is about to delete. */
  function BeingDeleted(t: Task): Option<nat> {
    match t
    case AddingPoll(del) => del
    case SettingTime(del) => del
    case RemovingPoll(del) => del
    case Disarming(del) => del
    case Deleting(d) => Some(d)
    case _ => None
  }

  ghost predicate InHeap(delegates: seq<Rankable>, heap: Tree, d: nat) {
    d < |delegates| && delegates[d] in Elements(heap)
  }

  ghost predicate HeapOk(delegates: seq<Rankable>, heap: Tree) {
    Healthy(heap) &&
    (forall d :: 0 <= d < |delegates| ==> delegates[d].addr == d) &&
    (forall x :: x in Elements(heap) ==>
      x.addr < |delegates| && x == delegates[x.addr] && Elements(heap)[x] == 1)
  }

  predicate SameTimer(a: Msg, b: Msg) {
    !a.MsgTimerExpire? && !b.MsgTimerExpire? && a.d == b.d
  }

  /** A message refers to a live delegate; a push to one not in the heap yet, a remove to one
      that was stopped. */
  ghost predicate MsgOk(s: Sys, m: Msg) {
    m.MsgTimerExpire? ||
    (m.d < |s.owner| && m.d !in s.freed && BeingDeleted(s.task) != Some(m.d) &&
     (m.MsgTimerPush? ==> !InHeap(s.delegates, s.heap, m.d)) &&
     (m.MsgTimerRemove? ==> s.owner[m.d].None?))
  }

  /** For each delegate at most a push and then a remove are queued. */
  predicate InOrder(queue: seq<Msg>) {
    forall i, j :: 0 <= i < j < |queue| && SameTimer(queue[i], queue[j]) ==>
      queue[i].MsgTimerPush? && queue[j].MsgTimerRemove?
  }

  ghost predicate QueueOk(s: Sys) {
    InOrder(s.queue) && forall m :: m in s.queue ==> MsgOk(s, m)
  }

  predicate OwnersOk(timers: map<nat, nat>, owner: seq<Option<nat>>) {
    (forall c :: c in timers ==> timers[c] < |owner| && owner[timers[c]] == Some(c)) &&
    (forall d :: 0 <= d < |owner| && owner[d].Some? ==> owner[d].value in timers && timers[owner[d].value] == d)
  }

  /** A delegate that was stopped and is out of the heap. */
  ghost predicate Gone(s: Sys, d: nat) {
    d < |s.owner| && s.owner[d].None? && !InHeap(s.delegates, s.heap, d)
  }

  ghost predicate FreedOk(s: Sys) {
    (forall d :: d in s.freed ==> Gone(s, d)) &&
    (s.task.Expiring? ==> s.task.d !in s.freed && s.task.d < |s.owner|) &&
    (BeingDeleted(s.task).Some? ==> BeingDeleted(s.task).value !in s.freed && Gone(s, BeingDeleted(s.task).value))
  }

  /** A stopped delegate that is not freed yet has its remove message queued or in process. */
  predicate PendingOk(s: Sys) {
    forall d :: 0 <= d < |s.owner| && s.owner[d].None? && d !in s.freed ==>
      MsgTimerRemove(d) in s.queue || BeingDeleted(s.task) == Some(d)
  }

  ghost predicate LifeInv(s: Sys) {
    |s.owner| == |s.delegates| && HeapOk(s.delegates, s.heap) && QueueOk(s) &&
    OwnersOk(s.timers, s.owner) && FreedOk(s) && PendingOk(s)
  }

  lemma LifeRefers(s: Sys)
    requires LifeInv(s)
    ensures Refers(s)
  {
    assert forall i :: 0 <= i < |s.queue| ==> s.queue[i] in s.queue;
  }

  /** A step that creates, stops and frees nothing keeps the invariant if the heap at most
      loses elements and the queue at most gains an expire message. */
  lemma QuietStep(s: Sys, n: Sys)
    requires LifeInv(s)
    requires n.delegates == s.delegates && n.owner == s.owner && n.timers == s.timers && n.freed == s.freed
    requires n.queue == s.queue || n.queue == s.queue + [MsgTimerExpire]
    requires BeingDeleted(n.task) == BeingDeleted(s.task)
    requires n.task.Expiring? ==> n.task.d !in s.freed && n.task.d < |s.owner|
    requires HeapOk(n.delegates, n.heap)
    requires forall d: nat :: InHeap(n.delegates, n.heap, d) ==> InHeap(s.delegates, s.heap, d)
    ensures LifeInv(n)
  {
    forall m | m in n.queue
      ensures MsgOk(n, m)
    {
      assert m in s.queue || m.MsgTimerExpire?;
    }
    assert forall m :: m in s.queue ==> m in n.queue;
  }

  // A client starts a timer.

  lemma StartKeepsHeap(s: Sys, client: nat, ms: nat)
    requires LifeInv(s) && client !in s.timers
    ensures var n := DoStart(s, client, ms);
            && HeapOk(n.delegates, n.heap)
            && forall d :: InHeap(n.delegates, n.heap, d) <==> InHeap(s.delegates, s.heap, d)
  {
    var n := DoStart(s, client, ms);
    assert forall d :: 0 <= d < |s.delegates| ==> n.delegates[d] == s.delegates[d];
    assert n.delegates[|s.delegates|].addr == |s.delegates|;
  }

  lemma StartKeepsQueue(s: Sys, client: nat, ms: nat)
    requires LifeInv(s) && client !in s.timers
    ensures QueueOk(DoStart(s, client, ms))
  {
    var n := DoStart(s, client, ms);
    StartKeepsHeap(s, client, ms);
    var d := |s.delegates|;
    forall m | m in s.queue
      ensures MsgOk(n, m) && !SameTimer(m, MsgTimerPush(d))
    {
      assert MsgOk(s, m);
    }
    assert forall i :: 0 <= i < |s.queue| ==> n.queue[i] == s.queue[i] && s.queue[i] in s.queue;
  }

  lemma StartKeepsLife(s: Sys, client: nat, ms: nat)
    requires LifeInv(s)
    ensures LifeInv(DoStart(s, client, ms))
  {
    if client !in s.timers {
      var n := DoStart(s, client, ms);
      StartKeepsHeap(s, client, ms);
      StartKeepsQueue(s, client, ms);
      assert forall m :: m in s.queue ==> m in n.queue;
      assert forall d :: Gone(s, d) ==> Gone(n, d);
    }
  }

  // A client, or the message task on its behalf, stops a timer.

  lemma StopKeepsQueue(s: Sys, client: nat)
    requires LifeInv(s) && Refers(s) && client in s.timers
    ensures QueueOk(DoStop(s, client))
  {
    var n := DoStop(s, client);
    var d := s.timers[client];
    forall m | m in s.queue
      ensures MsgOk(n, m) && (SameTimer(m, MsgTimerRemove(d)) ==> m.MsgTimerPush?)
    {
      assert MsgOk(s, m);
    }
    assert forall i :: 0 <= i < |s.queue| ==> n.queue[i] == s.queue[i] && s.queue[i] in s.queue;
  }

  lemma StopKeepsLife(s: Sys, client: nat)
    requires LifeInv(s) && Refers(s)
    ensures LifeInv(DoStop(s, client))
  {
    if client in s.timers {
      var n := DoStop(s, client);
      StopKeepsQueue(s, client);
      assert forall m :: m in s.queue ==> m in n.queue;
      assert n.queue[|s.queue|] == MsgTimerRemove(s.timers[client]);
      assert forall d :: Gone(s, d) ==> Gone(n, d);
    }
  }

  // The message task takes a message off the queue.

  lemma TakeMessage(s: Sys)
    requires LifeInv(s) && s.queue != []
    ensures MsgOk(s, s.queue[0]) && InOrder(s.queue[1..])
    ensures forall m :: m in s.queue[1..] ==> MsgOk(s, m)
    ensures forall m :: m in s.queue[1..] && SameTimer(s.queue[0], m) ==>
              s.queue[0].MsgTimerPush? && m.MsgTimerRemove?
    ensures forall m :: m in s.queue ==> m in s.queue[1..] || m == s.queue[0]
  {
    assert s.queue == [s.queue[0]] + s.queue[1..];
    forall m | m in s.queue[1..]
      ensures m in s.queue && (SameTimer(s.queue[0], m) ==> s.queue[0].MsgTimerPush? && m.MsgTimerRemove?)
    {
      var i :| 0 <= i < |s.queue[1..]| && s.queue[1..][i] == m;
      assert s.queue[i + 1] == m;
    }
  }

  lemma PushElements(delegates: seq<Rankable>, heap: Tree, d: nat)
    requires HeapOk(delegates, heap) && d < |delegates| && !InHeap(delegates, heap, d)
    ensures HeapOk(delegates, Push(heap, delegates[d]))
    ensures forall e :: InHeap(delegates, Push(heap, delegates[d]), e) <==> InHeap(delegates, heap, e) || e == d
  {
    PushKeeps(heap, delegates[d]);
  }

  lemma PushKeepsLife(s: Sys, d: nat)
    requires LifeInv(s) && Refers(s) && s.task.Idle? && s.queue != [] && s.queue[0] == MsgTimerPush(d)
    ensures LifeInv(DoTask(s))
  {
    var n := DoTask(s);
    TakeMessage(s);
    PushElements(s.delegates, s.heap, d);
    hide HeapOk, InHeap, InOrder, OwnersOk;
    PushTakes(s, d);
    forall m | m in n.queue
      ensures MsgOk(n, m)
    {
      assert MsgOk(s, m) && !(m.MsgTimerPush? && m.d == d);
    }
  }

  lemma PushTakes(s: Sys, d: nat)
    requires Refers(s) && s.task.Idle? && s.queue != [] && s.queue[0] == MsgTimerPush(d)
    ensures var n := DoTask(s);
            && n.queue == s.queue[1..] && n.heap == Push(s.heap, s.delegates[d]) && BeingDeleted(n.task) == None
            && !n.task.Expiring?
            && n.delegates == s.delegates && n.owner == s.owner && n.timers == s.timers && n.freed == s.freed
  {
  }

  lemma OneTakenOut(before: multiset<Rankable>, after: multiset<Rankable>, x: Rankable, y: Rankable)
    requires before == after + multiset{x} && before[x] == 1
    ensures y in after <==> y in before && y != x
    ensures y in after ==> after[y] == before[y]
  {
    assert before[y] == after[y] + if y == x then 1 else 0;
  }

  lemma NoneToNoneRemoved(heap: Tree, x: Rankable)
    ensures heap.Nil? ==> RemoveFrom(heap, x) == heap && Elements(heap) == multiset{}
  {
  }

  /** The elements that are left, one by one. */
  lemma RemovedElement(delegates: seq<Rankable>, heap: Tree, d: nat, y: Rankable)
    requires HeapOk(delegates, heap) && d < |delegates|
    ensures var after := Elements(RemoveFrom(heap, delegates[d]));
            && (y in after <==> y in Elements(heap) && y != delegates[d])
            && (y in after ==> after[y] == Elements(heap)[y])
  {
    hide Healthy, Remove, Elements;
    var x := delegates[d];
    NoneToNoneRemoved(heap, x);
    if heap.Node? {
      RemoveKeeps(heap, x);
      if x in Elements(heap) {
        OneTakenOut(Elements(heap), Elements(RemoveFrom(heap, x)), x, y);
      }
    }
  }

  lemma RemoveElements(delegates: seq<Rankable>, heap: Tree, d: nat)
    requires HeapOk(delegates, heap) && d < |delegates|
    ensures HeapOk(delegates, RemoveFrom(heap, delegates[d]))
    ensures forall e :: InHeap(delegates, RemoveFrom(heap, delegates[d]), e) <==> InHeap(delegates, heap, e) && e != d
  {
    hide Healthy, RemoveFrom, Elements;
    var after := RemoveFrom(heap, delegates[d]);
    RemoveFromKeeps(heap, delegates[d]);
    forall x | x in Elements(after)
      ensures x.addr < |delegates| && x == delegates[x.addr] && Elements(after)[x] == 1
    {
      RemovedElement(delegates, heap, d, x);
    }
    forall e: nat
      ensures InHeap(delegates, after, e) <==> InHeap(delegates, heap, e) && e != d
    {
      if e < |delegates| {
        RemovedElement(delegates, heap, d, delegates[e]);
      }
    }
  }

  lemma RemoveKeepsLife(s: Sys, d: nat)
    requires LifeInv(s) && Refers(s) && s.task.Idle? && s.queue != [] && s.queue[0] == MsgTimerRemove(d)
    ensures LifeInv(DoTask(s))
  {
    var n := DoTask(s);
    TakeMessage(s);
    RemoveElements(s.delegates, s.heap, d);
    hide HeapOk, InHeap, InOrder, OwnersOk;
    RemoveTakes(s, d);
    forall m | m in n.queue
      ensures MsgOk(n, m)
    {
      assert MsgOk(s, m) && !SameTimer(s.queue[0], m);
    }
    assert forall e :: Gone(s, e) ==> Gone(n, e);
    assert Gone(n, d);
  }

  lemma RemoveTakes(s: Sys, d: nat)
    requires Refers(s) && s.task.Idle? && s.queue != [] && s.queue[0] == MsgTimerRemove(d)
    ensures var n := DoTask(s);
            && n.queue == s.queue[1..] && n.heap == RemoveFrom(s.heap, s.delegates[d]) && BeingDeleted(n.task) == Some(d)
            && !n.task.Expiring?
            && n.delegates == s.delegates && n.owner == s.owner && n.timers == s.timers && n.freed == s.freed
  {
  }

  lemma ExpireKeepsLife(s: Sys)
    requires LifeInv(s) && Refers(s) && s.task.Idle? && s.queue != [] && s.queue[0] == MsgTimerExpire
    ensures LifeInv(DoTask(s))
  {
    var n := DoTask(s);
    TakeMessage(s);
    forall m | m in n.queue
      ensures MsgOk(n, m)
    {
      assert MsgOk(s, m);
    }
    assert forall e :: Gone(s, e) ==> Gone(n, e);
  }

  lemma PopElements(delegates: seq<Rankable>, heap: Tree)
    requires HeapOk(delegates, heap) && heap.Node?
    ensures HeapOk(delegates, Pop(heap)) && InHeap(delegates, heap, heap.data.addr)
    ensures forall e :: InHeap(delegates, Pop(heap), e) ==> InHeap(delegates, heap, e)
  {
    PopKeeps(heap);
    assert heap.data in Elements(heap);
  }

  lemma PopKeepsLife(s: Sys, now: Time, first: bool)
    requires LifeInv(s) && s.task == Popping(now, first)
    ensures LifeInv(ProcPop(s, now, first))
  {
    if s.heap.Node? {
      PopElements(s.delegates, s.heap);
    }
    QuietStep(s, ProcPop(s, now, first));
  }

  lemma DeleteKeepsLife(s: Sys, d: nat)
    requires LifeInv(s) && Refers(s) && s.task == Deleting(d)
    ensures LifeInv(DoTask(s))
  {
    var n := DoTask(s);
    forall m | m in n.queue
      ensures MsgOk(n, m)
    {
      assert MsgOk(s, m);
    }
    assert forall e :: Gone(s, e) ==> Gone(n, e);
  }

  lemma MessageKeepsLife(s: Sys)
    requires LifeInv(s) && Refers(s) && s.task.Idle? && s.queue != []
    ensures LifeInv(DoTask(s))
  {
    match s.queue[0]
    case MsgTimerPush(d) => PushKeepsLife(s, d);
    case MsgTimerRemove(d) => RemoveKeepsLife(s, d);
    case MsgTimerExpire => ExpireKeepsLife(s);
  }

  lemma StopInTaskKeepsLife(s: Sys)
    requires LifeInv(s) && Refers(s) && s.task.Stopping?
    ensures LifeInv(DoTask(s))
  {
    StopKeepsLife(s, s.task.client);
    QuietStep(DoStop(s, s.task.client), DoTask(s));
  }

  lemma TaskKeepsLife(s: Sys)
    requires LifeInv(s) && Refers(s)
    ensures LifeInv(DoTask(s))
  {
    hide LifeInv, Refers;
    match s.task
    case Idle =>
      if s.queue != [] {
        MessageKeepsLife(s);
      }
    case Popping(now, first) => PopKeepsLife(s, now, first);
    case Deleting(d) => DeleteKeepsLife(s, d);
    case Stopping(_, _) => StopInTaskKeepsLife(s);
    case _ => MoveKeepsLife(s);
  }

  lemma MoveKeepsLife(s: Sys)
    requires LifeInv(s) && Refers(s)
    requires !s.task.Idle? && !s.task.Popping? && !s.task.Deleting? && !s.task.Stopping?
    ensures LifeInv(DoTask(s))
  {
    hide HeapOk, OwnersOk, QueueOk, PendingOk, InHeap, Gone;
    MoveFrame(s);
    QuietStep(s, DoTask(s));
  }

  lemma MoveFrame(s: Sys)
    requires Refers(s)
    requires !s.task.Idle? && !s.task.Popping? && !s.task.Deleting? && !s.task.Stopping?
    ensures var n := DoTask(s);
            && n.delegates == s.delegates && n.owner == s.owner && n.timers == s.timers && n.freed == s.freed
            && n.heap == s.heap && n.queue == s.queue && BeingDeleted(n.task) == BeingDeleted(s.task) && !n.task.Expiring?
  {
  }

  lemma PollFrame(s: Sys)
    ensures var n := DoPoll(s);
            && n.delegates == s.delegates && n.owner == s.owner && n.timers == s.timers && n.freed == s.freed
            && n.heap == s.heap && n.task == s.task
            && (n.queue == s.queue || n.queue == s.queue + [MsgTimerExpire])
  {
  }

  lemma PollKeepsLife(s: Sys)
    requires LifeInv(s)
    ensures LifeInv(DoPoll(s))
  {
    var n := DoPoll(s);
    PollFrame(s);
    QuietStep(s, n);
  }

  lemma TickKeepsLife(s: Sys, to: Time)
    requires LifeInv(s)
    ensures LifeInv(s.(now := to))
  {
    QuietStep(s, s.(now := to));
  }

  /** The invariant of the delegates' lives holds after every step. */
  lemma StepKeepsLife(s: Sys, step: Step)
    requires LifeInv(s) && Refers(s)
    ensures LifeInv(Do(s, step))
  {
    match step
    case Tick(to) => TickKeepsLife(s, to);
    case Start(client, ms) => StartKeepsLife(s, client, ms);
    case Stop(client) => StopKeepsLife(s, client);
    case TaskStep => TaskKeepsLife(s);
    case PollStep => PollKeepsLife(s);
  }
}
