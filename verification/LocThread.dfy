/** The reference-count protocol between the parent and the spawned thread of
    gps/utils/LocThread.cpp, as two threads whose steps interleave freely.

    One step is one read or write of a shared field, one lock section, or one call out. */
module LocThread {
  import opened Wrappers

  /** Inside LocThreadDelegate::destroy: before the test of mRefCount, before the lock section,
      before the deletion (which only the last one performs), and after it. */
  datatype Destroy = Testing | Locking | Unlocked(callDelete: bool) | Over

  datatype Parent =
    | Constructing                // before pthread_create
    | Detaching                   // created; about to name and detach it
    | Failing                     // not created; about to set the failure values
    | Checking                    // in create(), about to test isRunning()
    | Holding                     // the client has the thread object
    | ClearingRunnable            // stop(), first if
    | TestingJoinable             // stop(), second if
    | Joining                     // pthread_join
    | ParentDestroy(d: Destroy)

  datatype Child =
    | NotCreated
    | Fetching                    // about to read mRunnable into its local variable
    | CheckingPrerun              // about to test isRunning() before prerun()
    | Prerunning | Looping | Running
    | CheckingPostrun             // about to test isRunning() before postrun()
    | Postrunning
    | Clearing                    // about to NULL mRunnable
    | DeletingRunnable
    | ChildDestroy(d: Destroy)

  /** A call of the runnable that has returned; `again` is what run() returned. */
  datatype Call = Prerun | Ran(again: bool) | Postrun

  /** `freed` and `runnableFreed` count deletions; `started` is what start() returned;
      `fetched` records that the thread read a non-NULL mRunnable; `calls` are those of the runnable. */
  datatype Sys = Sys(
    parent: Parent, child: Child,
    hasRunnable: bool, joinable: bool, refCount: int,
    freed: nat, runnableFreed: nat, fetched: bool, started: Option<bool>, stopped: bool, calls: seq<Call>)

  function Initial(joinable: bool): Sys {
    Sys(Constructing, NotCreated, true, joinable, 2, 0, 0, false, None, false, [])
  }

  // ----- The steps -----

  /** What the environment decides: whether pthread_create succeeds, whether the client stops
      the thread or just says bye, whether run() asks to be run again. */
  datatype Step = ParentStep(choice: bool) | ChildStep(choice: bool)

  function StepDestroy(s: Sys, d: Destroy): (Sys, Destroy) {
    match d
    case Testing => (s, if s.refCount > 0 then Locking else Over)
    case Locking => (s.(refCount := s.refCount - 1), Unlocked(s.refCount == 1))
    case Unlocked(callDelete) => (if callDelete then s.(freed := s.freed + 1) else s, Over)
    case Over => (s, Over)
  }

  function DoParent(s: Sys, choice: bool): Sys {
    match s.parent
    case Constructing =>
      if choice then s.(child := Fetching, parent := Detaching) else s.(parent := Failing)
    case Detaching => s.(parent := Checking)
    case Failing => s.(hasRunnable := false, joinable := false, refCount := 1, parent := Checking)
    case Checking =>
      if s.hasRunnable then s.(parent := Holding, started := Some(true))
      else s.(parent := ParentDestroy(Testing), started := Some(false))
    case Holding =>
      // stop() by choice; bye() is stop() for a joinable thread, destroy() for a detached one
      if choice || s.joinable then s.(parent := ClearingRunnable, stopped := true)
      else s.(parent := ParentDestroy(Testing))
    case ClearingRunnable => s.(hasRunnable := false, parent := TestingJoinable)
    case TestingJoinable =>
      if s.joinable then s.(joinable := false, parent := Joining) else s.(parent := ParentDestroy(Testing))
    case Joining =>
      if s.child == ChildDestroy(Over) then s.(parent := ParentDestroy(Testing)) else s
    case ParentDestroy(d) =>
      var (t, e) := StepDestroy(s, d); t.(parent := ParentDestroy(e))
  }

  function DoChild(s: Sys, choice: bool): Sys {
    match s.child
    case NotCreated => s
    case Fetching =>
      if s.hasRunnable then s.(fetched := true, child := CheckingPrerun) else s.(child := ChildDestroy(Testing))
    case CheckingPrerun => s.(child := if s.hasRunnable then Prerunning else Looping)
    case Prerunning => s.(child := Looping, calls := s.calls + [Prerun])
    case Looping => s.(child := if s.hasRunnable then Running else CheckingPostrun)
    case Running => s.(child := if choice then Looping else CheckingPostrun, calls := s.calls + [Ran(choice)])
    case CheckingPostrun => s.(child := if s.hasRunnable then Postrunning else Clearing)
    case Postrunning => s.(child := Clearing, calls := s.calls + [Postrun])
    case Clearing => s.(hasRunnable := false, child := DeletingRunnable)
    case DeletingRunnable => s.(runnableFreed := s.runnableFreed + 1, child := ChildDestroy(Testing))
    case ChildDestroy(d) =>
      var (t, e) := StepDestroy(s, d); t.(child := ChildDestroy(e))
  }

  function Do(s: Sys, step: Step): Sys {
    match step
    case ParentStep(choice) => DoParent(s, choice)
    case ChildStep(choice) => DoChild(s, choice)
  }

  function Run(s: Sys, steps: seq<Step>): Sys
    decreases |steps|
  {
    if steps == [] then s else Run(Do(s, steps[0]), steps[1..])
  }

  // ----- Which steps use the delegate, and which the runnable -----

  predicate DestroyTouches(d: Destroy) {
    d.Testing? || d.Locking? || (d.Unlocked? && d.callDelete)
  }

  predicate TouchesDelegate(s: Sys, step: Step) {
    match step
    case ParentStep(_) =>
      if s.parent.ParentDestroy? then DestroyTouches(s.parent.d) else true
    case ChildStep(_) =>
      if s.child.ChildDestroy? then DestroyTouches(s.child.d)
      else !s.child.NotCreated? && !InCall(s.child) && !s.child.DeletingRunnable?
  }

  /** The thread is in a call of the runnable. */
  predicate InCall(c: Child) {
    c.Prerunning? || c.Running? || c.Postrunning?
  }

  predicate TouchesRunnable(s: Sys, step: Step) {
    step.ChildStep? && (InCall(s.child) || s.child.DeletingRunnable?)
  }

  // ----- The invariant -----

  /** The references a side holds, and the deletions it is committed to. */
  function Refs(d: Destroy): nat {
    match d
    case Testing => 1
    case Locking => 1
    case _ => 0
  }

  function Commits(d: Destroy): nat {
    match d
    case Unlocked(callDelete) => if callDelete then 1 else 0
    case _ => 0
  }

  function ParentRefs(p: Parent): nat {
    match p
    case ParentDestroy(d) => Refs(d)
    case _ => 1
  }

  /** Before the failure values are set, the reference of a thread that will not exist counts. */
  function ChildRefs(c: Child, p: Parent): nat {
    match c
    case NotCreated => if p.Constructing? || p.Failing? then 1 else 0
    case ChildDestroy(d) => Refs(d)
    case _ => 1
  }

  function ParentCommits(p: Parent): nat {
    match p
    case ParentDestroy(d) => Commits(d)
    case _ => 0
  }

  function ChildCommits(c: Child): nat {
    match c
    case ChildDestroy(d) => Commits(d)
    case _ => 0
  }

  /** The reference count is the number of sides still to call destroy; whoever takes it to
      zero deletes, once. */
  predicate CountInv(s: Sys) {
    s.refCount == ParentRefs(s.parent) + ChildRefs(s.child, s.parent) &&
    s.freed + ParentCommits(s.parent) + ChildCommits(s.child) == if s.refCount == 0 then 1 else 0
  }

  predicate Created(s: Sys) {
    !s.child.NotCreated?
  }

  /** The thread holds the runnable in its local variable. */
  predicate InBody(c: Child) {
    InCall(c) || c.CheckingPrerun? || c.Looping? || c.CheckingPostrun? || c.Clearing? || c.DeletingRunnable?
  }

  predicate StartInv(s: Sys) {
    match s.parent
    case Constructing => !Created(s) && s.started.None? && !s.stopped && s.hasRunnable
    case Failing => !Created(s) && s.started.None? && !s.stopped
    case Detaching => Created(s) && s.started.None? && !s.stopped
    case Checking => s.started.None? && !s.stopped && (!Created(s) ==> !s.hasRunnable)
    case Holding => Created(s) && s.started == Some(true) && !s.stopped
    case ParentDestroy(_) =>
      && s.started.Some?
      && (s.started.value ==> Created(s))
      && (!s.started.value ==> !s.hasRunnable && !s.stopped)
    case _ => Created(s) && s.started == Some(true) && s.stopped
  }

  predicate RunnableInv(s: Sys) {
    && s.runnableFreed == (if s.fetched && s.child.ChildDestroy? then 1 else 0)
    && (InBody(s.child) ==> s.fetched)
    && (s.fetched ==> InBody(s.child) || s.child.ChildDestroy?)
    && (s.child.DeletingRunnable? || s.child.ChildDestroy? ==> !s.hasRunnable)
    && (s.child.ChildDestroy? && !s.fetched ==> s.stopped)
    && (Created(s) && !s.hasRunnable && !s.stopped ==> s.child.DeletingRunnable? || s.child.ChildDestroy?)
  }

  predicate Inv(s: Sys) {
    CountInv(s) && StartInv(s) && RunnableInv(s)
  }

  /** One step of destroy() gives up the side's reference, or commits to a deletion, or carries it out. */
  lemma DestroyCounts(s: Sys, d: Destroy, others: nat, committed: nat)
    requires s.refCount == Refs(d) + others
    requires s.freed + Commits(d) + committed == if s.refCount == 0 then 1 else 0
    ensures var (t, e) := StepDestroy(s, d);
            && t == s.(refCount := t.refCount, freed := t.freed)
            && t.refCount == Refs(e) + others
            && t.freed + Commits(e) + committed == if t.refCount == 0 then 1 else 0
  {
    match d
    case Testing =>
    case Locking =>
    case Unlocked(_) =>
    case Over =>
  }

  lemma ParentDestroyKeepsCount(s: Sys, choice: bool)
    requires CountInv(s) && s.parent.ParentDestroy?
    ensures CountInv(DoParent(s, choice))
  {
    hide StepDestroy, Refs, Commits;
    DestroyCounts(s, s.parent.d, ChildRefs(s.child, s.parent), ChildCommits(s.child));
  }

  /** What the other steps of the parent change in the count. */
  lemma ParentMoves(s: Sys, choice: bool)
    requires StartInv(s) && !s.parent.ParentDestroy?
    ensures var n := DoParent(s, choice);
            && ParentRefs(n.parent) == 1 && ParentCommits(n.parent) == 0 && n.freed == s.freed
            && ChildCommits(n.child) == ChildCommits(s.child)
            && (n.refCount - ChildRefs(n.child, n.parent) == s.refCount - ChildRefs(s.child, s.parent) || s.parent.Failing?)
            && (s.parent.Failing? ==> n.refCount == 1 && n.child.NotCreated? && ChildRefs(n.child, n.parent) == 0)
  {
    match s.parent
    case Constructing =>
    case Detaching =>
    case Failing =>
    case Checking =>
    case Holding =>
    case ClearingRunnable =>
    case TestingJoinable =>
    case Joining =>
  }

  lemma ParentKeepsCount(s: Sys, choice: bool)
    requires Inv(s)
    ensures CountInv(DoParent(s, choice))
  {
    if s.parent.ParentDestroy? {
      ParentDestroyKeepsCount(s, choice);
    } else {
      ParentMoves(s, choice);
      hide DoParent, StartInv, RunnableInv, ChildRefs, ChildCommits;
    }
  }

  lemma ParentKeepsStart(s: Sys, choice: bool)
    requires Inv(s)
    ensures StartInv(DoParent(s, choice))
  {
    hide CountInv;
    match s.parent
    case Constructing =>
    case Detaching =>
    case Failing =>
    case Checking =>
    case Holding =>
    case ClearingRunnable =>
    case TestingJoinable =>
    case Joining =>
    case ParentDestroy(_) =>
  }

  lemma ParentKeepsRunnable(s: Sys, choice: bool)
    requires Inv(s)
    ensures RunnableInv(DoParent(s, choice))
  {
    hide CountInv;
    match s.parent
    case Constructing =>
    case Detaching =>
    case Failing =>
    case Checking =>
    case Holding =>
    case ClearingRunnable =>
    case TestingJoinable =>
    case Joining =>
    case ParentDestroy(_) =>
  }

  /** The steps of the thread before destroy() change nothing in the count. */
  lemma ChildMoves(s: Sys, choice: bool)
    requires !s.child.ChildDestroy?
    ensures var n := DoChild(s, choice);
            && n.parent == s.parent && n.refCount == s.refCount && n.freed == s.freed
            && ChildRefs(n.child, n.parent) == ChildRefs(s.child, s.parent)
            && ChildCommits(n.child) == 0 && ChildCommits(s.child) == 0
  {
    match s.child
    case NotCreated =>
    case Fetching =>
    case CheckingPrerun =>
    case Prerunning =>
    case Looping =>
    case Running =>
    case CheckingPostrun =>
    case Postrunning =>
    case Clearing =>
    case DeletingRunnable =>
  }

  lemma ChildKeepsCount(s: Sys, choice: bool)
    requires Inv(s)
    ensures CountInv(DoChild(s, choice))
  {
    hide StepDestroy, Refs, Commits, StartInv, RunnableInv;
    if s.child.ChildDestroy? {
      DestroyCounts(s, s.child.d, ParentRefs(s.parent), ParentCommits(s.parent));
    } else {
      ChildMoves(s, choice);
      hide DoChild, ChildRefs, ChildCommits;
    }
  }

  lemma ChildKeepsStart(s: Sys, choice: bool)
    requires Inv(s)
    ensures StartInv(DoChild(s, choice))
  {
    hide CountInv;
    match s.child
    case NotCreated =>
    case Fetching =>
    case CheckingPrerun =>
    case Prerunning =>
    case Looping =>
    case Running =>
    case CheckingPostrun =>
    case Postrunning =>
    case Clearing =>
    case DeletingRunnable =>
    case ChildDestroy(_) =>
  }

  lemma ChildKeepsRunnable(s: Sys, choice: bool)
    requires Inv(s)
    ensures RunnableInv(DoChild(s, choice))
  {
    hide CountInv, StartInv;
    match s.child
    case NotCreated =>
    case Fetching =>
    case CheckingPrerun =>
    case Prerunning =>
    case Looping =>
    case Running =>
    case CheckingPostrun =>
    case Postrunning =>
    case Clearing =>
    case DeletingRunnable =>
    case ChildDestroy(_) =>
  }

  lemma StepKeepsInv(s: Sys, step: Step)
    requires Inv(s)
    ensures Inv(Do(s, step))
  {
    match step
    case ParentStep(choice) =>
      ParentKeepsCount(s, choice);
      ParentKeepsStart(s, choice);
      ParentKeepsRunnable(s, choice);
    case ChildStep(choice) =>
      ChildKeepsCount(s, choice);
      ChildKeepsStart(s, choice);
      ChildKeepsRunnable(s, choice);
  }

  lemma {:induction false} RunKeepsInv(s: Sys, steps: seq<Step>)
    requires Inv(s)
    ensures Inv(Run(s, steps))
    decreases |steps|
  {
    if steps != [] {
      StepKeepsInv(s, steps[0]);
      RunKeepsInv(Do(s, steps[0]), steps[1..]);
    }
  }

  lemma InitialCount(joinable: bool)
    ensures CountInv(Initial(joinable))
  {
  }

  lemma InitialStart(joinable: bool)
    ensures StartInv(Initial(joinable))
  {
  }

  lemma InitialRunnable(joinable: bool)
    ensures RunnableInv(Initial(joinable))
  {
  }

  lemma InitialIsFine(joinable: bool)
    ensures Inv(Initial(joinable))
  {
    hide CountInv, StartInv, RunnableInv, Initial;
    InitialCount(joinable);
    InitialStart(joinable);
    InitialRunnable(joinable);
  }

  lemma ReachIsFine(joinable: bool, steps: seq<Step>)
    ensures Inv(Run(Initial(joinable), steps))
  {
    hide Inv, Run, Initial;
    InitialIsFine(joinable);
    RunKeepsInv(Initial(joinable), steps);
  }

  predicate BothDone(s: Sys) {
    s.parent == ParentDestroy(Over) && (s.child == ChildDestroy(Over) || s.child.NotCreated?)
  }

  predicate DelegateSafe(s: Sys, step: Step) {
    && s.refCount == ParentRefs(s.parent) + ChildRefs(s.child, s.parent)
    && s.freed <= 1
    && (BothDone(s) ==> s.freed == 1)
    && (s.parent == ParentDestroy(Testing) || s.child == ChildDestroy(Testing) ==> s.refCount > 0)
    && (s.freed > 0 ==> !TouchesDelegate(s, step))
  }

  predicate RunnableSafe(s: Sys, step: Step) {
    && s.runnableFreed <= 1
    && (s.runnableFreed > 0 ==> !TouchesRunnable(s, step))
    && (BothDone(s) && s.started == Some(true) ==>
         (s.runnableFreed == 1 <==> s.fetched) && (!s.stopped ==> s.runnableFreed == 1))
    && (BothDone(s) && s.started == Some(false) ==>
         (s.runnableFreed == 0 <==> s.child.NotCreated?))
  }

  lemma InvIsDelegateSafe(s: Sys, step: Step)
    requires Inv(s)
    ensures DelegateSafe(s, step)
  {
  }

  lemma InvIsRunnableSafe(s: Sys, step: Step)
    requires Inv(s)
    ensures RunnableSafe(s, step)
  {
  }

  // ----- Over every interleaving -----

  /** The count is the number of sides still to call destroy; the delegate is deleted at most
      once, exactly once when both sides are done; and no step uses it after its deletion.  The
      test of the count in destroy() never fails. */
  lemma FreedOnceAndNotTouchedAfter(joinable: bool, steps: seq<Step>, step: Step)
    ensures DelegateSafe(Run(Initial(joinable), steps), step)
  {
    ReachIsFine(joinable, steps);
    InvIsDelegateSafe(Run(Initial(joinable), steps), step);
  }

  /** The runnable is deleted at most once and not used afterwards.  When start() returned true
      and both sides are done, it has been deleted if and only if the thread got to read
      mRunnable before stop() cleared it; without a stop() it always has.  When start()
      returned false, it is still the caller's if and only if no thread was created: a thread
      that finishes before create() looks makes start() return false too. */
  lemma RunnableFate(joinable: bool, steps: seq<Step>, step: Step)
    ensures RunnableSafe(Run(Initial(joinable), steps), step)
  {
    ReachIsFine(joinable, steps);
    InvIsRunnableSafe(Run(Initial(joinable), steps), step);
  }

  // ----- Joining -----

  /** mJoinable is what the thread was created with until stop() has taken note of it, and a joinable thread
      is over before the parent goes on. */
  predicate JoinInv(s: Sys, joinable: bool) {
    (s.stopped && !s.parent.ClearingRunnable? ==> !s.hasRunnable) &&
    match s.parent
    case Constructing => s.joinable == joinable
    case Failing => true
    case Checking => Created(s) ==> s.joinable == joinable
    case Detaching => s.joinable == joinable
    case Holding => s.joinable == joinable
    case ClearingRunnable => s.joinable == joinable
    case TestingJoinable => s.joinable == joinable
    case Joining => joinable && !s.joinable
    case ParentDestroy(_) =>
      s.started == Some(true) ==> !s.joinable && (joinable ==> s.stopped && s.child == ChildDestroy(Over))
  }

  lemma ParentKeepsJoin(s: Sys, choice: bool, joinable: bool)
    requires StartInv(s) && JoinInv(s, joinable)
    ensures JoinInv(DoParent(s, choice), joinable)
  {
    match s.parent
    case Constructing =>
    case Detaching =>
    case Failing =>
    case Checking =>
    case Holding =>
    case ClearingRunnable =>
    case TestingJoinable =>
    case Joining =>
    case ParentDestroy(_) =>
  }

  lemma ChildKeepsJoin(s: Sys, choice: bool, joinable: bool)
    requires JoinInv(s, joinable)
    ensures JoinInv(DoChild(s, choice), joinable)
  {
    ChildFrame(s, choice);
    hide DoChild;
  }

  lemma ChildFrame(s: Sys, choice: bool)
    ensures var n := DoChild(s, choice);
            && n.parent == s.parent && n.joinable == s.joinable && n.started == s.started && n.stopped == s.stopped
            && (n.hasRunnable ==> s.hasRunnable)
            && (Created(n) <==> Created(s)) && (s.child == ChildDestroy(Over) ==> n.child == s.child)
  {
    match s.child
    case NotCreated =>
    case Fetching =>
    case CheckingPrerun =>
    case Prerunning =>
    case Looping =>
    case Running =>
    case CheckingPostrun =>
    case Postrunning =>
    case Clearing =>
    case DeletingRunnable =>
    case ChildDestroy(_) =>
  }

  lemma {:induction false} RunKeepsJoin(s: Sys, steps: seq<Step>, joinable: bool)
    requires Inv(s) && JoinInv(s, joinable)
    ensures JoinInv(Run(s, steps), joinable)
    decreases |steps|
  {
    hide JoinInv, CountInv, StartInv, RunnableInv;
    if steps != [] {
      StepKeepsInv(s, steps[0]);
      match steps[0] {
        case ParentStep(choice) => ParentKeepsJoin(s, choice, joinable);
        case ChildStep(choice) => ChildKeepsJoin(s, choice, joinable);
      }
      RunKeepsJoin(Do(s, steps[0]), steps[1..], joinable);
    }
  }

  lemma InitialJoin(joinable: bool)
    ensures JoinInv(Initial(joinable), joinable)
  {
  }

  predicate WaitedFor(s: Sys, joinable: bool) {
    && (s.parent.ParentDestroy? && s.started == Some(true) ==>
          !s.joinable && (joinable ==> s.stopped && s.child == ChildDestroy(Over)))
    && (s.parent.Joining? ==> joinable)
    && (s.stopped && !s.parent.ClearingRunnable? ==> !s.hasRunnable)
  }

  lemma JoinedIsWaitedFor(s: Sys, joinable: bool)
    requires JoinInv(s, joinable)
    ensures WaitedFor(s, joinable)
  {
  }

  /** Before its reference to a joinable thread is given up the parent has stopped the thread and waited for its
      end; for a detached one it never waits. stop() leaves mRunnable NULL. */
  lemma JoinableIsWaitedFor(joinable: bool, steps: seq<Step>)
    ensures WaitedFor(Run(Initial(joinable), steps), joinable)
  {
    hide Run, Initial, Inv, JoinInv, WaitedFor;
    InitialJoin(joinable);
    InitialIsFine(joinable);
    RunKeepsJoin(Initial(joinable), steps, joinable);
    JoinedIsWaitedFor(Run(Initial(joinable), steps), joinable);
  }

  // ----- The calls of the runnable -----

  /** May a call follow the one before it, or be the first? */
  predicate Follows(before: Option<Call>, call: Call) {
    match call
    case Prerun => before.None?
    case Ran(_) => before == Some(Prerun) || before == Some(Ran(true))
    case Postrun => before == Some(Ran(false))
  }

  function LastCall(calls: seq<Call>): Option<Call> {
    if calls == [] then None else Some(calls[|calls| - 1])
  }

  predicate InTurn(calls: seq<Call>) {
    forall i :: 0 <= i < |calls| ==> Follows(LastCall(calls[..i]), calls[i])
  }

  /** What the calls made so far end with, wherever the thread is. */
  predicate CallsInv(s: Sys) {
    var last := LastCall(s.calls);
    InTurn(s.calls) &&
    match s.child
    case Prerunning => last == None
    case Looping => if s.hasRunnable then last == Some(Prerun) || last == Some(Ran(true)) else true
    case Running => last == Some(Prerun) || last == Some(Ran(true))
    case CheckingPostrun => s.hasRunnable ==> last == Some(Ran(false))
    case Postrunning => last == Some(Ran(false))
    case Clearing => last == Some(Postrun) || s.stopped
    case DeletingRunnable => last == Some(Postrun) || s.stopped
    case ChildDestroy(_) => s.fetched ==> last == Some(Postrun) || s.stopped
    case _ => last == None
  }

  lemma CallInTurn(calls: seq<Call>, call: Call)
    requires InTurn(calls) && Follows(LastCall(calls), call)
    ensures InTurn(calls + [call]) && LastCall(calls + [call]) == Some(call)
  {
    hide Follows;
    var more := calls + [call];
    forall i | 0 <= i < |more|
      ensures Follows(LastCall(more[..i]), more[i])
    {
      if i < |calls| {
        assert more[..i] == calls[..i];
      } else {
        assert more[..i] == calls;
      }
    }
  }

  lemma ParentKeepsCalls(s: Sys, choice: bool)
    requires StartInv(s) && RunnableInv(s) && CallsInv(s)
    ensures CallsInv(DoParent(s, choice))
  {
    hide InTurn;
    match s.parent
    case Constructing =>
    case Detaching =>
    case Failing =>
    case Checking =>
    case Holding =>
    case ClearingRunnable =>
    case TestingJoinable =>
    case Joining =>
    case ParentDestroy(_) =>
  }

  lemma ChildKeepsCalls(s: Sys, choice: bool)
    requires RunnableInv(s) && CallsInv(s)
    ensures CallsInv(DoChild(s, choice))
  {
    hide InTurn, LastCall;
    match s.child
    case NotCreated =>
    case Fetching =>
    case CheckingPrerun =>
    case Prerunning => CallInTurn(s.calls, Prerun);
    case Looping =>
    case Running => CallInTurn(s.calls, Ran(choice));
    case CheckingPostrun =>
    case Postrunning => CallInTurn(s.calls, Postrun);
    case Clearing =>
    case DeletingRunnable =>
    case ChildDestroy(_) =>
  }

  lemma {:induction false} RunKeepsCalls(s: Sys, steps: seq<Step>)
    requires Inv(s) && CallsInv(s)
    ensures CallsInv(Run(s, steps))
    decreases |steps|
  {
    hide CallsInv, CountInv, StartInv, RunnableInv;
    if steps != [] {
      StepKeepsInv(s, steps[0]);
      match steps[0] {
        case ParentStep(choice) => ParentKeepsCalls(s, choice);
        case ChildStep(choice) => ChildKeepsCalls(s, choice);
      }
      RunKeepsCalls(Do(s, steps[0]), steps[1..]);
    }
  }

  lemma InitialCalls(joinable: bool)
    ensures CallsInv(Initial(joinable))
  {
  }

  predicate AsAsked(s: Sys) {
    && InTurn(s.calls)
    && (s.child.ChildDestroy? && s.fetched && !s.stopped ==> LastCall(s.calls) == Some(Postrun))
  }

  lemma CalledAsAsked(s: Sys)
    requires CallsInv(s)
    ensures AsAsked(s)
  {
    hide InTurn, LastCall;
  }

  /** prerun() comes first; run() is called again only after it asked for that; postrun() comes last, and only
      once run() has asked for no more. A thread that is not stopped goes through all of it to the end. */
  lemma RunsAsItAsks(joinable: bool, steps: seq<Step>)
    ensures AsAsked(Run(Initial(joinable), steps))
  {
    hide Run, Initial, Inv, CallsInv, AsAsked;
    InitialCalls(joinable);
    InitialIsFine(joinable);
    RunKeepsCalls(Initial(joinable), steps);
    CalledAsAsked(Run(Initial(joinable), steps));
  }

  /** The calls that are still to return when mRunnable is NULL: the one under way. */
  function UnderWay(c: Child): nat {
    if InCall(c) then 1 else 0
  }

  lemma ParentFrame(s: Sys, choice: bool)
    requires Created(s) && !s.hasRunnable
    ensures var n := DoParent(s, choice);
            n.calls == s.calls && !n.hasRunnable && (n.child == s.child || (s.parent.Constructing? && n.child == Fetching))
  {
    match s.parent
    case Constructing =>
    case Detaching =>
    case Failing =>
    case Checking =>
    case Holding =>
    case ClearingRunnable =>
    case TestingJoinable =>
    case Joining =>
    case ParentDestroy(_) =>
  }

  lemma ChildClearedStep(s: Sys, choice: bool)
    requires Created(s) && !s.hasRunnable
    ensures var n := DoChild(s, choice);
            && Created(n) && !n.hasRunnable && s.calls <= n.calls
            && |n.calls| + UnderWay(n.child) <= |s.calls| + UnderWay(s.child)
  {
    match s.child
    case NotCreated =>
    case Fetching =>
    case CheckingPrerun =>
    case Prerunning =>
    case Looping =>
    case Running =>
    case CheckingPostrun =>
    case Postrunning =>
    case Clearing =>
    case DeletingRunnable =>
    case ChildDestroy(_) =>
  }

  lemma ClearedStep(s: Sys, step: Step)
    requires Created(s) && !s.hasRunnable
    ensures var n := Do(s, step);
            && Created(n) && !n.hasRunnable && s.calls <= n.calls
            && |n.calls| + UnderWay(n.child) <= |s.calls| + UnderWay(s.child)
  {
    hide DoParent, DoChild;
    match step
    case ParentStep(choice) => ParentFrame(s, choice);
    case ChildStep(choice) => ChildClearedStep(s, choice);
  }

  /** Once mRunnable is NULL no further call of the runnable begins: at most the one under way returns. */
  lemma {:induction false} ClearedMeansNoMoreCalls(s: Sys, steps: seq<Step>)
    requires Created(s) && !s.hasRunnable
    ensures s.calls <= Run(s, steps).calls && |Run(s, steps).calls| <= |s.calls| + UnderWay(s.child)
    decreases |steps|
  {
    hide Do;
    if steps != [] {
      ClearedStep(s, steps[0]);
      ClearedMeansNoMoreCalls(Do(s, steps[0]), steps[1..]);
    }
  }

  predicate Leaking(s: Sys) {
    Inv(s) && Created(s) && !s.hasRunnable && !s.fetched
  }

  lemma NobodySetsRunnable(s: Sys, step: Step)
    requires Created(s) && !s.hasRunnable && !s.fetched
    ensures var n := Do(s, step); Created(n) && !n.hasRunnable && !n.fetched
  {
    match step
    case ParentStep(_) =>
      match s.parent {
        case Constructing =>
        case Detaching =>
        case Failing =>
        case Checking =>
        case Holding =>
        case ClearingRunnable =>
        case TestingJoinable =>
        case Joining =>
        case ParentDestroy(_) =>
      }
    case ChildStep(_) =>
      match s.child {
        case NotCreated =>
        case Fetching =>
        case CheckingPrerun =>
        case Prerunning =>
        case Looping =>
        case Running =>
        case CheckingPostrun =>
        case Postrunning =>
        case Clearing =>
        case DeletingRunnable =>
        case ChildDestroy(_) =>
      }
  }

  lemma LeakStays(s: Sys, step: Step)
    requires Leaking(s)
    ensures Leaking(Do(s, step))
  {
    hide Inv, Do;
    StepKeepsInv(s, step);
    NobodySetsRunnable(s, step);
  }

  /** Once stop() has cleared mRunnable before the thread read it, no run deletes the runnable. */
  lemma {:induction false} LeakIsFinal(s: Sys, steps: seq<Step>)
    requires Leaking(s)
    ensures Leaking(Run(s, steps)) && Run(s, steps).runnableFreed == 0
    decreases |steps|
  {
    if steps != [] {
      LeakStays(s, steps[0]);
      LeakIsFinal(Do(s, steps[0]), steps[1..]);
    }
  }

  lemma RunFirst(s: Sys, steps: seq<Step>, rest: seq<Step>)
    requires steps != [] && steps[1..] == rest
    ensures Run(s, steps) == Run(Do(s, steps[0]), rest)
  {
  }

  /** A run of n steps of one thread. */
  function Repeat(step: Step, n: nat): seq<Step> {
    seq(n, _ => step)
  }

  lemma RunRepeat(s: Sys, step: Step, n: nat, rest: seq<Step>)
    requires n > 0
    ensures Run(s, Repeat(step, n) + rest) == Run(Do(s, step), Repeat(step, n - 1) + rest)
  {
    RunFirst(s, Repeat(step, n) + rest, Repeat(step, n - 1) + rest);
  }

  lemma RunRest(s: Sys, step: Step, rest: seq<Step>)
    ensures Run(s, Repeat(step, 0) + rest) == Run(s, rest)
  {
    assert Repeat(step, 0) + rest == rest;
  }

  /** The thread has run to its end, but for destroy(), before the parent is through with creating it. */
  function Ended(joinable: bool): Sys {
    RunOver(joinable).(child := ChildDestroy(Testing), hasRunnable := false, runnableFreed := 1,
                       calls := [Prerun, Ran(false), Postrun])
  }

  /** run() has returned false; the parent has not moved on. */
  function RunOver(joinable: bool): Sys {
    Sys(Detaching, CheckingPostrun, true, joinable, 2, 0, 0, true, None, false, [Prerun, Ran(false)])
  }

  lemma ChildRuns(joinable: bool, rest: seq<Step>)
    ensures Run(Initial(joinable), [ParentStep(true)] + (Repeat(ChildStep(false), 9) + rest))
         == Run(RunOver(joinable), Repeat(ChildStep(false), 4) + rest)
  {
    hide Run, Repeat;
    var c := ChildStep(false);
    var s0 := Initial(joinable);
    RunFirst(s0, [ParentStep(true)] + (Repeat(c, 9) + rest), Repeat(c, 9) + rest);
    var s1 := Do(s0, ParentStep(true));
    RunRepeat(s1, c, 9, rest);
    var s2 := Do(s1, c);
    RunRepeat(s2, c, 8, rest);
    var s3 := Do(s2, c);
    RunRepeat(s3, c, 7, rest);
    var s4 := Do(s3, c);
    RunRepeat(s4, c, 6, rest);
    var s5 := Do(s4, c);
    RunRepeat(s5, c, 5, rest);
    assert s5.calls == [Prerun] && [Prerun] + [Ran(false)] == [Prerun, Ran(false)];
  }

  lemma ChildEnds(joinable: bool, rest: seq<Step>)
    ensures Run(RunOver(joinable), Repeat(ChildStep(false), 4) + rest) == Run(Ended(joinable), rest)
  {
    hide Run, Repeat;
    var c := ChildStep(false);
    var s0 := RunOver(joinable);
    RunRepeat(s0, c, 4, rest);
    var s1 := Do(s0, c);
    RunRepeat(s1, c, 3, rest);
    var s2 := Do(s1, c);
    RunRepeat(s2, c, 2, rest);
    var s3 := Do(s2, c);
    RunRepeat(s3, c, 1, rest);
    RunRest(Do(s3, c), c, rest);
    assert [Prerun, Ran(false)] + [Postrun] == [Prerun, Ran(false), Postrun];
  }

  /** start() returns false although the thread ran and deleted the runnable. */
  lemma FalseStartIsReachable(joinable: bool)
    ensures var s := Run(Initial(joinable), [ParentStep(true)] + (Repeat(ChildStep(false), 9) + [ParentStep(true), ParentStep(true)]));
            s.started == Some(false) && s.fetched && s.runnableFreed == 1 && s.calls == [Prerun, Ran(false), Postrun]
  {
    hide Run, Repeat;
    var p := ParentStep(true);
    ChildRuns(joinable, [p, p]);
    ChildEnds(joinable, [p, p]);
    var s1 := Ended(joinable);
    RunFirst(s1, [p, p], [p]);
    var s2 := Do(s1, p);
    RunFirst(s2, [p], []);
    RunNothing(Do(s2, p));
  }

  lemma RunNothing(s: Sys)
    ensures Run(s, []) == s
  {
  }

  /** A leaking state is reached when the client stops the thread at once. */
  lemma LeakIsReachable(joinable: bool)
    ensures var s := Run(Initial(joinable), Repeat(ParentStep(true), 5) + []);
            s.started == Some(true) && Created(s) && !s.hasRunnable && !s.fetched
  {
    hide Run, Repeat;
    var p := ParentStep(true);
    var s0 := Initial(joinable);
    RunRepeat(s0, p, 5, []);
    var s1 := Do(s0, p);
    RunRepeat(s1, p, 4, []);
    var s2 := Do(s1, p);
    RunRepeat(s2, p, 3, []);
    var s3 := Do(s2, p);
    RunRepeat(s3, p, 2, []);
    var s4 := Do(s3, p);
    RunRepeat(s4, p, 1, []);
    RunRest(Do(s4, p), p, []);
    RunNothing(Do(s4, p));
  }
}
