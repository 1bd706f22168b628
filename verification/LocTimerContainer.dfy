/** The message procedures of LocTimerContainer over the pointer heap: what each of them,
    undisturbed, does to the heap, the epoll set and the timer fd. */
module LocTimerContainerClass {
  import opened Wrappers
  import opened HeapTree
  import opened LocHeapClass
  import opened LocTimer

  /** The state of the fd once updateSoonestTime has carried out what it decided. */
  function FdAfter(fd: (bool, Option<Time>), cur: Option<Rankable>, prior: Option<Rankable>): (bool, Option<Time>) {
    match Update(cur, prior, None)
    case AddingPoll(_) => (true, if cur.Some? then Some(TimeOf(cur.value)) else None)
    case RemovingPoll(_) => (false, None)
    case _ => fd
  }

  /** A push sets the fd for the new top if there is one, and only then. */
  lemma PushSetsFd(t: Tree, x: Rankable, fd: (bool, Option<Time>))
    requires Healthy(t)
    ensures FdAfter(fd, PeekOf(Push(t, x)), PeekOf(t)) ==
            if PeekOf(Push(t, x)) == PeekOf(t) then fd else (true, Some(TimeOf(Push(t, x).data)))
  {
    PushKeeps(t, x);
  }

  class LocTimerContainer {
    const heap: LocHeap
    var polled: bool
    var armed: Option<Time>

    ghost predicate Valid()
      reads this, heap, heap.Repr
    {
      heap.Valid() && this !in heap.Repr
    }

    function Fd(): (bool, Option<Time>)
      reads this
    {
      (polled, armed)
    }

    constructor ()
      ensures Valid() && fresh(heap.Repr) && heap.Contents() == Nil && Fd() == (false, None)
    {
      heap := new LocHeap();
      polled, armed := false, None;
    }

    method UpdateSoonestTime(priorTop: Option<Rankable>)
      requires Valid()
      modifies this
      ensures Valid() && Fd() == FdAfter(old(Fd()), PeekOf(heap.Contents()), priorTop)
    {
      var curTop := heap.Peek();
      if curTop != priorTop {
        if curTop.None? {
          polled := false;
          armed := None;
        } else if priorTop.None? || OutRanks(curTop.value, priorTop.value) {
          polled := true;
          armed := Some(TimeOf(curTop.value));
        }
      }
    }

    /** MsgTimerPush::proc. */
    method ProcPush(timer: Rankable)
      requires Valid()
      modifies this, heap.Repr
      ensures Valid() && fresh(heap.Repr - old(heap.Repr))
      ensures heap.Contents() == Push(old(heap.Contents()), timer)
      ensures Fd() == if PeekOf(heap.Contents()) == PeekOf(old(heap.Contents())) then old(Fd())
                      else (true, Some(TimeOf(heap.Contents().data)))
    {
      PushSetsFd(heap.Contents(), timer, Fd());
      var priorTop := heap.Peek();
      heap.Push(timer);
      UpdateSoonestTime(priorTop);
    }

    /** MsgTimerRemove::proc, up to the deletion of the timer. */
    method ProcRemove(timer: Rankable)
      requires Valid()
      modifies this, heap.Repr
      ensures Valid() && heap.Repr == old(heap.Repr)
      ensures heap.Contents() == RemoveFrom(old(heap.Contents()), timer)
      ensures Fd() == if PeekOf(old(heap.Contents())) != Some(timer) || heap.Contents().Nil? then old(Fd())
                      else (true, Some(TimeOf(heap.Contents().data)))
    {
      var priorTop := heap.Peek();
      RemoveFromKeeps(heap.Contents(), timer);
      TopIsElement(heap.Contents());
      var removed := heap.Remove(timer);
      if priorTop == removed {
        UpdateSoonestTime(None);
      }
    }

    method PopIfOutRanks(now: Time) returns (popped: Option<Rankable>)
      requires Valid()
      modifies heap.Repr
      ensures Valid() && heap.Repr == old(heap.Repr) && Fd() == old(Fd())
      ensures var top := PeekOf(old(heap.Contents()));
              if top.Some? && top.value.sec <= now.sec
              then popped == top && heap.Contents() == Pop(old(heap.Contents()))
              else popped == None && heap.Contents() == old(heap.Contents())
    {
      popped := None;
      var top := heap.Peek();
      if top.Some? && !OutRanks(Rankable(0, now.sec, now.nsec), top.value) {
        popped := heap.Pop();
      }
    }

    /** MsgTimerExpire::proc without the calls to the clients: `expired` lists the timers whose
        expire() is called, in that order. */
    method ProcExpire(now: Time) returns (expired: seq<Rankable>)
      requires Valid()
      modifies this, heap.Repr
      ensures Valid() && heap.Repr == old(heap.Repr)
      ensures expired == Expired(old(heap.Contents()), now)
      ensures heap.Contents() == LeftBy(old(heap.Contents()), now)
      ensures Fd() == if heap.Contents().Nil? then old(Fd()) else (true, Some(TimeOf(heap.Contents().data)))
    {
      expired := [];
      var timer := heap.Pop();
      ghost var t := heap.Contents();
      while timer.Some?
        invariant Valid() && heap.Repr == old(heap.Repr) && Fd() == old(Fd())
        invariant timer.Some? ==> Expired(old(heap.Contents()), now) == expired + [timer.value] + Due(heap.Contents(), now)
        invariant timer.None? ==> Expired(old(heap.Contents()), now) == expired && NotDue(heap.Contents(), now) == heap.Contents()
        invariant LeftBy(old(heap.Contents()), now) == NotDue(heap.Contents(), now)
        decreases Count(heap.Contents()), timer.Some?
      {
        expired := expired + [timer.value];
        DueUnfolds(heap.Contents(), now);
        timer := PopIfOutRanks(now);
      }
      UpdateSoonestTime(None);
    }
  }

  lemma TopIsElement(t: Tree)
    ensures t.Node? ==> t.data in Elements(t)
    ensures t.Nil? ==> Elements(t) == multiset{}
  {
  }

  predicate IsDue(t: Tree, now: Time) {
    t.Node? && t.data.sec <= now.sec
  }

  /** The timers popped while the top is due, in order. */
  function Due(t: Tree, now: Time): seq<Rankable>
    requires SizesOk(t)
    decreases Count(t)
  {
    if IsDue(t, now) then
      PopSizes(t);
      [t.data] + Due(Pop(t), now)
    else []
  }

  function NotDue(t: Tree, now: Time): Tree
    requires SizesOk(t)
    decreases Count(t)
  {
    if IsDue(t, now) then
      PopSizes(t);
      NotDue(Pop(t), now)
    else t
  }

  function Expired(t: Tree, now: Time): seq<Rankable>
    requires SizesOk(t)
  {
    if t.Nil? then [] else
      PopSizes(t);
      [t.data] + Due(Pop(t), now)
  }

  function LeftBy(t: Tree, now: Time): Tree
    requires SizesOk(t)
  {
    if t.Nil? then Nil else
      PopSizes(t);
      NotDue(Pop(t), now)
  }

  lemma DueUnfolds(t: Tree, now: Time)
    requires Healthy(t)
    ensures IsDue(t, now) ==> Healthy(Pop(t)) && Count(Pop(t)) < Count(t)
    ensures IsDue(t, now) ==> Due(t, now) == [t.data] + Due(Pop(t), now) && NotDue(t, now) == NotDue(Pop(t), now)
    ensures !IsDue(t, now) ==> Due(t, now) == [] && NotDue(t, now) == t
  {
    if t.Node? {
      PopKeeps(t);
    }
  }

  lemma {:induction false} DueSplits(t: Tree, now: Time)
    requires Healthy(t)
    ensures Healthy(NotDue(t, now))
    ensures Elements(t) == multiset(Due(t, now)) + Elements(NotDue(t, now))
    ensures forall x :: x in Due(t, now) ==> x.sec <= now.sec
    ensures forall x :: x in Elements(NotDue(t, now)) ==> x.sec > now.sec
    decreases Count(t)
  {
    if IsDue(t, now) {
      PopKeeps(t);
      DueSplits(Pop(t), now);
    } else {
      forall x | x in Elements(t)
        ensures x.sec > now.sec
      {
        TopIsHighest(t, x);
      }
    }
  }

  /** Timers are due in the order of their seconds, and none before the top it was popped under. */
  lemma {:induction false} DueIsSorted(t: Tree, now: Time, top: Rankable)
    requires Healthy(t) && TopBelow(t, top)
    ensures forall x :: x in Due(t, now) ==> top.sec <= x.sec
    ensures forall i, j :: 0 <= i < j < |Due(t, now)| ==> Due(t, now)[i].sec <= Due(t, now)[j].sec
    decreases Count(t)
  {
    if IsDue(t, now) {
      PopKeeps(t);
      DueIsSorted(Pop(t), now, t.data);
      FirstIsLeast(t.data, Due(Pop(t), now));
      hide Healthy, Pop;
      var due := Due(t, now);
      assert due == [t.data] + due[1..];
    }
  }

  lemma FirstIsLeast(x: Rankable, due: seq<Rankable>)
    requires forall y :: y in due ==> x.sec <= y.sec
    requires forall i, j :: 0 <= i < j < |due| ==> due[i].sec <= due[j].sec
    ensures forall i, j :: 0 <= i < j < |[x] + due| ==> ([x] + due)[i].sec <= ([x] + due)[j].sec
  {
    var all := [x] + due;
    forall i, j | 0 <= i < j < |all|
      ensures all[i].sec <= all[j].sec
    {
      assert all[j] == due[j - 1];
      if i > 0 {
        assert all[i] == due[i - 1];
      }
    }
  }

  lemma ExpiredIsSorted(t: Tree, now: Time)
    requires Healthy(t)
    ensures forall i, j :: 0 <= i < j < |Expired(t, now)| ==> Expired(t, now)[i].sec <= Expired(t, now)[j].sec
  {
    if t.Node? {
      PopKeeps(t);
      DueIsSorted(Pop(t), now, t.data);
      FirstIsLeast(t.data, Due(Pop(t), now));
    }
  }

  lemma Prepend(x: Rankable, due: seq<Rankable>, rest: multiset<Rankable>)
    ensures multiset([x] + due) + rest == multiset(due) + rest + multiset{x}
  {
    assert multiset([x] + due) == multiset{x} + multiset(due);
  }

  /** The expire message splits the heap: it expires the top unconditionally and otherwise
      exactly the timers whose second has come, in the order of their rank; what is left is later. */
  lemma ExpireSplits(t: Tree, now: Time)
    requires Healthy(t)
    ensures Healthy(LeftBy(t, now))
    ensures Elements(t) == multiset(Expired(t, now)) + Elements(LeftBy(t, now))
    ensures forall x :: x in Elements(LeftBy(t, now)) ==> x.sec > now.sec
    ensures forall x :: x in Expired(t, now)[if t.Nil? then 0 else 1..] ==> x.sec <= now.sec
    ensures forall i, j :: 0 <= i < j < |Expired(t, now)| ==> Expired(t, now)[i].sec <= Expired(t, now)[j].sec
  {
    if t.Node? {
      ExpiredIsSorted(t, now);
      PopKeeps(t);
      DueSplits(Pop(t), now);
      Prepend(t.data, Due(Pop(t), now), Elements(LeftBy(t, now)));
      assert Expired(t, now)[1..] == Due(Pop(t), now);
    }
  }
}
