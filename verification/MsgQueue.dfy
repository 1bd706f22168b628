/** The blocking message queue of gps/utils/msg_q.c over the linked list, and what holds over
    every interleaving of senders, receivers, unblock and flush. */
module MsgQueue {
  import opened Wrappers
  import opened LinkedListClass

  datatype MsgErr = MSG_SUCCESS | MSG_INVALID_PARAMETER | MSG_INVALID_HANDLE | MSG_UNAVAILABLE_RESOURCE

  /** convert_linked_list_err_type. */
  function Convert(err: Err): MsgErr {
    match err
    case SUCCESS => MSG_SUCCESS
    case INVALID_PARAMETER => MSG_INVALID_PARAMETER
    case INVALID_HANDLE => MSG_INVALID_HANDLE
    case UNAVAILABLE_RESOURCE => MSG_UNAVAILABLE_RESOURCE
  }

  /** How far a receive gets before it blocks: it waits, or it returns. */
  datatype Outcome<M> = Waits | Returns(err: MsgErr, msg: Option<M>)

  /** From the loop guard on: wait, or take the last element of the list. */
  function TakeOrWait<M>(list: seq<Item<M>>, unblocked: bool): Outcome<M> {
    if list == [] && !unblocked then Waits
    else if list == [] then Returns(MSG_UNAVAILABLE_RESOURCE, None)
    else Returns(MSG_SUCCESS, Some(list[|list| - 1].data))
  }

  /** The list once a receive has taken what it takes. */
  function ListAfter<M>(list: seq<Item<M>>, o: Outcome<M>): seq<Item<M>> {
    if o.Returns? && o.msg.Some? && list != [] then list[..|list| - 1] else list
  }

  // ----- The queue object; each method is one critical section -----

  class MsgQ<M> {
    const list: LinkedList<M>
    var unblocked: bool

    ghost predicate Valid()
      reads this, list, list.nodes
    {
      list.Valid()
    }

    constructor ()
      ensures Valid() && list.Items() == [] && !unblocked
    {
      list := new LinkedList<M>();
      unblocked := false;
    }

    static ghost function Footprint(q: MsgQ?<M>): set<object>
      reads q, if q == null then {} else {q.list}
    {
      if q == null then {} else LinkedList<M>.Footprint(q.list)
    }

    /** msg_q_snd. */
    static method Snd(q: MsgQ?<M>, msg: Option<M>, dealloc: bool) returns (err: MsgErr)
      requires q != null ==> q.Valid()
      modifies Footprint(q)
      ensures err == if q == null then MSG_INVALID_HANDLE
                     else if msg.None? then MSG_INVALID_PARAMETER
                     else if q.unblocked then MSG_UNAVAILABLE_RESOURCE else MSG_SUCCESS
      ensures q != null ==>
                && q.Valid() && q.unblocked == old(q.unblocked)
                && q.list.Items() == (if err.MSG_SUCCESS? then [Item(msg.value, dealloc)] else []) + old(q.list.Items())
      ensures fresh(Footprint(q) - old(Footprint(q)))
    {
      if q == null {
        return MSG_INVALID_HANDLE;
      }
      if msg.None? {
        return MSG_INVALID_PARAMETER;
      }
      if q.unblocked {
        return MSG_UNAVAILABLE_RESOURCE;
      }
      var e := LinkedList<M>.Add(q.list, msg, dealloc);
      err := Convert(e);
    }

    /** A receive from its loop guard up to where it waits or returns. */
    method TakeOrBlock() returns (o: Outcome<M>)
      requires Valid()
      modifies LinkedList<M>.Footprint(list)
      ensures Valid() && unblocked == old(unblocked)
      ensures o == TakeOrWait(old(list.Items()), unblocked)
      ensures list.Items() == ListAfter(old(list.Items()), o)
    {
      var empty := LinkedList<M>.Empty(list);
      if empty != 0 && !unblocked {
        return Waits;
      }
      var e, m := LinkedList<M>.Remove(list, true);
      o := Returns(Convert(e), m);
    }

    /** msg_q_rcv from its start. `wantMsg` is msg_obj != NULL. */
    static method Rcv(q: MsgQ?<M>, wantMsg: bool) returns (o: Outcome<M>)
      requires q != null ==> q.Valid()
      modifies Footprint(q)
      ensures o == if q == null then Returns(MSG_INVALID_HANDLE, None)
                   else if !wantMsg then Returns(MSG_INVALID_PARAMETER, None)
                   else if q.unblocked then Returns(MSG_UNAVAILABLE_RESOURCE, None)
                   else TakeOrWait(old(q.list.Items()), q.unblocked)
      ensures q != null ==>
                && q.Valid() && q.unblocked == old(q.unblocked)
                && q.list.Items() == ListAfter(old(q.list.Items()), o)
    {
      if q == null {
        return Returns(MSG_INVALID_HANDLE, None);
      }
      if !wantMsg {
        return Returns(MSG_INVALID_PARAMETER, None);
      }
      if q.unblocked {
        return Returns(MSG_UNAVAILABLE_RESOURCE, None);
      }
      o := q.TakeOrBlock();
    }

    /** msg_q_flush. */
    static method Flush(q: MsgQ?<M>) returns (err: MsgErr)
      requires q != null ==> q.Valid()
      modifies Footprint(q)
      ensures err == if q == null then MSG_INVALID_HANDLE else MSG_SUCCESS
      ensures q != null ==>
                && q.Valid() && q.unblocked == old(q.unblocked)
                && q.list.Items() == []
                && q.list.deallocated == old(q.list.deallocated) + Deallocated(old(q.list.Items()))
    {
      if q == null {
        return MSG_INVALID_HANDLE;
      }
      var e := LinkedList<M>.Flush(q.list);
      err := Convert(e);
    }

    /** msg_q_unblock. */
    static method Unblock(q: MsgQ?<M>) returns (err: MsgErr)
      requires q != null ==> q.Valid()
      modifies if q == null then {} else {q}
      ensures err == if q == null then MSG_INVALID_HANDLE
                     else if old(q.unblocked) then MSG_UNAVAILABLE_RESOURCE else MSG_SUCCESS
      ensures q != null ==> q.Valid() && q.unblocked && q.list.Items() == old(q.list.Items())
    {
      if q == null {
        return MSG_INVALID_HANDLE;
      }
      if q.unblocked {
        return MSG_UNAVAILABLE_RESOURCE;
      }
      q.unblocked := true;
      return MSG_SUCCESS;
    }
  }

  // ----- The queue shared by any number of senders and receivers -----

  /** How a message left the queue. */
  datatype Exit<M> = Exit(msg: M, delivered: bool)

  /** What a receive of receiver r returned. */
  datatype Return<M> = Return(r: nat, err: MsgErr, msg: Option<M>)

  /** `asleep` and `awake` are the receivers inside the wait loop: waiting for the condition,
      and signalled but not yet in possession of the mutex.  `left` is every message that left
      the queue, and `returned` every receive that returned, in order. */
  datatype Sys<M> = Sys(list: seq<Item<M>>, unblocked: bool, asleep: set<nat>, awake: set<nat>,
                        accepted: seq<M>, left: seq<Exit<M>>, returned: seq<Return<M>>)

  function Initial<M>(): Sys<M> {
    Sys([], false, {}, {}, [], [], [])
  }

  datatype Step<M> =
    | Snd(item: Item<M>, woken: nat)
    | Rcv(r: nat)
    | Wake(r: nat)
    | SpuriousWakeup(r: nat)
    | Unblock
    | Flush

  /** The messages of the list in the order of their arrival. */
  function Waiting<M>(list: seq<Item<M>>): seq<M> {
    if list == [] then [] else [list[|list| - 1].data] + Waiting(list[..|list| - 1])
  }

  function Exits<M>(msgs: seq<M>, delivered: bool): seq<Exit<M>> {
    seq(|msgs|, (i: int) requires 0 <= i < |msgs| => Exit(msgs[i], delivered))
  }

  function MsgsOf<M>(left: seq<Exit<M>>): seq<M> {
    seq(|left|, (i: int) requires 0 <= i < |left| => left[i].msg)
  }

  /** `woken` names the waiter that the signal of a send picks. */
  predicate Enabled<M>(s: Sys<M>, step: Step<M>) {
    match step
    case Snd(_, woken) => s.asleep != {} ==> woken in s.asleep
    case Rcv(r) => r !in s.asleep && r !in s.awake
    case Wake(r) => r in s.awake
    case SpuriousWakeup(r) => r in s.asleep
    case _ => true
  }

  /** A receiver r that holds the mutex at the loop guard. */
  function Take<M>(s: Sys<M>, r: nat): Sys<M> {
    var o := TakeOrWait(s.list, s.unblocked);
    if o.Waits? then s.(asleep := s.asleep + {r}, awake := s.awake - {r})
    else s.(list := ListAfter(s.list, o), awake := s.awake - {r},
            left := s.left + (if o.msg.Some? then [Exit(o.msg.value, true)] else []),
            returned := s.returned + [Return(r, o.err, o.msg)])
  }

  function Do<M>(s: Sys<M>, step: Step<M>): Sys<M>
    requires Enabled(s, step)
  {
    match step
    case Snd(item, woken) =>
      if s.unblocked then s
      else
        var t := s.(list := [item] + s.list, accepted := s.accepted + [item.data]);
        if s.asleep == {} then t else t.(asleep := s.asleep - {woken}, awake := s.awake + {woken})
    case Rcv(r) =>
      if s.unblocked then s.(returned := s.returned + [Return(r, MSG_UNAVAILABLE_RESOURCE, None)]) else Take(s, r)
    case Wake(r) => Take(s, r)
    case SpuriousWakeup(r) => s.(asleep := s.asleep - {r}, awake := s.awake + {r})
    case Unblock => s.(unblocked := true, asleep := {}, awake := s.awake + s.asleep)
    case Flush => s.(list := [], left := s.left + Exits(Waiting(s.list), false))
  }

  ghost predicate Inv<M>(s: Sys<M>) {
    MsgsOf(s.left) + Waiting(s.list) == s.accepted &&
    s.asleep !! s.awake &&
    (s.asleep != {} ==> !s.unblocked && |s.list| <= |s.awake|)
  }

  lemma {:induction false} WaitingPushed<M>(item: Item<M>, list: seq<Item<M>>)
    ensures Waiting([item] + list) == Waiting(list) + [item.data]
  {
    if list != [] {
      WaitingPushed(item, list[..|list| - 1]);
      assert ([item] + list)[..|list|] == [item] + list[..|list| - 1];
    }
  }

  lemma SndKeepsInv<M>(s: Sys<M>, item: Item<M>, woken: nat)
    requires Inv(s) && Enabled(s, Step.Snd(item, woken))
    ensures Inv(Do(s, Step.Snd(item, woken)))
  {
    WaitingPushed(item, s.list);
    assert MsgsOf(s.left) + (Waiting(s.list) + [item.data]) == MsgsOf(s.left) + Waiting(s.list) + [item.data];
  }

  lemma TakeKeepsInv<M>(s: Sys<M>, r: nat)
    requires Inv(s) && r !in s.asleep
    ensures Inv(Take(s, r))
  {
    var n := Take(s, r);
    TakeDoes(s, r);
    if s.list != [] {
      TakeShortens(s, r);
    }
    hide Take, Waiting, MsgsOf;
    if s.list != [] {
      var m := Waiting(s.list)[0];
      MsgsOfLast(s.left, Exit(m, true));
      assert MsgsOf(s.left) + [m] + Waiting(n.list) == MsgsOf(s.left) + ([m] + Waiting(n.list));
      assert r in s.awake ==> s.awake == n.awake + {r};
      assert r !in s.awake ==> s.awake == n.awake;
    }
  }

  lemma TakeShortens<M>(s: Sys<M>, r: nat)
    requires s.list != []
    ensures |Take(s, r).list| == |s.list| - 1
  {
  }

  lemma MsgsOfLast<M>(left: seq<Exit<M>>, x: Exit<M>)
    ensures MsgsOf(left + [x]) == MsgsOf(left) + [x.msg]
  {
  }

  lemma FlushKeepsInv<M>(s: Sys<M>)
    requires Inv(s)
    ensures Inv(Do(s, Step.Flush))
  {
    var w := Waiting(s.list);
    assert MsgsOf(s.left + Exits(w, false)) == MsgsOf(s.left) + w;
  }

  lemma StepKeepsInv<M>(s: Sys<M>, step: Step<M>)
    requires Inv(s) && Enabled(s, step)
    ensures Inv(Do(s, step))
    ensures s.unblocked ==> Do(s, step).unblocked && Do(s, step).accepted == s.accepted
  {
    match step
    case Snd(item, woken) => SndKeepsInv(s, item, woken);
    case Rcv(r) => TakeKeepsInv(s, r);
    case Wake(r) => TakeKeepsInv(s, r);
    case Flush => FlushKeepsInv(s);
    case _ =>
  }

  /** A run: every step is enabled when it is taken. */
  ghost predicate IsRun<M>(s: Sys<M>, steps: seq<Step<M>>)
    decreases |steps|
  {
    steps != [] ==> Enabled(s, steps[0]) && IsRun(Do(s, steps[0]), steps[1..])
  }

  ghost function Run<M>(s: Sys<M>, steps: seq<Step<M>>): Sys<M>
    requires IsRun(s, steps)
    decreases |steps|
  {
    if steps == [] then s else Run(Do(s, steps[0]), steps[1..])
  }

  lemma {:induction false} RunKeepsInv<M>(s: Sys<M>, steps: seq<Step<M>>)
    requires Inv(s) && IsRun(s, steps)
    ensures Inv(Run(s, steps))
    ensures s.unblocked ==> Run(s, steps).unblocked && Run(s, steps).accepted == s.accepted
    decreases |steps|
  {
    if steps != [] {
      StepKeepsInv(s, steps[0]);
      RunKeepsInv(Do(s, steps[0]), steps[1..]);
    }
  }

  /** First in, first out, over every interleaving: the messages that left, delivered or
      flushed, followed by those still waiting, are the accepted ones in order.  And no receiver
      sleeps through a message: if one waits while messages are queued, another is awake for
      each of them. */
  lemma FifoOverEveryRun<M>(steps: seq<Step<M>>)
    requires IsRun(Initial<M>(), steps)
    ensures var s := Run(Initial<M>(), steps);
            && MsgsOf(s.left) + Waiting(s.list) == s.accepted
            && (s.asleep != {} && s.list != [] ==> |s.list| <= |s.awake|)
  {
    RunKeepsInv(Initial<M>(), steps);
  }

  /** After unblock nothing more is accepted, no receiver is left asleep, and a final flush
      takes exactly the undelivered rest. */
  lemma UnblockAndFlushEndIt<M>(s: Sys<M>, steps: seq<Step<M>>)
    requires Inv(s) && IsRun(Do(s, Step.Unblock), steps)
    ensures var t := Run(Do(s, Step.Unblock), steps);
            && t.accepted == s.accepted && t.asleep == {}
            && MsgsOf(Do(t, Step.Flush).left) == s.accepted
            && Do(t, Step.Flush).left[..|t.left|] == t.left
            && forall i :: |t.left| <= i < |Do(t, Step.Flush).left| ==> !Do(t, Step.Flush).left[i].delivered
  {
    StepKeepsInv(s, Step.Unblock);
    RunKeepsInv(Do(s, Step.Unblock), steps);
    var t := Run(Do(s, Step.Unblock), steps);
    FlushKeepsInv(t);
    assert Waiting<M>([]) == [];
  }

  // ----- What is accepted -----

  /** What is sent before the queue is unblocked. */
  function SentBeforeUnblock<M>(steps: seq<Step<M>>): seq<M> {
    if steps == [] || steps[0].Unblock? then []
    else (if steps[0].Snd? then [steps[0].item.data] else []) + SentBeforeUnblock(steps[1..])
  }

  lemma AcceptedAtStep<M>(s: Sys<M>, step: Step<M>)
    requires Enabled(s, step)
    ensures var n := Do(s, step);
            && n.accepted == s.accepted + (if step.Snd? && !s.unblocked then [step.item.data] else [])
            && (n.unblocked <==> s.unblocked || step.Unblock?)
  {
  }

  /** Exactly the messages sent before the first unblock are accepted, each of them once and in order. */
  lemma {:induction false} AcceptedIsSent<M>(s: Sys<M>, steps: seq<Step<M>>)
    requires IsRun(s, steps)
    ensures Run(s, steps).accepted == s.accepted + if s.unblocked then [] else SentBeforeUnblock(steps)
    decreases |steps|
  {
    if steps != [] {
      AcceptedAtStep(s, steps[0]);
      AcceptedIsSent(Do(s, steps[0]), steps[1..]);
      hide Do;
      var data := if steps[0].Snd? && !s.unblocked then [steps[0].item.data] else [];
      assert s.accepted + data + SentBeforeUnblock(steps[1..]) == s.accepted + (data + SentBeforeUnblock(steps[1..]));
    }
  }

  // ----- What a receive returns -----

  /** A receiver at the loop guard takes the oldest message if there is one; otherwise it goes to sleep, or, once
      the queue is unblocked, returns without one. */
  lemma TakeDoes<M>(s: Sys<M>, r: nat)
    ensures var n := Take(s, r);
            if s.list != [] then
              var oldest := Waiting(s.list)[0];
              && Waiting(s.list) == [oldest] + Waiting(n.list)
              && n == s.(list := n.list, awake := s.awake - {r}, left := s.left + [Exit(oldest, true)],
                         returned := s.returned + [Return(r, MSG_SUCCESS, Some(oldest))])
            else if s.unblocked then
              n == s.(awake := s.awake - {r}, returned := s.returned + [Return(r, MSG_UNAVAILABLE_RESOURCE, None)])
            else
              n == s.(asleep := s.asleep + {r}, awake := s.awake - {r})
  {
  }

  /** A send wakes the waiter that it signals, a spurious wakeup the one it happens to, unblock all of them; they stay
      inside their receive. */
  lemma WakeupsDo<M>(s: Sys<M>, step: Step<M>)
    requires Inv(s) && Enabled(s, step) && (step.Snd? || step.SpuriousWakeup? || step.Unblock?)
    ensures var n := Do(s, step);
            var woken := if step.Unblock? then s.asleep
                         else if step.SpuriousWakeup? then {step.r}
                         else if s.asleep == {} then {} else {step.woken};
            n.asleep == s.asleep - woken && n.awake == s.awake + woken && n.returned == s.returned
  {
    hide MsgsOf, Waiting;
  }

  /** A receiver that unblock has woken returns when it gets the mutex: with the oldest message as long as there
      are any, and without one after that. */
  lemma WokenReturns<M>(s: Sys<M>, r: nat)
    requires Inv(s) && s.unblocked && r in s.awake
    ensures var n := Do(s, Step.Wake(r));
            && r !in n.awake && r !in n.asleep
            && n.returned == s.returned + [if s.list == [] then Return(r, MSG_UNAVAILABLE_RESOURCE, None)
                                           else Return(r, MSG_SUCCESS, Some(Waiting(s.list)[0]))]
  {
    TakeDoes(s, r);
  }

  function Delivered<M>(left: seq<Exit<M>>): seq<M> {
    if left == [] then []
    else Delivered(left[..|left| - 1]) + if left[|left| - 1].delivered then [left[|left| - 1].msg] else []
  }

  function Received<M>(returned: seq<Return<M>>): seq<M> {
    if returned == [] then []
    else
      var last := returned[|returned| - 1];
      Received(returned[..|returned| - 1]) + if last.msg.Some? then [last.msg.value] else []
  }

  predicate ReturnOk<M>(x: Return<M>, unblocked: bool) {
    if x.msg.Some? then x.err.MSG_SUCCESS? else x.err.MSG_UNAVAILABLE_RESOURCE? && unblocked
  }

  ghost predicate ReturnsInv<M>(s: Sys<M>) {
    Received(s.returned) == Delivered(s.left) && forall x :: x in s.returned ==> ReturnOk(x, s.unblocked)
  }

  lemma DeliveredLast<M>(left: seq<Exit<M>>, x: Exit<M>)
    ensures Delivered(left + [x]) == Delivered(left) + if x.delivered then [x.msg] else []
  {
    assert (left + [x])[..|left|] == left;
  }

  lemma ReceivedLast<M>(returned: seq<Return<M>>, x: Return<M>)
    ensures Received(returned + [x]) == Received(returned) + if x.msg.Some? then [x.msg.value] else []
  {
    assert (returned + [x])[..|returned|] == returned;
  }

  lemma {:induction false} FlushedIsNotDelivered<M>(left: seq<Exit<M>>, msgs: seq<M>)
    ensures Delivered(left + Exits(msgs, false)) == Delivered(left)
  {
    if msgs == [] {
      assert left + Exits(msgs, false) == left;
    } else {
      var front, last := msgs[..|msgs| - 1], msgs[|msgs| - 1];
      FlushedIsNotDelivered(left, front);
      assert left + Exits(msgs, false) == (left + Exits(front, false)) + [Exit(last, false)];
      DeliveredLast(left + Exits(front, false), Exit(last, false));
    }
  }

  lemma TakeKeepsReturns<M>(s: Sys<M>, r: nat)
    requires ReturnsInv(s)
    ensures ReturnsInv(Take(s, r))
  {
    TakeDoes(s, r);
    hide Take, Waiting, Delivered, Received;
    if s.list != [] {
      var oldest := Waiting(s.list)[0];
      DeliveredLast(s.left, Exit(oldest, true));
      ReceivedLast(s.returned, Return(r, MSG_SUCCESS, Some(oldest)));
    } else {
      ReceivedLast(s.returned, Return(r, MSG_UNAVAILABLE_RESOURCE, None));
    }
  }

  lemma StepKeepsReturns<M>(s: Sys<M>, step: Step<M>)
    requires ReturnsInv(s) && Enabled(s, step)
    ensures ReturnsInv(Do(s, step))
  {
    hide Delivered, Received, Take;
    match step
    case Rcv(r) =>
      TakeKeepsReturns(s, r);
      ReceivedLast(s.returned, Return(r, MSG_UNAVAILABLE_RESOURCE, None));
    case Wake(r) => TakeKeepsReturns(s, r);
    case Flush => FlushedIsNotDelivered(s.left, Waiting(s.list));
    case _ =>
  }

  // ----- Which receives return -----

  function CallsOf<M>(steps: seq<Step<M>>, r: nat): nat {
    if steps == [] then 0 else (if steps[0].Rcv? && steps[0].r == r then 1 else 0) + CallsOf(steps[1..], r)
  }

  function ReturnsOf<M>(returned: seq<Return<M>>, r: nat): nat {
    if returned == [] then 0
    else ReturnsOf(returned[..|returned| - 1], r) + if returned[|returned| - 1].r == r then 1 else 0
  }

  /** Is r in a receive that has not returned? */
  function Inside<M>(s: Sys<M>, r: nat): nat {
    if r in s.asleep || r in s.awake then 1 else 0
  }

  lemma ReturnsLast<M>(returned: seq<Return<M>>, x: Return<M>, r: nat)
    ensures ReturnsOf(returned + [x], r) == ReturnsOf(returned, r) + if x.r == r then 1 else 0
  {
    assert (returned + [x])[..|returned|] == returned;
  }

  lemma TakeReturnsOrWaits<M>(s: Sys<M>, t: nat, r: nat)
    requires t !in s.asleep
    ensures ReturnsOf(Take(s, t).returned, r) + Inside(Take(s, t), r)
         == ReturnsOf(s.returned, r) + if r == t then 1 else Inside(s, r)
  {
    TakeDoes(s, t);
    hide Take, Waiting, ReturnsOf;
    if s.list != [] {
      ReturnsLast(s.returned, Return(t, MSG_SUCCESS, Some(Waiting(s.list)[0])), r);
    } else {
      ReturnsLast(s.returned, Return(t, MSG_UNAVAILABLE_RESOURCE, None), r);
    }
  }

  lemma StepAccounts<M>(s: Sys<M>, step: Step<M>, r: nat)
    requires Inv(s) && Enabled(s, step)
    ensures ReturnsOf(Do(s, step).returned, r) + Inside(Do(s, step), r)
         == ReturnsOf(s.returned, r) + Inside(s, r) + if step.Rcv? && step.r == r then 1 else 0
  {
    hide ReturnsOf, Take, Waiting, MsgsOf;
    match step
    case Rcv(t) =>
      TakeReturnsOrWaits(s, t, r);
      ReturnsLast(s.returned, Return(t, MSG_UNAVAILABLE_RESOURCE, None), r);
    case Wake(t) => TakeReturnsOrWaits(s, t, r);
    case _ =>
  }

  lemma {:induction false} RunAccounts<M>(s: Sys<M>, steps: seq<Step<M>>, r: nat)
    requires Inv(s) && ReturnsInv(s) && IsRun(s, steps)
    ensures ReturnsInv(Run(s, steps))
    ensures ReturnsOf(Run(s, steps).returned, r) + Inside(Run(s, steps), r)
         == ReturnsOf(s.returned, r) + Inside(s, r) + CallsOf(steps, r)
    decreases |steps|
  {
    hide Inv, ReturnsInv, ReturnsOf, Inside, Do, Enabled;
    if steps != [] {
      StepKeepsInv(s, steps[0]);
      StepKeepsReturns(s, steps[0]);
      StepAccounts(s, steps[0], r);
      RunAccounts(Do(s, steps[0]), steps[1..], r);
    }
  }

  lemma InitialAccounts<M>(r: nat)
    ensures Inv(Initial<M>()) && ReturnsInv(Initial<M>()) && Inside(Initial<M>(), r) == 0 && ReturnsOf(Initial<M>().returned, r) == 0
  {
  }

  /** Every receive returns once or is still waiting; those that return with a message return the delivered messages
      in order, and those that return without one do so because the queue is unblocked. */
  lemma ReceivesOverEveryRun<M>(steps: seq<Step<M>>, r: nat)
    requires IsRun(Initial<M>(), steps)
    ensures var s := Run(Initial<M>(), steps);
            && CallsOf(steps, r) == ReturnsOf(s.returned, r) + Inside(s, r)
            && Received(s.returned) == Delivered(s.left)
            && (forall x :: x in s.returned ==> ReturnOk(x, s.unblocked))
  {
    hide Inv, ReturnsOf, Inside, Initial, Run, IsRun, Received, Delivered;
    InitialAccounts<M>(r);
    RunAccounts(Initial<M>(), steps, r);
  }
}
