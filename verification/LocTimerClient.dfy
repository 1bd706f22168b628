/** The client's side of gps/utils/LocTimer.cpp as objects: LocTimer, and the delegate it hands to
    the message task. Each method is one critical section, undisturbed; LocTimer.dfy interleaves them. */
module LocTimerClient {
  import opened Wrappers
  import opened LinkedListClass
  import opened MsgQueue
  import T = LocTimer

  /** What is sent to the message task of a container. */
  datatype TimerMsg = MsgTimerPush(timer: LocTimerDelegate) | MsgTimerRemove(timer: LocTimerDelegate) | MsgTimerExpire

  /** The queue's items after m was sent: an unblocked queue takes nothing more. */
  ghost function Sent(queue: MsgQ<TimerMsg>, m: TimerMsg, before: seq<Item<TimerMsg>>): seq<Item<TimerMsg>>
    reads queue
  {
    (if queue.unblocked then [] else [Item(m, true)]) + before
  }

  class LocTimerDelegate {
    var mClient: LocTimer?
    /** The message queue of mContainer. */
    var mContainer: MsgQ?<TimerMsg>
    const mFutureTime: T.Time

    constructor (client: LocTimer, futureTime: T.Time, container: MsgQ<TimerMsg>)
      requires container.Valid()
      modifies MsgQ<TimerMsg>.Footprint(container)
      ensures mClient == client && mContainer == container && mFutureTime == futureTime
      ensures container.Valid() && container.unblocked == old(container.unblocked)
      ensures container.list.Items() == Sent(container, MsgTimerPush(this), old(container.list.Items()))
      ensures fresh(MsgQ<TimerMsg>.Footprint(container) - old(MsgQ<TimerMsg>.Footprint(container)))
    {
      mClient, mContainer, mFutureTime := client, container, futureTime;
      new;
      var err := MsgQ<TimerMsg>.Snd(container, Some(MsgTimerPush(this)), true);
    }

    /** The client is forgotten, and the remove message is sent the first time only. */
    method DestroyLocked()
      requires mContainer != null ==> mContainer.Valid()
      modifies `mClient, `mContainer, MsgQ<TimerMsg>.Footprint(mContainer)
      ensures mClient == null && mContainer == null
      ensures var c := old(mContainer);
              c != null ==>
                && c.Valid() && c.unblocked == old(c.unblocked)
                && c.list.Items() == Sent(c, MsgTimerRemove(this), old(c.list.Items()))
    {
      mClient := null;
      if mContainer != null {
        var container := mContainer;
        mContainer := null;
        var err := MsgQ<TimerMsg>.Snd(container, Some(MsgTimerRemove(this)), true);
      }
    }

    /** The callback is called only if the client had a timer to stop, which need not be this one:
        a client that has started again since mClient was read loses its new timer. */
    method Expire()
      requires mClient != null && mClient.mTimer != null && mClient.mTimer.mContainer != null ==>
                 mClient.mTimer.mContainer.Valid()
      modifies if mClient == null then {} else mClient.StopFootprint()
      ensures var client := old(mClient);
              client != null ==>
                && client.mTimer == null
                && client.calledBack == old(client.calledBack) + (if old(client.mTimer) != null then 1 else 0)
                && (old(client.mTimer) != null ==>
                      var d, c := old(client.mTimer), old(client.mTimer.mContainer);
                      && d.mClient == null && d.mContainer == null
                      && (c != null ==> c.Valid() && c.list.Items() == Sent(c, MsgTimerRemove(d), old(c.list.Items()))))
    {
      var client := mClient;
      if client != null {
        var stopped := client.Stop();
        if stopped {
          client.calledBack := client.calledBack + 1;
        }
      }
    }
  }

  class LocTimer {
    var mTimer: LocTimerDelegate?
    /** How often timeOutCallback was called. */
    var calledBack: nat

    constructor ()
      ensures mTimer == null && calledBack == 0
    {
      mTimer, calledBack := null, 0;
    }

    method Start(now: T.Time, timeOutInMs: nat, container: MsgQ<TimerMsg>) returns (success: bool)
      requires container.Valid()
      modifies `mTimer, MsgQ<TimerMsg>.Footprint(container)
      ensures container.Valid() && container.unblocked == old(container.unblocked)
      ensures success <==> old(mTimer) == null
      ensures if success then
                && mTimer != null && fresh(mTimer) && mTimer.mClient == this && mTimer.mContainer == container
                && mTimer.mFutureTime == T.FutureTime(now, timeOutInMs)
                && container.list.Items() == Sent(container, MsgTimerPush(mTimer), old(container.list.Items()))
              else
                mTimer == old(mTimer) && container.list.Items() == old(container.list.Items())
    {
      success := false;
      if mTimer == null {
        var sec, nsec := now.sec, now.nsec;
        sec := sec + timeOutInMs / 1000;
        nsec := nsec + timeOutInMs % 1000 * 1_000_000;
        if nsec >= T.NSEC_PER_SEC {
          sec := sec + nsec / T.NSEC_PER_SEC;
          nsec := nsec % T.NSEC_PER_SEC;
        }
        mTimer := new LocTimerDelegate(this, T.Time(sec, nsec), container);
        success := mTimer != null;
      }
    }

    method Stop() returns (success: bool)
      requires mTimer != null && mTimer.mContainer != null ==> mTimer.mContainer.Valid()
      modifies `mTimer, StopFootprint()
      ensures success <==> old(mTimer) != null
      ensures mTimer == null && calledBack == old(calledBack)
      ensures old(mTimer) != null ==>
                var d, c := old(mTimer), old(mTimer.mContainer);
                && d.mClient == null && d.mContainer == null
                && (c != null ==> c.Valid() && c.list.Items() == Sent(c, MsgTimerRemove(d), old(c.list.Items())))
    {
      success := false;
      if mTimer != null {
        var timer := mTimer;
        mTimer := null;
        timer.DestroyLocked();
        success := true;
      }
    }

    ghost function StopFootprint(): set<object>
      reads this, mTimer, if mTimer == null || mTimer.mContainer == null then {} else {mTimer.mContainer, mTimer.mContainer.list}
    {
      {this} + if mTimer == null then {} else {mTimer} + MsgQ<TimerMsg>.Footprint(mTimer.mContainer)
    }
  }
}
