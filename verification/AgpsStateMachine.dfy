/** The AgpsStateMachine class of loc_eng_agps.cpp with its loops over the subscriber list,
    proved to do to its fields what Agps.Next does to a Machine. */
module AgpsStateMachineClass {
  import opened Wrappers
  import opened Agps
  import opened AgpsEffects
  import L = LinkedListClass

  // ----- The subscribers as the linked list of linked_list.c -----

  /** addSubscriber gives every element a deallocator. */
  function ItemsOf(subs: seq<Clone>): (items: seq<L.Item<Clone>>)
    ensures |items| == |subs|
  {
    seq(|subs|, i requires 0 <= i < |subs| => L.Item(subs[i], true))
  }

  /** The comparison that a search for rcver hands to linked_list_search. */
  function Matches(rcver: Receiver): Clone -> bool {
    (c: Clone) => ForMe(c.sub, rcver)
  }

  /** The list operations on the subscribers are those that LinkedList is proved to carry out: an element is
      added at the head, the first match is found, and exactly it is taken out. */
  lemma SubscribersAreTheLinkedList(subs: seq<Clone>, c: Clone, rcver: Receiver, i: nat)
    requires i <= |subs| && (i < |subs| ==> ForMe(subs[i].sub, rcver))
    requires forall k :: 0 <= k < i ==> !ForMe(subs[k].sub, rcver)
    ensures ItemsOf([c] + subs) == [L.Item(c, true)] + ItemsOf(subs)
    ensures L.FirstMatch(ItemsOf(subs), Matches(rcver)) == i
    ensures i < |subs| ==> ItemsOf(L.Without(subs, i)) == L.Without(ItemsOf(subs), i)
  {
    hide ForMe;
    var j := L.FirstMatch(ItemsOf(subs), Matches(rcver));
    forall k | 0 <= k < |subs|
      ensures Matches(rcver)(ItemsOf(subs)[k].data) == ForMe(subs[k].sub, rcver)
    {
    }
    assert j == i;
  }

  lemma {:induction false} FirstHitSplits(subs: seq<Clone>, rcver: Receiver, i: nat)
    requires i < |subs| && ForMe(subs[i].sub, rcver)
    requires forall k :: 0 <= k < i ==> !ForMe(subs[k].sub, rcver)
    ensures Hits(subs, rcver) == [subs[i]] + Hits(subs[..i] + subs[i + 1..], rcver)
    ensures Misses(subs, rcver) == Misses(subs[..i] + subs[i + 1..], rcver)
  {
    if i == 0 {
      assert subs[..0] + subs[1..] == subs[1..];
    } else {
      FirstHitSplits(subs[1..], rcver, i - 1);
      var rest := subs[..i] + subs[i + 1..];
      assert rest[1..] == subs[1..][..i - 1] + subs[1..][i..];
    }
  }

  /** Notifying and removing the first match leaves the rest of the work to do. */
  lemma NotifyStep(m: Machine, rcver: Receiver, status: Status, i: nat)
    requires i < |m.subs| && ForMe(m.subs[i].sub, rcver)
    requires forall k :: 0 <= k < i ==> !ForMe(m.subs[k].sub, rcver)
    ensures var c := m.subs[i];
            var n := m.(delivered := m.delivered + [Delivery(Some(c.tag), c.sub, status)],
                        subs := m.subs[..i] + m.subs[i + 1..]);
            Notify(n, rcver, status, true) == Notify(m, rcver, status, true)
  {
    FirstHitSplits(m.subs, rcver, i);
    var c := m.subs[i];
    var rest := Hits(m.subs[..i] + m.subs[i + 1..], rcver);
    DeliveriesCons(m.delivered, c, rest, status);
  }

  lemma DeliveriesCons(before: seq<Delivery>, c: Clone, rest: seq<Clone>, status: Status)
    ensures before + Deliveries([c] + rest, status)
         == before + [Delivery(Some(c.tag), c.sub, status)] + Deliveries(rest, status)
  {
  }

  lemma NotifyDone(m: Machine, rcver: Receiver, status: Status)
    requires forall k :: 0 <= k < |m.subs| ==> !ForMe(m.subs[k].sub, rcver)
    ensures Notify(m, rcver, status, true) == m
  {
    NoHits(m.subs, rcver);
  }

  lemma NoneHitYet(subs: seq<Clone>, rcver: Receiver)
    ensures Hits(subs[..0], rcver) == []
  {
  }

  lemma HitsExtend(subs: seq<Clone>, rcver: Receiver, i: nat)
    requires i < |subs|
    ensures Hits(subs[..i + 1], rcver)
         == Hits(subs[..i], rcver) + if ForMe(subs[i].sub, rcver) then [subs[i]] else []
  {
    HitsLast(subs[..i], rcver, subs[i]);
    assert subs[..i + 1] == subs[..i] + [subs[i]];
  }

  class AgpsStateMachine {
    const mEnforceSingleSubscriber: bool
    var mState: State
    var mSubscribers: seq<Clone>
    var cloned: nat
    var sent: seq<Request>
    var delivered: seq<Delivery>
    ghost var dropped: set<nat>

    ghost function View(): Machine
      reads this
    {
      Machine(mEnforceSingleSubscriber, mState, mSubscribers, cloned, dropped, sent, delivered)
    }

    constructor (enforceSingleSubscriber: bool)
      ensures View() == Initial(enforceSingleSubscriber)
    {
      mEnforceSingleSubscriber := enforceSingleSubscriber;
      mState, mSubscribers, cloned, sent, delivered, dropped := ReleasedState, [], 0, [], [], {};
    }

    /** linked_list_search with hasSubscriber or notifySubscriber: the first element that the
        notification is for, or the end of the list. */
    method Search(rcver: Receiver) returns (i: nat)
      ensures i <= |mSubscribers|
      ensures forall k :: 0 <= k < i ==> !ForMe(mSubscribers[k].sub, rcver)
      ensures i < |mSubscribers| ==> ForMe(mSubscribers[i].sub, rcver)
      ensures i == L.FirstMatch(ItemsOf(mSubscribers), Matches(rcver))
    {
      i := 0;
      while i < |mSubscribers| && !ForMe(mSubscribers[i].sub, rcver)
        invariant i <= |mSubscribers|
        invariant forall k :: 0 <= k < i ==> !ForMe(mSubscribers[k].sub, rcver)
      {
        i := i + 1;
      }
      SubscribersAreTheLinkedList(mSubscribers, Clone(0, Subscriber(BIT, 0, [], false)), rcver, i);
    }

    method NotifySubscribers(rcver: Receiver, status: Status, postNotifyDelete: bool)
      modifies this
      ensures View() == Notify(old(View()), rcver, status, postNotifyDelete)
    {
      if postNotifyDelete {
        NotifyAndDelete(rcver, status);
      } else {
        hide Hits, ForMe;
        var i := 0;
        NoneHitYet(mSubscribers, rcver);
        while i < |mSubscribers|
          invariant 0 <= i <= |mSubscribers|
          invariant View() == old(View()).(delivered := delivered)
          invariant delivered == old(delivered) + Deliveries(Hits(mSubscribers[..i], rcver), status)
        {
          HitsExtend(mSubscribers, rcver, i);
          if ForMe(mSubscribers[i].sub, rcver) {
            delivered := delivered + [Delivery(Some(mSubscribers[i].tag), mSubscribers[i].sub, status)];
          }
          i := i + 1;
        }
        assert mSubscribers[..i] == mSubscribers;
      }
    }

    /** The notify-and-delete loop: each search stops at the first match, so it is repeated
        from the head until nothing matches. */
    method NotifyAndDelete(rcver: Receiver, status: Status)
      modifies this
      ensures View() == Notify(old(View()), rcver, status, true)
    {
      var more := true;
      while more
        invariant Notify(View(), rcver, status, true) == Notify(old(View()), rcver, status, true)
        invariant !more ==> View() == Notify(View(), rcver, status, true)
        decreases |mSubscribers|, more
      {
        var i := Search(rcver);
        more := i < |mSubscribers|;
        if more {
          NotifyStep(View(), rcver, status, i);
          var c := mSubscribers[i];
          delivered := delivered + [Delivery(Some(c.tag), c.sub, status)];
          mSubscribers := L.Without(mSubscribers, i);
        } else {
          NotifyDone(View(), rcver, status);
        }
      }
    }

    method Add(s: Subscriber)
      modifies this
      ensures View() == AddSubscriber(old(View()), s)
    {
      var i := Search(One(s));
      LookupIsFirst(mSubscribers, s, i);
      if i == |mSubscribers| {
        mSubscribers := [Clone(cloned, s.(inactive := false))] + mSubscribers;
        cloned := cloned + 1;
      }
    }

    method HasActiveSubscribers() returns (r: bool)
      ensures r == HasActive(mSubscribers)
    {
      var i := Search(Active);
      r := i < |mSubscribers|;
    }

    method SendRsrcRequest(action: Request)
      modifies this
      ensures View() == SendRequest(old(View()), action)
      ensures var active := exists i :: 0 <= i < |mSubscribers| && !mSubscribers[i].sub.inactive;
              View() == old(View()).(sent := old(sent) + if active == action.REQUEST? then [action] else [])
    {
      var active := HasActiveSubscribers();
      if !active == action.RELEASE? {
        sent := sent + [action];
      }
    }

    /** What Pending, Acquired and Releasing do with a subscriber that unsubscribes. */
    method LetGo(c: Clone)
      modifies this
      ensures View() == Leave(old(View()), c)
    {
      if c.sub.WaitForCloseComplete() {
        mSubscribers := SetInactive(mSubscribers, c.tag);
      } else {
        NotifySubscribers(One(c.sub), Unsubscribed, true);
      }
    }

    method SubscribeRsrc(s: Subscriber)
      modifies this
      ensures View() == Next(old(View()), Event.SubscribeRsrc(s))
    {
      if mEnforceSingleSubscriber && mSubscribers != [] {
        delivered := delivered + [Delivery(None, s, Denied)];
      } else {
        match mState
        case ReleasedState =>
          Add(s);
          SendRsrcRequest(REQUEST);
          mState := PendingState;
        case PendingState =>
          Add(s);
        case AcquiredState =>
          delivered := delivered + [Delivery(None, s, Granted)];
          Add(s);
        case ReleasingState =>
          Add(s);
      }
    }

    method UnsubscribeRsrc(s: Subscriber) returns (found: bool)
      modifies this
      ensures View() == Next(old(View()), Event.UnsubscribeRsrc(s))
      ensures found == Lookup(old(mSubscribers), s).Some?
    {
      var i := Search(One(s));
      LookupIsFirst(mSubscribers, s, i);
      found := i < |mSubscribers|;
      if found {
        var c := mSubscribers[i];
        match mState
        case ReleasedState =>
          delivered := delivered + [Delivery(Some(c.tag), c.sub, Unsubscribed)];
        case ReleasingState =>
          LetGo(c);
          if mSubscribers == [] {
            mState := ReleasedState;
          }
        case _ =>
          LetGo(c);
          var active := HasActiveSubscribers();
          if mSubscribers == [] {
            mState := ReleasedState;
            SendRsrcRequest(RELEASE);
          } else if !active {
            mState := ReleasingState;
            SendRsrcRequest(RELEASE);
          }
      }
    }

    /** The Releasing state, lines 550-568. */
    method CloseComplete(status: Status)
      modifies this
      ensures View() == OnClosed(old(View()), status)
    {
      NotifySubscribers(Inactive, status, true);
      var active := HasActiveSubscribers();
      if active {
        mState := PendingState;
        SendRsrcRequest(REQUEST);
      } else {
        mState := ReleasedState;
      }
    }

    method OnGranted()
      modifies this
      ensures View() == Next(old(View()), RsrcGranted)
    {
      if mState.PendingState? {
        NotifySubscribers(Active, Granted, false);
        mState := AcquiredState;
      }
    }

    method OnReleased()
      modifies this
      ensures View() == Next(old(View()), RsrcReleased)
    {
      if mState.AcquiredState? {
        NotifySubscribers(All, Released, true);
        mState := ReleasedState;
      } else if mState.ReleasingState? {
        CloseComplete(Released);
      }
    }

    method OnDenied()
      modifies this
      ensures View() == Next(old(View()), RsrcDenied)
    {
      if mState.PendingState? {
        NotifySubscribers(All, Denied, true);
        mState := ReleasedState;
      } else if mState.ReleasingState? {
        CloseComplete(Denied);
      }
    }

    method DropAllSubscribers()
      modifies this
      ensures View() == Next(old(View()), Event.DropAllSubscribers)
    {
      dropped := dropped + Tags(mSubscribers);
      mSubscribers := [];
    }
  }
}
