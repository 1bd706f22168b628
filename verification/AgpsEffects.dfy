/** What each event does to the list, to the state and to what the subscribers are told, said of the list's
    elements by their positions. */
module AgpsEffects {
  import opened Wrappers
  import opened Selections
  import opened Agps
  import opened AgpsRuns

  // ----- Who is equal to whom -----

  /** A subscriber is known by its IPv4 address, or by its IPv6 address if it is a BIT one that has none. */
  datatype Address = V4(id: int) | V6(bytes: seq<int>)

  function AddressOf(s: Subscriber): Address {
    if s.kind.BIT? && s.id == INADDR_NONE then V6(s.v6) else V4(s.id)
  }

  lemma EqualsIsSameAddress(a: Subscriber, b: Subscriber)
    requires !a.Overreads(b) && !b.Overreads(a)
    ensures a.Equals(b) <==> AddressOf(a) == AddressOf(b)
  {
  }

  // ----- Notifications -----

  predicate Anyone(c: Clone) {
    true
  }

  predicate IsActive(c: Clone) {
    !c.sub.inactive
  }

  predicate IsInactive(c: Clone) {
    c.sub.inactive
  }

  function Itself(c: Clone): Clone {
    c
  }

  /** Exactly the wanted elements are told the status, once each and in the order of the list. */
  ghost predicate AreTold(subs: seq<Clone>, wanted: Clone -> bool, status: Status, told: seq<Delivery>) {
    Selects(subs, told, wanted, (c: Clone) => Delivery(Some(c.tag), c.sub, status))
  }

  /** Exactly the wanted elements stay, in their order. */
  ghost predicate AreLeft(subs: seq<Clone>, wanted: Clone -> bool, left: seq<Clone>) {
    Selects(subs, left, wanted, Itself)
  }

  lemma {:induction false} HitsLast(subs: seq<Clone>, rcver: Receiver, c: Clone)
    ensures Hits(subs + [c], rcver) == Hits(subs, rcver) + if ForMe(c.sub, rcver) then [c] else []
  {
    hide ForMe;
    if subs == [] {
      assert subs + [c] == [c] && [c][1..] == [];
    } else {
      HitsLast(subs[1..], rcver, c);
      assert (subs + [c])[1..] == subs[1..] + [c];
    }
  }

  lemma {:induction false} MissesLast(subs: seq<Clone>, rcver: Receiver, c: Clone)
    ensures Misses(subs + [c], rcver) == Misses(subs, rcver) + if ForMe(c.sub, rcver) then [] else [c]
  {
    hide ForMe;
    if subs == [] {
      assert subs + [c] == [c] && [c][1..] == [];
    } else {
      MissesLast(subs[1..], rcver, c);
      assert (subs + [c])[1..] == subs[1..] + [c];
    }
  }

  lemma {:induction false} HitsAreTold(subs: seq<Clone>, rcver: Receiver, status: Status, wanted: Clone -> bool)
    requires forall c :: wanted(c) <==> ForMe(c.sub, rcver)
    ensures AreTold(subs, wanted, status, Deliveries(Hits(subs, rcver), status))
  {
    hide Selects, ForMe;
    var tell := (c: Clone) => Delivery(Some(c.tag), c.sub, status);
    if subs == [] {
      SelectsNothing(wanted, tell);
      assert Deliveries(Hits([], rcver), status) == [];
    } else {
      var front, last := subs[..|subs| - 1], subs[|subs| - 1];
      HitsAreTold(front, rcver, status, wanted);
      HitsLast(front, rcver, last);
      assert subs == front + [last];
      SelectsLast(front, Deliveries(Hits(front, rcver), status), wanted, tell, last);
      assert Deliveries(Hits(subs, rcver), status)
          == Deliveries(Hits(front, rcver), status) + if wanted(last) then [tell(last)] else [];
    }
  }

  lemma {:induction false} MissesAreLeft(subs: seq<Clone>, rcver: Receiver, wanted: Clone -> bool)
    requires forall c :: wanted(c) <==> !ForMe(c.sub, rcver)
    ensures AreLeft(subs, wanted, Misses(subs, rcver))
  {
    hide Selects, ForMe;
    if subs == [] {
      SelectsNothing(wanted, Itself);
    } else {
      var front, last := subs[..|subs| - 1], subs[|subs| - 1];
      MissesAreLeft(front, rcver, wanted);
      MissesLast(front, rcver, last);
      assert subs == front + [last];
      SelectsLast(front, Misses(front, rcver), wanted, Itself, last);
    }
  }

  // ----- The events -----

  predicate Lists(subs: seq<Clone>, s: Subscriber) {
    exists i :: 0 <= i < |subs| && subs[i].sub.Equals(s)
  }

  /** A subscriber that is not refused is in the list afterwards: at its head as a clone that is active, unless
      an equal one is listed. It is told at once what can be told: that it is refused, or that the resource
      is there. */
  lemma SubscribeDoes(m: Machine, s: Subscriber)
    ensures var n := Next(m, SubscribeRsrc(s));
            var refused := m.single && m.subs != [];
            var added := !refused && !Lists(m.subs, s);
            n == m.(state := if m.state.ReleasedState? && !refused then PendingState else m.state,
                    subs := (if added then [Clone(m.cloned, s.(inactive := false))] else []) + m.subs,
                    cloned := m.cloned + if added then 1 else 0,
                    sent := n.sent,
                    delivered := m.delivered + if refused then [Delivery(None, s, Denied)]
                                               else if m.state.AcquiredState? then [Delivery(None, s, Granted)] else [])
  {
    LookupLists(m.subs, s);
    hide Lookup, Lists, HasActive;
  }

  lemma LookupLists(subs: seq<Clone>, s: Subscriber)
    ensures Lookup(subs, s).Some? <==> Lists(subs, s)
  {
    hide Lookup;
    LookupProps(subs, s);
    if Lookup(subs, s).Some? {
      var i :| 0 <= i < |subs| && subs[i] == Lookup(subs, s).value;
      assert subs[i].sub.Equals(s);
    } else {
      assert forall i :: 0 <= i < |subs| ==> subs[i] in subs;
    }
  }

  /** The first equal subscriber takes its leave: a WIFI one goes inactive and is told nothing yet, any other is
      told that it is unsubscribed and taken out. With the last one gone the machine is Released; with the last
      active one gone it is Releasing. In the Released state it is told and nothing else happens. */
  lemma UnsubscribeDoes(m: Machine, s: Subscriber, i: nat)
    requires ListInv(m.subs) && i <= |m.subs| && (i < |m.subs| ==> m.subs[i].sub.Equals(s))
    requires forall k :: 0 <= k < i ==> !m.subs[k].sub.Equals(s)
    ensures var n := Next(m, UnsubscribeRsrc(s));
            if i == |m.subs| then n == m
            else
              var c := m.subs[i];
              var waits := !m.state.ReleasedState? && c.sub.kind.WIFI?;
              n == m.(state := if m.state.ReleasedState? || n.subs == [] then ReleasedState
                               else if !HasActive(n.subs) then ReleasingState
                               else m.state,
                      subs := if m.state.ReleasedState? then m.subs
                              else if waits then m.subs[i := Clone(c.tag, c.sub.(inactive := true))]
                              else m.subs[..i] + m.subs[i + 1..],
                      sent := n.sent,
                      delivered := m.delivered + if waits then [] else [Delivery(Some(c.tag), c.sub, Unsubscribed)])
  {
    LookupIsFirst(m.subs, s, i);
    if i < |m.subs| {
      LeaveDoes(m, i);
      UnsubscribeFollows(m, m.subs[i]);
    }
    hide ListInv, Leave, Lookup, OnUnsubscribe, HasActive;
  }

  lemma UnsubscribeFollows(m: Machine, c: Clone)
    ensures var n, l := OnUnsubscribe(m, c), Leave(m, c);
            if m.state.ReleasedState? then
              n == m.(delivered := m.delivered + [Delivery(Some(c.tag), c.sub, Unsubscribed)])
            else
              n == l.(state := if l.subs == [] then ReleasedState
                               else if !HasActive(l.subs) then ReleasingState else m.state, sent := n.sent)
  {
    assert Leave(m, c).state == m.state;
    hide Leave, HasActive;
  }

  lemma LeaveDoes(m: Machine, i: nat)
    requires ListInv(m.subs) && i < |m.subs|
    ensures var c := m.subs[i];
            Leave(m, c) ==
            if c.sub.kind.WIFI? then m.(subs := m.subs[i := Clone(c.tag, c.sub.(inactive := true))])
            else m.(subs := m.subs[..i] + m.subs[i + 1..], delivered := m.delivered + [Delivery(Some(c.tag), c.sub, Unsubscribed)])
  {
    hide ListInv, SetInactive, Misses, Hits;
    OnlyOneLeaves(m.subs, i);
    assert Deliveries([m.subs[i]], Unsubscribed) == [Delivery(Some(m.subs[i].tag), m.subs[i].sub, Unsubscribed)];
  }

  lemma {:induction false} LookupIsFirst(subs: seq<Clone>, s: Subscriber, i: nat)
    requires i <= |subs| && forall k :: 0 <= k < i ==> !subs[k].sub.Equals(s)
    requires i < |subs| ==> subs[i].sub.Equals(s)
    ensures Lookup(subs, s) == if i < |subs| then Some(subs[i]) else None
  {
    if i > 0 {
      LookupIsFirst(subs[1..], s, i - 1);
    }
  }

  lemma OnlyOneLeaves(subs: seq<Clone>, i: nat)
    requires ListInv(subs) && i < |subs|
    ensures SetInactive(subs, subs[i].tag) == subs[i := Clone(subs[i].tag, subs[i].sub.(inactive := true))]
    ensures Misses(subs, One(subs[i].sub)) == subs[..i] + subs[i + 1..]
    ensures Hits(subs, One(subs[i].sub)) == [subs[i]]
  {
    forall k | 0 <= k < |subs| && k != i
      ensures Apart(subs[i], subs[k]) || Apart(subs[k], subs[i])
    {
      assert if i < k then Apart(subs[i], subs[k]) else Apart(subs[k], subs[i]);
    }
    hide ListInv, CloneOk;
    OneHit(subs, One(subs[i].sub), i);
  }

  lemma {:induction false} OneHit(subs: seq<Clone>, rcver: Receiver, i: nat)
    requires i < |subs| && forall k :: 0 <= k < |subs| ==> (ForMe(subs[k].sub, rcver) <==> k == i)
    ensures Hits(subs, rcver) == [subs[i]] && Misses(subs, rcver) == subs[..i] + subs[i + 1..]
  {
    hide ForMe;
    if i > 0 {
      assert forall k :: 0 <= k < |subs| - 1 ==> subs[1..][k] == subs[k + 1];
      OneHit(subs[1..], rcver, i - 1);
      assert [subs[0]] + subs[1..][..i - 1] == subs[..i];
    } else {
      NoHits(subs[1..], rcver);
    }
  }

  lemma {:induction false} NoHits(subs: seq<Clone>, rcver: Receiver)
    requires forall k :: 0 <= k < |subs| ==> !ForMe(subs[k].sub, rcver)
    ensures Hits(subs, rcver) == [] && Misses(subs, rcver) == subs
  {
    if subs != [] {
      NoHits(subs[1..], rcver);
    }
  }

  /** GRANTED reaches every active subscriber, and only in the Pending state. */
  lemma GrantedDoes(m: Machine)
    ensures var n := Next(m, RsrcGranted);
            if m.state.PendingState? then
              && n == m.(state := AcquiredState, delivered := n.delivered)
              && m.delivered <= n.delivered && AreTold(m.subs, IsActive, Granted, n.delivered[|m.delivered|..])
            else n == m
  {
    HitsAreTold(m.subs, Active, Granted, IsActive);
    hide Hits, AreTold, ForMe;
    TailOf(m.delivered, Deliveries(Hits(m.subs, Active), Granted));
  }

  lemma TailOf(a: seq<Delivery>, b: seq<Delivery>)
    ensures (a + b)[|a|..] == b
  {
  }

  /** What is new in a log that has grown. */
  function Added(before: seq<Delivery>, after: seq<Delivery>): seq<Delivery> {
    if |before| <= |after| then after[|before|..] else []
  }

  /** The answer that ends a request or a connection tells every subscriber and empties the list. While
      Releasing either answer tells and removes exactly the inactive ones, and the machine asks again for those
      that are left. Any other answer changes nothing. */
  lemma ClosedDoes(m: Machine, e: Event)
    requires e.RsrcReleased? || e.RsrcDenied?
    ensures var n := Next(m, e);
            var told := Added(m.delivered, n.delivered);
            var status := if e.RsrcReleased? then Released else Denied;
            if m.state == (if e.RsrcReleased? then AcquiredState else PendingState) then
              && n == m.(state := ReleasedState, subs := [], delivered := n.delivered)
              && m.delivered <= n.delivered && AreTold(m.subs, Anyone, status, told)
            else if m.state.ReleasingState? then
              && n == m.(state := if n.subs == [] then ReleasedState else PendingState, subs := n.subs, sent := n.sent, delivered := n.delivered)
              && m.delivered <= n.delivered && AreTold(m.subs, IsInactive, status, told)
              && AreLeft(m.subs, IsActive, n.subs)
            else n == m
  {
    var status := if e.RsrcReleased? then Released else Denied;
    EveryoneIsTold(m, status);
    InactiveAreTold(m, status);
    hide AreTold, AreLeft, Notify, Added;
  }

  lemma EveryoneIsTold(m: Machine, status: Status)
    ensures var n := Notify(m, All, status, true);
            && n == m.(subs := [], delivered := n.delivered)
            && m.delivered <= n.delivered && AreTold(m.subs, Anyone, status, Added(m.delivered, n.delivered))
  {
    HitsAreTold(m.subs, All, status, Anyone);
    NobodyMissesAll(m.subs);
    hide Hits, Misses, AreTold;
    TailOf(m.delivered, Deliveries(Hits(m.subs, All), status));
  }

  lemma InactiveAreTold(m: Machine, status: Status)
    ensures var n := Notify(m, Inactive, status, true);
            && n == m.(subs := n.subs, delivered := n.delivered)
            && m.delivered <= n.delivered && AreTold(m.subs, IsInactive, status, Added(m.delivered, n.delivered))
            && AreLeft(m.subs, IsActive, n.subs)
            && (HasActive(n.subs) <==> n.subs != [])
  {
    HitsAreTold(m.subs, Inactive, status, IsInactive);
    MissesAreLeft(m.subs, Inactive, IsActive);
    OnlyActiveStay(m);
    hide Hits, Misses, AreTold, AreLeft;
    TailOf(m.delivered, Deliveries(Hits(m.subs, Inactive), status));
  }

  lemma OnlyActiveStay(m: Machine)
    ensures HasActive(Misses(m.subs, Inactive)) <==> Misses(m.subs, Inactive) != []
  {
    MissesProps(m.subs, Inactive);
    var left := Misses(m.subs, Inactive);
    forall i | 0 <= i < |left|
      ensures !ForMe(left[i].sub, Inactive)
    {
      assert left[i] in left;
    }
    OnlyActiveLeft(left);
  }

  /** Dropping the list tells nobody and stays in the same state. */
  lemma DropDoes(m: Machine)
    ensures var n := Next(m, DropAllSubscribers);
            && n == m.(subs := [], dropped := n.dropped)
            && forall t :: t in n.dropped <==> t in m.dropped || exists i :: 0 <= i < |m.subs| && m.subs[i].tag == t
  {
  }

  // ----- Who is active after subscribing -----

  predicate ListsActive(subs: seq<Clone>, s: Subscriber) {
    exists i :: 0 <= i < |subs| && subs[i].sub.Equals(s) && !subs[i].sub.inactive
  }

  predicate ListsInactive(subs: seq<Clone>, s: Subscriber) {
    exists i :: 0 <= i < |subs| && subs[i].sub.Equals(s) && subs[i].sub.inactive
  }

  /** A subscriber that is not refused is an active one afterwards if and only if it was not waiting for its
      close to complete: one that comes back too early stays inactive. */
  lemma SubscribedIsActiveExactlyWhen(m: Machine, s: Subscriber)
    requires ListInv(m.subs) && Defined(m, SubscribeRsrc(s)) && !(m.single && m.subs != [])
    ensures ListsActive(Next(m, SubscribeRsrc(s)).subs, s) <==> !ListsInactive(m.subs, s)
  {
    SubscribeDoes(m, s);
    var n := Next(m, SubscribeRsrc(s));
    hide Next, ListInv, ListsActive, ListsInactive, Comparable, Lists;
    if Lists(m.subs, s) {
      assert n.subs == m.subs;
      ListedIsActiveOrNot(m.subs, s);
    } else {
      NewIsActive(m.subs, Clone(m.cloned, s.(inactive := false)), s);
    }
  }

  lemma ListedIsActiveOrNot(subs: seq<Clone>, s: Subscriber)
    requires ListInv(subs) && Comparable(subs, s) && Lists(subs, s)
    ensures ListsActive(subs, s) <==> !ListsInactive(subs, s)
  {
    var i :| 0 <= i < |subs| && subs[i].sub.Equals(s);
    OnlyEqual(subs, s, i);
    hide ListInv, Comparable;
    assert subs[i].sub.Equals(s);
  }

  lemma NewIsActive(subs: seq<Clone>, c: Clone, s: Subscriber)
    requires !Lists(subs, s) && c.sub == s.(inactive := false)
    ensures ListsActive([c] + subs, s) && !ListsInactive(subs, s)
  {
    assert ([c] + subs)[0].sub.Equals(s);
  }

  lemma OnlyEqual(subs: seq<Clone>, s: Subscriber, i: nat)
    requires ListInv(subs) && Comparable(subs, s) && i < |subs| && subs[i].sub.Equals(s)
    ensures forall k :: 0 <= k < |subs| && subs[k].sub.Equals(s) ==> k == i
  {
    forall k | 0 <= k < |subs|
      ensures subs[k].sub.Equals(s) ==> k == i
    {
      if i < k {
        NotBothEqual(subs[i], subs[k], s);
      } else if k < i {
        NotBothEqual(subs[k], subs[i], s);
      }
    }
  }

  lemma NotBothEqual(a: Clone, b: Clone, s: Subscriber)
    requires Apart(a, b) && !a.sub.Overreads(s) && !b.sub.Overreads(s)
    ensures !(a.sub.Equals(s) && b.sub.Equals(s))
  {
  }

  /** A WIFI subscriber that unsubscribes while its request is pending and subscribes again before the close
      completes is told that the resource is released; nothing is asked for on its behalf. */
  lemma EarlyReturnIsLost(s: Subscriber)
    requires s.kind.WIFI?
    ensures var m := Run(Initial(false), [SubscribeRsrc(s), UnsubscribeRsrc(s), SubscribeRsrc(s), RsrcReleased]);
            && m.state.ReleasedState? && m.subs == [] && m.sent == [REQUEST, RELEASE]
            && m.delivered == [Delivery(Some(0), s.(inactive := true), Released)]
  {
    var active, inactive := Clone(0, s.(inactive := false)), Clone(0, s.(inactive := true));
    var m0 := Initial(false);
    var m1 := m0.(state := PendingState, subs := [active], cloned := 1, sent := [REQUEST]);
    var m2 := m1.(state := ReleasingState, subs := [inactive], sent := [REQUEST, RELEASE]);
    var m4 := m2.(state := ReleasedState, subs := [], delivered := [Delivery(Some(0), inactive.sub, Released)]);
    FirstSubscribes(s);
    FirstLeaves(s);
    assert Next(m2, SubscribeRsrc(s)) == m2 by {
      assert m2.subs[0].sub.Equals(s);
      SubscribeDoes(m2, s);
      GuardNeverSuppresses(m2, SubscribeRsrc(s));
    }
    assert Next(m2, RsrcReleased) == m4 by {
      OneInactiveIsTold(m2, inactive);
    }
    hide Next;
    RunFour(m0, SubscribeRsrc(s), UnsubscribeRsrc(s), SubscribeRsrc(s), RsrcReleased);
  }

  lemma FirstSubscribes(s: Subscriber)
    ensures Next(Initial(false), SubscribeRsrc(s))
         == Initial(false).(state := PendingState, subs := [Clone(0, s.(inactive := false))], cloned := 1, sent := [REQUEST])
  {
    SubscribeDoes(Initial(false), s);
    GuardNeverSuppresses(Initial(false), SubscribeRsrc(s));
  }

  lemma FirstLeaves(s: Subscriber)
    requires s.kind.WIFI?
    ensures var m := Initial(false).(state := PendingState, subs := [Clone(0, s.(inactive := false))], cloned := 1, sent := [REQUEST]);
            Next(m, UnsubscribeRsrc(s)) == m.(state := ReleasingState, subs := [Clone(0, s.(inactive := true))], sent := [REQUEST, RELEASE])
  {
    var m := Initial(false).(state := PendingState, subs := [Clone(0, s.(inactive := false))], cloned := 1, sent := [REQUEST]);
    UnsubscribeDoes(m, s, 0);
    GuardNeverSuppresses(m, UnsubscribeRsrc(s));
    assert m.subs[0 := Clone(0, s.(inactive := true))] == [Clone(0, s.(inactive := true))];
  }

  lemma OneInactiveIsTold(m: Machine, c: Clone)
    requires m.state.ReleasingState? && m.subs == [c] && c.sub.inactive
    ensures Next(m, RsrcReleased)
         == m.(state := ReleasedState, subs := [], delivered := m.delivered + [Delivery(Some(c.tag), c.sub, Released)])
  {
    OneHit([c], Inactive, 0);
    hide Hits, Misses;
    assert [c][..0] + [c][1..] == [];
    assert Deliveries([c], Released) == [Delivery(Some(c.tag), c.sub, Released)];
    hide Deliveries;
    assert !HasActive([]);
  }

  lemma RunFour(m: Machine, a: Event, b: Event, c: Event, d: Event)
    ensures Run(m, [a, b, c, d]) == Next(Next(Next(Next(m, a), b), c), d)
  {
    hide Next;
    assert [a, b, c, d][1..] == [b, c, d] && [b, c, d][1..] == [c, d] && [c, d][1..] == [d] && [d][1..] == [];
    var m1 := Next(m, a);
    var m2 := Next(m1, b);
    var m3 := Next(m2, c);
    assert Run(m3, [d]) == Next(m3, d);
    assert Run(m2, [c, d]) == Run(m3, [d]);
    assert Run(m1, [b, c, d]) == Run(m2, [c, d]);
  }
}
