/** The AGPS resource state machine of loc_eng_agps.cpp/.h as a value: the four states, the
    list of subscribers, the traffic to the framework and the statuses delivered to clients.

    AgpsStateMachine.dfy proves that the class with its loops computes these functions. */
module Agps {
  import opened Wrappers

  // ----- Subscribers and notifications -----

  const INADDR_NONE := 0xFFFF_FFFF

  datatype Kind = BIT | ATL | WIFI

  /** `v6` is mIPv6Addr up to its first zero byte, which is all strncmp compares. */
  datatype Subscriber = Subscriber(kind: Kind, id: int, v6: seq<int>, inactive: bool)
  {
    /** Subscriber::equals and BITSubscriber::equals. */
    predicate Equals(s: Subscriber) {
      if kind.BIT? then id == s.id && (id != INADDR_NONE || v6 == s.v6) else id == s.id
    }

    predicate WaitForCloseComplete() { kind.WIFI? }

    /** Equals reads past s: a BIT subscriber without an IPv4 address compares IPv6 addresses, which a
        subscriber of another kind with that ID does not have. */
    predicate Overreads(s: Subscriber) {
      kind.BIT? && id == INADDR_NONE && s.id == INADDR_NONE && !s.kind.BIT?
    }
  }

  /** Among subscribers that can be compared, being equal is an equivalence. */
  lemma EqualsIsEquivalence(a: Subscriber, b: Subscriber, c: Subscriber)
    requires !a.Overreads(b) && !b.Overreads(a) && !b.Overreads(c) && !c.Overreads(b)
    ensures a.Equals(a) && (a.Equals(b) <==> b.Equals(a)) && (a.Equals(b) && b.Equals(c) ==> a.Equals(c))
  {
  }

  datatype Status = Unsubscribed | Granted | Released | Denied
  {
    /** The last thing a subscriber hears. */
    predicate Terminal() { !Granted? }
  }

  /** Whom a notification is for.  The receiver is carried by value: the list element it was
      taken from is deleted while the notification is still in use. */
  datatype Receiver = One(s: Subscriber) | All | Active | Inactive

  /** Subscriber::forMe. */
  predicate ForMe(s: Subscriber, rcver: Receiver) {
    match rcver
    case One(r) => s.Equals(r)
    case All => true
    case Active => !s.inactive
    case Inactive => s.inactive
  }

  /** A list element: a clone of the subscriber, with the serial number of its cloning. */
  datatype Clone = Clone(tag: nat, sub: Subscriber)

  /** A status handed to a subscriber: to the clone in the list, or to the caller's own. */
  datatype Delivery = Delivery(to: Option<nat>, sub: Subscriber, status: Status)

  // ----- The machine -----

  datatype State = ReleasedState | PendingState | AcquiredState | ReleasingState

  datatype Request = REQUEST | RELEASE

  /** `cloned` counts the clones made so far; `dropped` are those that a flush deleted. */
  datatype Machine = Machine(
    single: bool, state: State, subs: seq<Clone>, cloned: nat, dropped: set<nat>,
    sent: seq<Request>, delivered: seq<Delivery>)

  function Initial(single: bool): Machine {
    Machine(single, ReleasedState, [], 0, {}, [], [])
  }

  function Hits(subs: seq<Clone>, rcver: Receiver): seq<Clone> {
    if subs == [] then []
    else (if ForMe(subs[0].sub, rcver) then [subs[0]] else []) + Hits(subs[1..], rcver)
  }

  function Misses(subs: seq<Clone>, rcver: Receiver): seq<Clone> {
    if subs == [] then []
    else (if ForMe(subs[0].sub, rcver) then [] else [subs[0]]) + Misses(subs[1..], rcver)
  }

  function Deliveries(to: seq<Clone>, status: Status): seq<Delivery> {
    seq(|to|, (i: int) requires 0 <= i < |to| => Delivery(Some(to[i].tag), to[i].sub, status))
  }

  predicate HasActive(subs: seq<Clone>) {
    exists i :: 0 <= i < |subs| && !subs[i].sub.inactive
  }

  predicate HasInactive(subs: seq<Clone>) {
    exists i :: 0 <= i < |subs| && subs[i].sub.inactive
  }

  /** The first element equal to s, if any (linked_list_search with hasSubscriber). */
  function Lookup(subs: seq<Clone>, s: Subscriber): Option<Clone> {
    if subs == [] then None
    else if subs[0].sub.Equals(s) then Some(subs[0])
    else Lookup(subs[1..], s)
  }

  function Notify(m: Machine, rcver: Receiver, status: Status, postNotifyDelete: bool): Machine {
    m.(delivered := m.delivered + Deliveries(Hits(m.subs, rcver), status),
       subs := if postNotifyDelete then Misses(m.subs, rcver) else m.subs)
  }

  function AddSubscriber(m: Machine, s: Subscriber): Machine {
    if Lookup(m.subs, s).Some? then m
    else m.(subs := [Clone(m.cloned, s.(inactive := false))] + m.subs, cloned := m.cloned + 1)
  }

  /** AgpsStateMachine::sendRsrcRequest, with its guard. */
  function SendRequest(m: Machine, action: Request): Machine {
    if !HasActive(m.subs) == action.RELEASE? then m.(sent := m.sent + [action]) else m
  }

  function SetInactive(subs: seq<Clone>, tag: nat): (r: seq<Clone>)
    ensures |r| == |subs|
  {
    seq(|subs|, (i: int) requires 0 <= i < |subs| =>
      if subs[i].tag == tag then subs[i].(sub := subs[i].sub.(inactive := true)) else subs[i])
  }

  function OnSubscribe(m: Machine, s: Subscriber): Machine {
    match m.state
    case ReleasedState => SendRequest(AddSubscriber(m, s), REQUEST).(state := PendingState)
    case PendingState => AddSubscriber(m, s)
    case AcquiredState => AddSubscriber(m.(delivered := m.delivered + [Delivery(None, s, Granted)]), s)
    case ReleasingState => AddSubscriber(m, s)
  }

  /** Lines 344-350, 443-449 and 534-540: what every state but Released does first. */
  function Leave(m: Machine, c: Clone): Machine {
    if c.sub.WaitForCloseComplete() then m.(subs := SetInactive(m.subs, c.tag))
    else Notify(m, One(c.sub), Unsubscribed, true)
  }

  function OnUnsubscribe(m: Machine, c: Clone): Machine {
    match m.state
    case ReleasedState =>
      m.(delivered := m.delivered + [Delivery(Some(c.tag), c.sub, Unsubscribed)])
    case ReleasingState =>
      var n := Leave(m, c);
      if n.subs == [] then n.(state := ReleasedState) else n
    case _ =>
      var n := Leave(m, c);
      if n.subs == [] then SendRequest(n, RELEASE).(state := ReleasedState)
      else if !HasActive(n.subs) then SendRequest(n, RELEASE).(state := ReleasingState)
      else n
  }

  function OnGranted(m: Machine): Machine {
    match m.state
    case PendingState => Notify(m, Active, Granted, false).(state := AcquiredState)
    case _ => m
  }

  /** The Releasing state treats RELEASED and DENIED alike. */
  function OnClosed(m: Machine, status: Status): Machine {
    var n := Notify(m, Inactive, status, true);
    if HasActive(n.subs) then SendRequest(n, REQUEST).(state := PendingState)
    else n.(state := ReleasedState)
  }

  function OnReleased(m: Machine): Machine {
    match m.state
    case AcquiredState => Notify(m, All, Released, true).(state := ReleasedState)
    case ReleasingState => OnClosed(m, Released)
    case _ => m
  }

  function OnDenied(m: Machine): Machine {
    match m.state
    case PendingState => Notify(m, All, Denied, true).(state := ReleasedState)
    case ReleasingState => OnClosed(m, Denied)
    case _ => m
  }

  datatype Event =
    | SubscribeRsrc(s: Subscriber)
    | UnsubscribeRsrc(s: Subscriber)
    | RsrcGranted
    | RsrcReleased
    | RsrcDenied
    | DropAllSubscribers

  function Tags(subs: seq<Clone>): set<nat> {
    set i | 0 <= i < |subs| :: subs[i].tag
  }

  function Next(m: Machine, e: Event): Machine {
    match e
    case SubscribeRsrc(s) =>
      if m.single && m.subs != [] then m.(delivered := m.delivered + [Delivery(None, s, Denied)])
      else OnSubscribe(m, s)
    case UnsubscribeRsrc(s) =>
      var c := Lookup(m.subs, s);
      if c.Some? then OnUnsubscribe(m, c.value) else m
    case RsrcGranted => OnGranted(m)
    case RsrcReleased => OnReleased(m)
    case RsrcDenied => OnDenied(m)
    case DropAllSubscribers => m.(subs := [], dropped := m.dropped + Tags(m.subs))
  }

  function Run(m: Machine, events: seq<Event>): Machine
    decreases |events|
  {
    if events == [] then m else Run(Next(m, events[0]), events[1..])
  }

  /** No element of the list reads past s when it is compared with it. */
  predicate Comparable(subs: seq<Clone>, s: Subscriber) {
    forall i :: 0 <= i < |subs| ==> !subs[i].sub.Overreads(s)
  }

  /** The event compares nothing that cannot be compared. A single-subscriber machine that has its
      subscriber compares none with another. */
  predicate Defined(m: Machine, e: Event) {
    match e
    case SubscribeRsrc(s) => (m.single && m.subs != []) || Comparable(m.subs, s)
    case UnsubscribeRsrc(s) => Comparable(m.subs, s)
    case _ => true
  }

  predicate DefinedRun(m: Machine, events: seq<Event>)
    decreases |events|
  {
    events == [] || (Defined(m, events[0]) && DefinedRun(Next(m, events[0]), events[1..]))
  }

  // ----- The subscriber list over every run -----

  /** No two list elements are equal subscribers or have the same serial number, and only WIFI
      subscribers are ever inactive. */
  ghost predicate ListInv(subs: seq<Clone>) {
    (forall i :: 0 <= i < |subs| ==> CloneOk(subs[i])) &&
    (forall i, j :: 0 <= i < j < |subs| ==> Apart(subs[i], subs[j]))
  }

  predicate CloneOk(c: Clone) {
    c.sub.inactive ==> c.sub.WaitForCloseComplete()
  }

  predicate Apart(a: Clone, b: Clone) {
    !a.sub.Equals(b.sub) && !b.sub.Equals(a.sub) && a.tag != b.tag
  }

  ghost predicate Inv(m: Machine) {
    ListInv(m.subs) &&
    (forall i :: 0 <= i < |m.subs| ==> m.subs[i].tag < m.cloned) &&
    (m.state.ReleasedState? ==> m.subs == []) &&
    (m.single ==> |m.subs| <= 1)
  }

  /** What holds in addition as long as nobody calls dropAllSubscribers. */
  ghost predicate Populated(m: Machine) {
    match m.state
    case ReleasedState => true
    case ReleasingState => HasInactive(m.subs)
    case _ => HasActive(m.subs)
  }

  lemma {:induction false} MissesProps(subs: seq<Clone>, rcver: Receiver)
    ensures forall c :: c in Misses(subs, rcver) <==> c in subs && !ForMe(c.sub, rcver)
    ensures |Misses(subs, rcver)| <= |subs|
  {
    if subs != [] {
      MissesProps(subs[1..], rcver);
      assert subs == [subs[0]] + subs[1..];
    }
  }

  lemma {:induction false} MissesKeepInv(subs: seq<Clone>, rcver: Receiver)
    requires ListInv(subs)
    ensures ListInv(Misses(subs, rcver))
  {
    hide CloneOk, Apart, ForMe;
    if subs != [] {
      MissesKeepInv(subs[1..], rcver);
      MissesProps(subs[1..], rcver);
      forall c | c in subs[1..]
        ensures CloneOk(c) && Apart(subs[0], c)
      {
        var k :| 0 <= k < |subs[1..]| && subs[1..][k] == c;
        assert subs[k + 1] == c;
      }
    }
  }

  lemma {:induction false} HitsProps(subs: seq<Clone>, rcver: Receiver)
    ensures forall c :: c in Hits(subs, rcver) <==> c in subs && ForMe(c.sub, rcver)
  {
    if subs != [] {
      HitsProps(subs[1..], rcver);
      assert subs == [subs[0]] + subs[1..];
    }
  }

  lemma {:induction false} HitsKeepInv(subs: seq<Clone>, rcver: Receiver)
    requires ListInv(subs)
    ensures ListInv(Hits(subs, rcver))
  {
    hide CloneOk, Apart, ForMe;
    if subs != [] {
      HitsKeepInv(subs[1..], rcver);
      HitsProps(subs[1..], rcver);
      forall c | c in subs[1..]
        ensures CloneOk(c) && Apart(subs[0], c)
      {
        var k :| 0 <= k < |subs[1..]| && subs[1..][k] == c;
        assert subs[k + 1] == c;
      }
    }
  }

  lemma {:induction false} LookupProps(subs: seq<Clone>, s: Subscriber)
    ensures Lookup(subs, s).Some? ==> Lookup(subs, s).value in subs && Lookup(subs, s).value.sub.Equals(s)
    ensures Lookup(subs, s).None? ==> forall c :: c in subs ==> !c.sub.Equals(s)
  {
    if subs != [] {
      LookupProps(subs[1..], s);
      assert subs == [subs[0]] + subs[1..];
    }
  }

  lemma AddKeepsInv(m: Machine, s: Subscriber)
    requires ListInv(m.subs) && Comparable(m.subs, s)
    requires forall i :: 0 <= i < |m.subs| ==> m.subs[i].tag < m.cloned
    ensures var n := AddSubscriber(m, s);
            ListInv(n.subs) && forall i :: 0 <= i < |n.subs| ==> n.subs[i].tag < n.cloned
  {
    LookupProps(m.subs, s);
    var n := AddSubscriber(m, s);
    if Lookup(m.subs, s).None? {
      forall k | 0 <= k < |m.subs|
        ensures Apart(n.subs[0], m.subs[k])
      {
        assert m.subs[k] in m.subs;
      }
    }
  }

  lemma AddKeepsPopulation(m: Machine, s: Subscriber)
    ensures var n := AddSubscriber(m, s);
            && (m.subs == [] ==> |n.subs| == 1)
            && (HasActive(m.subs) || m.subs == [] ==> HasActive(n.subs))
            && (HasInactive(m.subs) ==> HasInactive(n.subs))
  {
    var n := AddSubscriber(m, s);
    if Lookup(m.subs, s).None? {
      assert !n.subs[0].sub.inactive;
      assert forall k :: 0 <= k < |m.subs| ==> n.subs[k + 1] == m.subs[k];
    }
  }

  lemma DifferentClonesAreApart(subs: seq<Clone>, c: Clone, d: Clone)
    requires ListInv(subs) && c in subs && d in subs && c != d
    ensures Apart(c, d) && CloneOk(c) && CloneOk(d)
  {
    hide CloneOk;
    var i :| 0 <= i < |subs| && subs[i] == c;
    var k :| 0 <= k < |subs| && subs[k] == d;
    assert if i < k then Apart(subs[i], subs[k]) else Apart(subs[k], subs[i]);
  }

  ghost predicate LeaveKeeps(before: seq<Clone>, after: seq<Clone>, c: Clone) {
    && ListInv(after) && |after| <= |before|
    && (forall d :: d in before && d != c ==> d in after)
    && (forall d :: d in after ==> exists e :: e in before && e.tag == d.tag)
    && (HasInactive(before) ==> HasInactive(after))
  }

  /** Element i after c has gone inactive. */
  lemma InactiveAt(subs: seq<Clone>, c: Clone, i: nat)
    requires ListInv(subs) && c in subs && c.sub.WaitForCloseComplete() && i < |subs|
    ensures var d := SetInactive(subs, c.tag)[i];
            && CloneOk(d) && d.tag == subs[i].tag && d.sub.(inactive := false) == subs[i].sub.(inactive := false)
            && (subs[i] != c ==> d == subs[i])
  {
    if subs[i] != c {
      DifferentClonesAreApart(subs, c, subs[i]);
    }
    assert CloneOk(subs[i]);
  }

  lemma GoingInactiveKeepsList(subs: seq<Clone>, c: Clone)
    requires ListInv(subs) && c in subs && c.sub.WaitForCloseComplete()
    ensures ListInv(SetInactive(subs, c.tag))
  {
    var after := SetInactive(subs, c.tag);
    hide SetInactive, CloneOk;
    forall i | 0 <= i < |after|
      ensures CloneOk(after[i])
    {
      InactiveAt(subs, c, i);
    }
    forall i, j | 0 <= i < j < |after|
      ensures Apart(after[i], after[j])
    {
      InactiveAt(subs, c, i);
      InactiveAt(subs, c, j);
      assert Apart(subs[i], subs[j]);
    }
  }

  lemma GoingInactiveKeeps(subs: seq<Clone>, c: Clone)
    requires ListInv(subs) && c in subs && c.sub.WaitForCloseComplete()
    ensures LeaveKeeps(subs, SetInactive(subs, c.tag), c)
  {
    var after := SetInactive(subs, c.tag);
    GoingInactiveKeepsList(subs, c);
    hide SetInactive, ListInv, CloneOk;
    forall d | d in subs && d != c
      ensures d in after
    {
      var i :| 0 <= i < |subs| && subs[i] == d;
      InactiveAt(subs, c, i);
      assert after[i] in after;
    }
    forall d | d in after
      ensures exists e :: e in subs && e.tag == d.tag
    {
      var i :| 0 <= i < |subs| && after[i] == d;
      InactiveAt(subs, c, i);
      assert subs[i] in subs;
    }
    if i :| 0 <= i < |subs| && subs[i].sub.inactive {
      InactiveStays(subs, c.tag, i);
    }
  }

  lemma InactiveStays(subs: seq<Clone>, tag: nat, i: nat)
    requires i < |subs| && subs[i].sub.inactive
    ensures HasInactive(SetInactive(subs, tag))
  {
    assert SetInactive(subs, tag)[i].sub.inactive;
  }

  lemma LeavingKeeps(subs: seq<Clone>, c: Clone)
    requires ListInv(subs) && c in subs && !c.sub.WaitForCloseComplete()
    ensures LeaveKeeps(subs, Misses(subs, One(c.sub)), c)
  {
    var after := Misses(subs, One(c.sub));
    MissesProps(subs, One(c.sub));
    MissesKeepInv(subs, One(c.sub));
    forall d | d in subs && d != c
      ensures d in after
    {
      DifferentClonesAreApart(subs, c, d);
    }
    hide ListInv;
    if i :| 0 <= i < |subs| && subs[i].sub.inactive {
      assert subs[i] in subs;
      NotWaitingIsActive(subs, c);
      assert subs[i] in after;
      var k :| 0 <= k < |after| && after[k] == subs[i];
    }
  }

  lemma NotWaitingIsActive(subs: seq<Clone>, c: Clone)
    requires ListInv(subs) && c in subs && !c.sub.WaitForCloseComplete()
    ensures !c.sub.inactive
  {
    var i :| 0 <= i < |subs| && subs[i] == c;
    assert CloneOk(subs[i]);
  }

  /** Taking leave keeps the list in order; of the other subscribers none is touched. */
  lemma LeaveKeepsInv(m: Machine, c: Clone)
    requires ListInv(m.subs) && c in m.subs
    ensures LeaveKeeps(m.subs, Leave(m, c).subs, c)
  {
    hide LeaveKeeps;
    if c.sub.WaitForCloseComplete() {
      GoingInactiveKeeps(m.subs, c);
    } else {
      LeavingKeeps(m.subs, c);
    }
  }
}
