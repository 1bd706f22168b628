/** What every run of the base AGPS machine guarantees: about its list of subscribers, about
    the connection it asks the framework for, and about what each subscriber is told. */
module AgpsRuns {
  import opened Wrappers
  import opened Agps

  // ----- The list -----

  lemma SubscribeKeepsInv(m: Machine, s: Subscriber)
    requires Inv(m) && Defined(m, SubscribeRsrc(s))
    ensures Inv(Next(m, SubscribeRsrc(s)))
    ensures Populated(m) ==> Populated(Next(m, SubscribeRsrc(s)))
  {
    if !(m.single && m.subs != []) {
      AddKeepsInv(m, s);
      AddKeepsPopulation(m, s);
      var heard := m.(delivered := m.delivered + [Delivery(None, s, Granted)]);
      AddKeepsInv(heard, s);
      AddKeepsPopulation(heard, s);
    }
  }

  lemma LeaveKeepsBounds(m: Machine, c: Clone)
    requires Inv(m) && c in m.subs
    ensures var n := Leave(m, c);
            && ListInv(n.subs) && (n.single ==> |n.subs| <= 1) && n.single == m.single && n.cloned == m.cloned
            && (forall i :: 0 <= i < |n.subs| ==> n.subs[i].tag < n.cloned)
            && (n.subs == [] || HasActive(n.subs) || HasInactive(n.subs))
            && (HasInactive(m.subs) ==> HasInactive(n.subs))
  {
    LeaveKeepsInv(m, c);
    hide ListInv, Misses, SetInactive;
    var n := Leave(m, c);
    forall i | 0 <= i < |n.subs|
      ensures n.subs[i].tag < n.cloned
    {
      assert n.subs[i] in n.subs;
    }
    if n.subs != [] && !HasActive(n.subs) {
      assert n.subs[0].sub.inactive;
    }
  }

  lemma UnsubscribeKeepsInv(m: Machine, s: Subscriber)
    requires Inv(m)
    ensures Inv(Next(m, UnsubscribeRsrc(s)))
    ensures Populated(m) ==> Populated(Next(m, UnsubscribeRsrc(s)))
  {
    LookupProps(m.subs, s);
    if Lookup(m.subs, s).Some? {
      LeaveKeepsBounds(m, Lookup(m.subs, s).value);
    }
    hide ListInv, Leave, Lookup;
  }

  lemma NotifyKeepsInv(m: Machine, rcver: Receiver, status: Status)
    requires ListInv(m.subs) && (m.single ==> |m.subs| <= 1)
    requires forall i :: 0 <= i < |m.subs| ==> m.subs[i].tag < m.cloned
    ensures var n := Notify(m, rcver, status, true);
            && ListInv(n.subs) && (n.single ==> |n.subs| <= 1)
            && (forall i :: 0 <= i < |n.subs| ==> n.subs[i].tag < n.cloned && n.subs[i] in m.subs)
            && (forall i :: 0 <= i < |n.subs| ==> !ForMe(n.subs[i].sub, rcver))
  {
    MissesKeepInv(m.subs, rcver);
    MissesProps(m.subs, rcver);
    var n := Notify(m, rcver, status, true);
    forall i | 0 <= i < |n.subs|
      ensures n.subs[i] in m.subs && !ForMe(n.subs[i].sub, rcver)
    {
      assert n.subs[i] in n.subs;
    }
  }

  lemma {:induction false} NobodyMissesAll(subs: seq<Clone>)
    ensures Misses(subs, All) == []
  {
    if subs != [] {
      NobodyMissesAll(subs[1..]);
    }
  }

  /** After the inactive subscribers are gone, either an active one is left or none. */
  lemma OnlyActiveLeft(subs: seq<Clone>)
    requires forall i :: 0 <= i < |subs| ==> !ForMe(subs[i].sub, Inactive)
    ensures HasActive(subs) <==> subs != []
  {
    if subs != [] {
      assert !subs[0].sub.inactive;
    }
  }

  lemma ClosedKeepsInv(m: Machine, status: Status)
    requires Inv(m)
    ensures Inv(OnClosed(m, status)) && Populated(OnClosed(m, status))
  {
    NotifyKeepsInv(m, Inactive, status);
    OnlyActiveLeft(Notify(m, Inactive, status, true).subs);
  }

  /** Every event keeps the list in order: Released means empty, no two subscribers are equal,
      a single-subscriber machine holds at most one.  And as long as nobody drops the list,
      Pending and Acquired have an active subscriber and Releasing has an inactive one. */
  lemma StepKeepsInv(m: Machine, e: Event)
    requires Inv(m) && Defined(m, e)
    ensures Inv(Next(m, e))
    ensures Populated(m) && !e.DropAllSubscribers? ==> Populated(Next(m, e))
  {
    match e
    case SubscribeRsrc(s) => SubscribeKeepsInv(m, s);
    case UnsubscribeRsrc(s) => UnsubscribeKeepsInv(m, s);
    case RsrcGranted =>
    case RsrcReleased =>
      ClosedKeepsInv(m, Released);
      NobodyMissesAll(m.subs);
    case RsrcDenied =>
      ClosedKeepsInv(m, Denied);
      NobodyMissesAll(m.subs);
    case DropAllSubscribers =>
  }

  /** Exactly which event leaves nobody to wait: a drop, in any state but Released. */
  lemma StepKeepsPopulatedExactlyWhen(m: Machine, e: Event)
    requires Inv(m) && Populated(m) && Defined(m, e)
    ensures Populated(Next(m, e)) <==> !e.DropAllSubscribers? || m.state.ReleasedState?
  {
    StepKeepsInv(m, e);
    hide Inv, ListInv;
  }

  /** Every drop comes in the Released state. */
  predicate HarmlessDrops(m: Machine, events: seq<Event>)
    decreases |events|
  {
    events == [] ||
    ((events[0].DropAllSubscribers? ==> m.state.ReleasedState?) && HarmlessDrops(Next(m, events[0]), events[1..]))
  }

  ghost predicate PopulatedThroughout(m: Machine, events: seq<Event>)
    decreases |events|
  {
    Populated(m) && (events != [] ==> PopulatedThroughout(Next(m, events[0]), events[1..]))
  }

  /** The machine has those it waits for all through a run exactly when every drop of the run comes in the
      Released state. */
  lemma {:induction false} PopulatedThroughoutExactlyWhen(m: Machine, events: seq<Event>)
    requires Inv(m) && Populated(m) && DefinedRun(m, events)
    ensures PopulatedThroughout(m, events) <==> HarmlessDrops(m, events)
    decreases |events|
  {
    hide Inv, Populated, Next, Defined;
    if events != [] {
      StepKeepsInv(m, events[0]);
      StepKeepsPopulatedExactlyWhen(m, events[0]);
      if Populated(Next(m, events[0])) {
        PopulatedThroughoutExactlyWhen(Next(m, events[0]), events[1..]);
      }
    }
  }

  lemma {:induction false} RunKeepsInv(m: Machine, events: seq<Event>)
    requires Inv(m) && DefinedRun(m, events)
    ensures Inv(Run(m, events))
    ensures Populated(m) && HarmlessDrops(m, events) ==> Populated(Run(m, events))
    decreases |events|
  {
    hide Inv, Populated, Next, Defined;
    if events != [] {
      StepKeepsInv(m, events[0]);
      if Populated(m) {
        StepKeepsPopulatedExactlyWhen(m, events[0]);
      }
      RunKeepsInv(Next(m, events[0]), events[1..]);
    }
  }

  /** Over every sequence of events, from the initial machine. */
  lemma ListOverEveryRun(single: bool, events: seq<Event>)
    requires DefinedRun(Initial(single), events)
    ensures var m := Run(Initial(single), events);
            && (m.state.ReleasedState? ==> m.subs == [])
            && (single ==> |m.subs| <= 1)
            && (forall i, j :: 0 <= i < |m.subs| && 0 <= j < |m.subs| && i != j ==> !m.subs[i].sub.Equals(m.subs[j].sub))
            && (HarmlessDrops(Initial(single), events) ==>
                 (m.state.PendingState? || m.state.AcquiredState? ==> HasActive(m.subs)) &&
                 (m.state.ReleasingState? ==> HasInactive(m.subs)))
  {
    RunKeepsInv(Initial(single), events);
    RunKeepsSingle(Initial(single), events);
    var m := Run(Initial(single), events);
    hide Run, CloneOk, HarmlessDrops;
    forall i, j | 0 <= i < |m.subs| && 0 <= j < |m.subs| && i != j
      ensures !m.subs[i].sub.Equals(m.subs[j].sub)
    {
      assert if i < j then Apart(m.subs[i], m.subs[j]) else Apart(m.subs[j], m.subs[i]);
    }
  }

  /** Dropping the list in Pending leaves a request under way for nobody. */
  lemma DropLeavesRequestForNobody(single: bool, s: Subscriber)
    ensures var m := Run(Initial(single), [SubscribeRsrc(s), DropAllSubscribers]);
            m.state.PendingState? && m.subs == [] && m.sent == [REQUEST]
  {
    var events := [SubscribeRsrc(s), DropAllSubscribers];
    assert events[1..] == [DropAllSubscribers] && events[1..][1..] == [];
    var m := Next(Initial(single), SubscribeRsrc(s));
    assert m.subs == [Clone(0, s.(inactive := false))] && !m.subs[0].sub.inactive;
    assert HasActive([Clone(0, s.(inactive := false))]) by {
      assert ![Clone(0, s.(inactive := false))][0].sub.inactive;
    }
    assert Run(m, [DropAllSubscribers]) == Run(Next(m, DropAllSubscribers), []);
  }

  lemma {:induction false} RunKeepsSingle(m: Machine, events: seq<Event>)
    ensures Run(m, events).single == m.single
    decreases |events|
  {
    if events != [] {
      RunKeepsSingle(Next(m, events[0]), events[1..]);
    }
  }

  // ----- The connection -----

  /** What crosses the boundary to the framework: our requests, and its ending of a connection. */
  datatype Traffic = Ours(r: Request) | Ended

  /** A connection is open after REQUEST until RELEASE or until the framework ends it. */
  predicate Open(log: seq<Traffic>) {
    log != [] && log[|log| - 1] == Ours(REQUEST)
  }

  /** REQUEST only when no connection is open, RELEASE and Ended only when one is. */
  predicate Alternates(log: seq<Traffic>) {
    log == [] ||
      (Alternates(log[..|log| - 1]) &&
       (log[|log| - 1] == Ours(REQUEST) <==> !Open(log[..|log| - 1])))
  }

  function AsTraffic(sent: seq<Request>): seq<Traffic> {
    seq(|sent|, (i: int) requires 0 <= i < |sent| => Ours(sent[i]))
  }

  /** The framework ends a connection by denying a pending one or releasing an acquired one. */
  predicate EndsConnection(m: Machine, e: Event) {
    (m.state.PendingState? && e.RsrcDenied?) || (m.state.AcquiredState? && e.RsrcReleased?)
  }

  function SentBy(m: Machine, e: Event): seq<Request> {
    if |m.sent| <= |Next(m, e).sent| then Next(m, e).sent[|m.sent|..] else []
  }

  function TrafficOf(m: Machine, e: Event): seq<Traffic> {
    (if EndsConnection(m, e) then [Ended] else []) + AsTraffic(SentBy(m, e))
  }

  /** The log after a run that started with `log`. */
  function RunTraffic(m: Machine, events: seq<Event>, log: seq<Traffic>): seq<Traffic>
    decreases |events|
  {
    if events == [] then log
    else RunTraffic(Next(m, events[0]), events[1..], log + TrafficOf(m, events[0]))
  }

  predicate Connected(s: State) {
    s.PendingState? || s.AcquiredState?
  }

  /** What each change of state sends: the guard in sendRsrcRequest suppresses none of the
      calls that the transitions make, and no transition sends anything else. */
  function Expected(before: State, e: Event, after: State): seq<Request> {
    if after.PendingState? && !before.PendingState? then [REQUEST]
    else if e.UnsubscribeRsrc? && Connected(before) && !Connected(after) then [RELEASE]
    else []
  }

  lemma GuardNeverSuppresses(m: Machine, e: Event)
    requires Inv(m) && Defined(m, e)
    ensures Next(m, e).sent == m.sent + Expected(m.state, e, Next(m, e).state)
  {
    match e
    case SubscribeRsrc(s) =>
      SubscribeIsNotSuppressed(m, s);
    case UnsubscribeRsrc(s) =>
      UnsubscribeIsNotSuppressed(m, s);
    case RsrcGranted =>
    case RsrcReleased =>
    case RsrcDenied =>
    case DropAllSubscribers =>
  }

  lemma SubscribeIsNotSuppressed(m: Machine, s: Subscriber)
    requires Inv(m)
    ensures Next(m, SubscribeRsrc(s)).sent == m.sent + Expected(m.state, SubscribeRsrc(s), Next(m, SubscribeRsrc(s)).state)
  {
    AddKeepsPopulation(m, s);
  }

  lemma UnsubscribeIsNotSuppressed(m: Machine, s: Subscriber)
    requires Inv(m)
    ensures Next(m, UnsubscribeRsrc(s)).sent == m.sent + Expected(m.state, UnsubscribeRsrc(s), Next(m, UnsubscribeRsrc(s)).state)
  {
    LookupProps(m.subs, s);
  }

  lemma EndsMeansReleased(m: Machine, e: Event)
    requires EndsConnection(m, e)
    ensures Next(m, e).state.ReleasedState? && !e.UnsubscribeRsrc?
  {
  }

  /** One event makes at most one entry of traffic. */
  lemma TrafficIs(m: Machine, e: Event)
    requires Inv(m) && Defined(m, e)
    ensures var expected := Expected(m.state, e, Next(m, e).state);
            TrafficOf(m, e) == if EndsConnection(m, e) then [Ended]
                               else if expected == [] then [] else [Ours(expected[0])]
  {
    if EndsConnection(m, e) {
      EndsMeansReleased(m, e);
    }
    GuardNeverSuppresses(m, e);
    hide Next;
    assert SentBy(m, e) == Expected(m.state, e, Next(m, e).state);
  }

  lemma AppendAlternates(log: seq<Traffic>, t: Traffic)
    requires Alternates(log) && (t == Ours(REQUEST) <==> !Open(log))
    ensures Alternates(log + [t]) && (Open(log + [t]) <==> t == Ours(REQUEST))
  {
    assert (log + [t])[..|log + [t]| - 1] == log;
  }

  /** Where an event can lead: the connection changes hands exactly as the traffic says. */
  lemma StateFollowsTraffic(m: Machine, e: Event)
    requires Inv(m) && Defined(m, e)
    ensures var n := Next(m, e).state;
            var expected := Expected(m.state, e, n);
            && (EndsConnection(m, e) ==> Connected(m.state) && !Connected(n))
            && (!EndsConnection(m, e) && expected == [] ==> (Connected(n) <==> Connected(m.state)))
            && (expected == [REQUEST] ==> !Connected(m.state) && Connected(n))
            && (expected == [RELEASE] ==> Connected(m.state) && !Connected(n))
  {
    match e
    case SubscribeRsrc(s) =>
    case UnsubscribeRsrc(s) => LookupProps(m.subs, s);
    case RsrcGranted =>
    case RsrcReleased =>
    case RsrcDenied =>
    case DropAllSubscribers =>
  }

  lemma StepAlternates(m: Machine, e: Event, log: seq<Traffic>)
    requires Inv(m) && Defined(m, e)
    requires Alternates(log) && (Open(log) <==> Connected(m.state))
    ensures Alternates(log + TrafficOf(m, e))
    ensures Open(log + TrafficOf(m, e)) <==> Connected(Next(m, e).state)
  {
    TrafficIs(m, e);
    StateFollowsTraffic(m, e);
    hide Next, TrafficOf;
    var t := TrafficOf(m, e);
    if t == [] {
      assert log + t == log;
    } else {
      AppendAlternates(log, t[0]);
      assert t == [t[0]];
    }
  }

  lemma {:induction false} RunAlternates(m: Machine, events: seq<Event>, log: seq<Traffic>)
    requires Inv(m) && DefinedRun(m, events)
    requires Alternates(log) && (Open(log) <==> Connected(m.state))
    ensures Alternates(RunTraffic(m, events, log))
    ensures Open(RunTraffic(m, events, log)) <==> Connected(Run(m, events).state)
    decreases |events|
  {
    if events != [] {
      StepKeepsInv(m, events[0]);
      StepAlternates(m, events[0], log);
      RunAlternates(Next(m, events[0]), events[1..], log + TrafficOf(m, events[0]));
    }
  }

  /** Over every run, drops included: REQUEST is sent only when no connection is open and
      RELEASE only when one is, and one is open exactly in Pending and Acquired. */
  lemma ConnectionOverEveryRun(single: bool, events: seq<Event>)
    requires DefinedRun(Initial(single), events)
    ensures var log := RunTraffic(Initial(single), events, []);
            Alternates(log) && (Open(log) <==> Connected(Run(Initial(single), events).state))
  {
    RunAlternates(Initial(single), events, []);
  }

  // ----- The subscribers -----

  /** Entry i of the log is the last word to clone t. */
  predicate LastWordAt(m: Machine, t: nat, i: int) {
    0 <= i < |m.delivered| && m.delivered[i].to == Some(t) && m.delivered[i].status.Terminal()
  }

  ghost predicate Closed(m: Machine, t: nat) {
    exists i :: LastWordAt(m, t, i)
  }

  predicate Listed(m: Machine, t: nat) {
    exists i :: 0 <= i < |m.subs| && m.subs[i].tag == t
  }

  /** Every clone is in the list, or was flushed, or was told a terminal status: exactly one
      of the three.  A terminal status is the last thing its clone is told. */
  ghost predicate Ledger(m: Machine) {
    (forall t :: 0 <= t < m.cloned ==> Listed(m, t) || t in m.dropped || Closed(m, t)) &&
    (forall t :: t in m.dropped ==> t < m.cloned && !Listed(m, t)) &&
    (forall t: nat, i :: LastWordAt(m, t, i) ==> t < m.cloned && !Listed(m, t) && t !in m.dropped) &&
    (forall t: nat, i, j :: LastWordAt(m, t, i) && i < j < |m.delivered| ==> m.delivered[j].to != Some(t)) &&
    (forall j :: 0 <= j < |m.delivered| && m.delivered[j].to.Some? ==> m.delivered[j].to.value < m.cloned)
  }

  predicate ToldAt(told: seq<Delivery>, t: nat, k: int) {
    0 <= k < |told| && told[k].to == Some(t) && told[k].status.Terminal()
  }

  /** A step that tells each listed clone at most one thing, and unlists exactly those it
      tells something terminal and those it flushes. */
  ghost predicate Settles(m: Machine, n: Machine, told: seq<Delivery>) {
    n.delivered == m.delivered + told &&
    (forall k :: 0 <= k < |told| && told[k].to.Some? ==> Listed(m, told[k].to.value)) &&
    (forall k, l :: 0 <= k < l < |told| && told[k].to.Some? ==> told[k].to != told[l].to) &&
    m.cloned <= n.cloned && (forall t :: m.cloned <= t < n.cloned ==> Listed(n, t)) &&
    (forall t: nat :: Listed(n, t) ==> t < n.cloned && (t >= m.cloned || Listed(m, t))) &&
    (forall t: nat :: Listed(m, t) && !Listed(n, t) ==>
      t < n.cloned && (t in n.dropped || exists k :: ToldAt(told, t, k))) &&
    (forall t: nat, k :: ToldAt(told, t, k) ==> !Listed(n, t) && t !in n.dropped) &&
    m.dropped <= n.dropped &&
    (forall t :: t in n.dropped ==> !Listed(n, t) && (t in m.dropped || Listed(m, t)))
  }

  lemma SettlesKeepsLedger(m: Machine, n: Machine, told: seq<Delivery>)
    requires Ledger(m) && Settles(m, n, told)
    requires forall t: nat :: Listed(m, t) ==> t < m.cloned
    ensures Ledger(n)
  {
    var len := |m.delivered|;
    forall t: nat, i
      ensures i < len ==> (LastWordAt(n, t, i) <==> LastWordAt(m, t, i))
      ensures i >= len ==> (LastWordAt(n, t, i) <==> ToldAt(told, t, i - len))
    {
    }
    forall t | 0 <= t < n.cloned
      ensures Listed(n, t) || t in n.dropped || Closed(n, t)
    {
      if t < m.cloned && Closed(m, t) {
        var i :| LastWordAt(m, t, i);
        assert LastWordAt(n, t, i);
      } else if t < m.cloned && Listed(m, t) && !Listed(n, t) && t !in n.dropped {
        var k :| ToldAt(told, t, k);
        assert LastWordAt(n, t, len + k);
      }
    }
    forall t: nat, i, j | LastWordAt(n, t, i) && i < j < |n.delivered|
      ensures n.delivered[j].to != Some(t)
    {
      if i < len {
        assert LastWordAt(m, t, i);
      } else {
        assert ToldAt(told, t, i - len);
      }
    }
    forall t: nat, i | LastWordAt(n, t, i)
      ensures t < n.cloned && !Listed(n, t) && t !in n.dropped
    {
      if i < len {
        assert LastWordAt(m, t, i);
      } else {
        assert ToldAt(told, t, i - len);
        assert Listed(m, told[i - len].to.value);
      }
    }
  }

  lemma SameTagSameClone(subs: seq<Clone>, a: Clone, b: Clone)
    requires ListInv(subs) && a in subs && b in subs && a.tag == b.tag
    ensures a == b
  {
    var i :| 0 <= i < |subs| && subs[i] == a;
    var j :| 0 <= j < |subs| && subs[j] == b;
    assert i < j ==> Apart(subs[i], subs[j]);
    assert j < i ==> Apart(subs[j], subs[i]);
  }

  /** A clone is hit or missed, not both, also by serial number. */
  lemma HitOrMiss(subs: seq<Clone>, rcver: Receiver, t: nat)
    requires ListInv(subs)
    ensures (exists c :: c in subs && c.tag == t) <==>
            (exists c :: c in Hits(subs, rcver) && c.tag == t) || (exists c :: c in Misses(subs, rcver) && c.tag == t)
    ensures !((exists c :: c in Hits(subs, rcver) && c.tag == t) && (exists c :: c in Misses(subs, rcver) && c.tag == t))
  {
    HitsProps(subs, rcver);
    MissesProps(subs, rcver);
    if (exists c :: c in Hits(subs, rcver) && c.tag == t) && (exists c :: c in Misses(subs, rcver) && c.tag == t) {
      var a :| a in Hits(subs, rcver) && a.tag == t;
      var b :| b in Misses(subs, rcver) && b.tag == t;
      SameTagSameClone(subs, a, b);
    }
  }

  lemma ListedMeansIn(m: Machine, t: nat)
    ensures Listed(m, t) <==> exists c :: c in m.subs && c.tag == t
  {
    if Listed(m, t) {
      var i :| 0 <= i < |m.subs| && m.subs[i].tag == t;
      assert m.subs[i] in m.subs;
    }
  }

  predicate Told(told: seq<Delivery>, t: nat) {
    exists k :: 0 <= k < |told| && told[k].to == Some(t)
  }

  lemma NotifyUnlists(m: Machine, rcver: Receiver, status: Status, t: nat)
    requires Inv(m)
    ensures var n := Notify(m, rcver, status, status.Terminal());
            var told := Deliveries(Hits(m.subs, rcver), status);
            && (Listed(n, t) || Told(told, t) ==> Listed(m, t))
            && (status.Terminal() && Told(told, t) ==> !Listed(n, t))
            && (Listed(m, t) && !Listed(n, t) ==> exists k :: ToldAt(told, t, k))
  {
    HitOrMiss(m.subs, rcver, t);
    ListedMeansIn(m, t);
    ListedMeansIn(Notify(m, rcver, status, status.Terminal()), t);
    ToldAreHits(Hits(m.subs, rcver), status, t);
  }

  lemma NotifySettles(m: Machine, rcver: Receiver, status: Status)
    requires Inv(m) && Ledger(m)
    ensures Settles(m, Notify(m, rcver, status, status.Terminal()), Deliveries(Hits(m.subs, rcver), status))
  {
    var hits := Hits(m.subs, rcver);
    var told := Deliveries(hits, status);
    HitsKeepInv(m.subs, rcver);
    forall t: nat {
      NotifyUnlists(m, rcver, status, t);
    }
    forall k | 0 <= k < |told| && told[k].to.Some?
      ensures Told(told, told[k].to.value)
    {
    }
    forall k, l | 0 <= k < l < |told|
      ensures told[k].to != told[l].to
    {
      assert Apart(hits[k], hits[l]);
    }
  }

  lemma ToldAreHits(hits: seq<Clone>, status: Status, t: nat)
    ensures Told(Deliveries(hits, status), t) <==> (exists c :: c in hits && c.tag == t)
    ensures status.Terminal() && (exists c :: c in hits && c.tag == t) ==> exists k :: ToldAt(Deliveries(hits, status), t, k)
  {
    var told := Deliveries(hits, status);
    if exists c :: c in hits && c.tag == t {
      var c :| c in hits && c.tag == t;
      var k :| 0 <= k < |hits| && hits[k] == c;
      assert told[k].to == Some(t);
      assert status.Terminal() ==> ToldAt(told, t, k);
    }
    if Told(told, t) {
      var k :| 0 <= k < |told| && told[k].to == Some(t);
      assert hits[k] in hits;
    }
  }

  lemma AddSettles(m: Machine, s: Subscriber)
    requires Inv(m) && Ledger(m)
    ensures Settles(m, AddSubscriber(m, s), [])
  {
    var n := AddSubscriber(m, s);
    if n != m {
      assert n.subs[0].tag == m.cloned;
      assert forall k :: 0 <= k < |m.subs| ==> n.subs[k + 1] == m.subs[k];
      forall t: nat
        ensures Listed(n, t) <==> t == m.cloned || Listed(m, t)
      {
      }
    }
  }

  lemma LeaveSettles(m: Machine, c: Clone)
    requires Inv(m) && Ledger(m)
    ensures Ledger(Leave(m, c))
  {
    if c.sub.WaitForCloseComplete() {
      var n := Leave(m, c);
      assert forall i :: 0 <= i < |m.subs| ==> n.subs[i].tag == m.subs[i].tag;
      assert forall t: nat :: Listed(n, t) <==> Listed(m, t);
      SettlesKeepsLedger(m, n, []);
    } else {
      NotifySettles(m, One(c.sub), Unsubscribed);
      SettlesKeepsLedger(m, Leave(m, c), Deliveries(Hits(m.subs, One(c.sub)), Unsubscribed));
    }
  }

  /** The ledger looks only at the list, the clones made, the flushed ones and the deliveries. */
  lemma LedgerIgnoresTheRest(m: Machine, n: Machine)
    requires Ledger(m)
    requires n.subs == m.subs && n.cloned == m.cloned && n.dropped == m.dropped && n.delivered == m.delivered
    ensures Ledger(n)
  {
    forall t: nat, i
      ensures LastWordAt(n, t, i) <==> LastWordAt(m, t, i)
    {
    }
    forall t | 0 <= t < n.cloned
      ensures Listed(n, t) || t in n.dropped || Closed(n, t)
    {
      if Closed(m, t) {
        var i :| LastWordAt(m, t, i);
        assert LastWordAt(n, t, i);
      }
    }
  }

  lemma NotifyKeepsLedger(m: Machine, rcver: Receiver, status: Status)
    requires Inv(m) && Ledger(m)
    ensures Ledger(Notify(m, rcver, status, status.Terminal()))
  {
    NotifySettles(m, rcver, status);
    SettlesKeepsLedger(m, Notify(m, rcver, status, status.Terminal()), Deliveries(Hits(m.subs, rcver), status));
  }

  lemma HearKeepsLedger(m: Machine, s: Subscriber, status: Status)
    requires Inv(m) && Ledger(m)
    ensures Ledger(m.(delivered := m.delivered + [Delivery(None, s, status)]))
  {
    SettlesKeepsLedger(m, m.(delivered := m.delivered + [Delivery(None, s, status)]), [Delivery(None, s, status)]);
  }

  lemma SubscribeKeepsLedger(m: Machine, s: Subscriber)
    requires Inv(m) && Ledger(m)
    ensures Ledger(Next(m, SubscribeRsrc(s)))
  {
    HearKeepsLedger(m, s, Denied);
    HearKeepsLedger(m, s, Granted);
    var h := if m.state.AcquiredState? then m.(delivered := m.delivered + [Delivery(None, s, Granted)]) else m;
    AddSettles(h, s);
    SettlesKeepsLedger(h, AddSubscriber(h, s), []);
    if !(m.single && m.subs != []) {
      LedgerIgnoresTheRest(AddSubscriber(h, s), Next(m, SubscribeRsrc(s)));
    }
  }

  lemma UnsubscribeKeepsLedger(m: Machine, s: Subscriber)
    requires Inv(m) && Ledger(m)
    ensures Ledger(Next(m, UnsubscribeRsrc(s)))
  {
    LookupProps(m.subs, s);
    var c := Lookup(m.subs, s);
    if c.Some? {
      LeaveSettles(m, c.value);
      LedgerIgnoresTheRest(Leave(m, c.value), OnUnsubscribe(m, c.value));
    }
  }

  lemma ReplyKeepsLedger(m: Machine, rcver: Receiver, status: Status, n: Machine)
    requires Inv(m) && Ledger(m)
    requires var k := Notify(m, rcver, status, status.Terminal());
             n.subs == k.subs && n.cloned == k.cloned && n.dropped == k.dropped && n.delivered == k.delivered
    ensures Ledger(n)
  {
    NotifyKeepsLedger(m, rcver, status);
    LedgerIgnoresTheRest(Notify(m, rcver, status, status.Terminal()), n);
  }

  lemma DropKeepsLedger(m: Machine)
    requires Inv(m) && Ledger(m)
    ensures Ledger(Next(m, DropAllSubscribers))
  {
    var n := Next(m, DropAllSubscribers);
    forall t: nat
      ensures !Listed(n, t)
      ensures t in n.dropped <==> t in m.dropped || Listed(m, t)
    {
    }
    SettlesKeepsLedger(m, n, []);
  }

  lemma StepKeepsLedger(m: Machine, e: Event)
    requires Inv(m) && Ledger(m)
    ensures Ledger(Next(m, e))
  {
    match e
    case SubscribeRsrc(s) => SubscribeKeepsLedger(m, s);
    case UnsubscribeRsrc(s) => UnsubscribeKeepsLedger(m, s);
    case RsrcGranted =>
      if m.state.PendingState? {
        ReplyKeepsLedger(m, Active, Granted, Next(m, e));
      }
    case RsrcReleased =>
      if m.state.AcquiredState? {
        ReplyKeepsLedger(m, All, Released, Next(m, e));
      } else if m.state.ReleasingState? {
        ReplyKeepsLedger(m, Inactive, Released, Next(m, e));
      }
    case RsrcDenied =>
      if m.state.PendingState? {
        ReplyKeepsLedger(m, All, Denied, Next(m, e));
      } else if m.state.ReleasingState? {
        ReplyKeepsLedger(m, Inactive, Denied, Next(m, e));
      }
    case DropAllSubscribers => DropKeepsLedger(m);
  }

  lemma {:induction false} RunKeepsLedger(m: Machine, events: seq<Event>)
    requires Inv(m) && Ledger(m) && DefinedRun(m, events)
    ensures Ledger(Run(m, events))
    decreases |events|
  {
    if events != [] {
      StepKeepsInv(m, events[0]);
      StepKeepsLedger(m, events[0]);
      RunKeepsLedger(Next(m, events[0]), events[1..]);
    }
  }

  /** Over every run, each clone ever made is either still listed, or was flushed untold, or
      left the list with exactly one terminal status, after which it is told nothing more. */
  lemma ConservationOverEveryRun(single: bool, events: seq<Event>, t: nat)
    requires DefinedRun(Initial(single), events) && t < Run(Initial(single), events).cloned
    ensures var m := Run(Initial(single), events);
            && (Closed(m, t) <==> !Listed(m, t) && t !in m.dropped)
            && !(Listed(m, t) && t in m.dropped)
            && (forall i, j :: LastWordAt(m, t, i) && LastWordAt(m, t, j) ==> i == j)
            && (forall i, j :: LastWordAt(m, t, i) && i < j < |m.delivered| ==> m.delivered[j].to != Some(t))
  {
    RunKeepsLedger(Initial(single), events);
  }

  // ----- DSStateMachine -----

  /** DSStateMachine::onRsrcEvent: a RELEASED that changes nothing is taken as DENIED. */
  function DsReleased(m: Machine): Machine {
    var n := OnReleased(m);
    if n.state != m.state then n else OnDenied(n)
  }

  /** The invariant without the empty list of the Released state: when its request for a data call fails,
      a DSStateMachine stays Released with the subscriber listed. */
  ghost predicate DsInv(m: Machine) {
    && ListInv(m.subs)
    && (forall i :: 0 <= i < |m.subs| ==> m.subs[i].tag < m.cloned)
    && (m.single ==> |m.subs| <= 1)
  }

  /** A RELEASED therefore ends the attempt or connection that is under way, if there is one: the list is
      empty and the machine Released, or it is Pending on a new request for subscribers that arrived while
      it was Releasing. In the Released state it changes nothing, and whoever is listed stays so. */
  lemma DsReleasedEndsExactlyWhen(m: Machine)
    requires DsInv(m)
    ensures var n := DsReleased(m);
            && DsInv(n)
            && (n == m <==> m.state.ReleasedState?)
            && (!m.state.ReleasedState? ==>
                  if n.state.ReleasedState? then n.subs == [] && n.sent == m.sent
                  else m.state.ReleasingState? && n.state.PendingState? && HasActive(n.subs) && n.sent == m.sent + [REQUEST])
            && (m.state.PendingState? ==> n == Next(m, RsrcDenied))
            && (!m.state.PendingState? ==> n == Next(m, RsrcReleased))
  {
    if !m.state.ReleasedState? {
      StepKeepsInv(m, RsrcReleased);
      StepKeepsInv(m, RsrcDenied);
      GuardNeverSuppresses(m, RsrcReleased);
      GuardNeverSuppresses(m, RsrcDenied);
      if m.state.ReleasingState? {
        ClosedKeepsInv(m, Released);
      }
    }
  }
}
