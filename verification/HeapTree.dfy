/** The heap of gps/utils/LocHeap.cpp as a value: what push, pop and remove do to the shape,
    the cached sizes and the data of a tree of nodes, and what they keep.

    LocHeap.dfy proves that the pointer code computes exactly these functions. */
module HeapTree {
  import opened Wrappers

  /** What a LocRankable pointer refers to: an object with an identity and an immutable time.
      Only the seconds take part in ranking (LocTimer.cpp:503-512). */
  datatype Rankable = Rankable(addr: nat, sec: int, nsec: int)

  predicate OutRanks(a: Rankable, b: Rankable) {
    b.sec - a.sec > 0
  }

  /** `size` is the cached mSize; nothing ties it to the number of nodes but the code. */
  datatype Tree = Nil | Node(size: int, data: Rankable, left: Tree, right: Tree)

  // ----- The operations -----

  function Single(x: Rankable): Tree {
    Node(1, x, Nil, Nil)
  }

  function Push(t: Tree, x: Rankable): Tree {
    match t
    case Nil => Single(x)
    case Node(size, data, left, right) =>
      var high := if OutRanks(x, data) then x else data;
      var low := if OutRanks(x, data) then data else x;
      if left.Nil? then Node(size + 1, high, Single(low), right)
      else if right.Nil? then Node(size + 1, high, left, Single(low))
      else if left.size <= right.size then Node(size + 1, high, Push(left, low), right)
      else Node(size + 1, high, left, Push(right, low))
  }

  /** The tree without its top's data. */
  function Pop(t: Tree): Tree
    requires t.Node?
  {
    if t.left.Nil? && t.right.Nil? then Nil
    else if t.left.Nil? || (t.right.Node? && !OutRanks(t.left.data, t.right.data)) then
      Node(t.size - 1, t.right.data, t.left, Pop(t.right))
    else
      Node(t.size - 1, t.left.data, Pop(t.left), t.right)
  }

  /** Removal by identity, and whether it succeeded.  A subtree is entered only when x does
      not outrank its top. */
  function Remove(t: Tree, x: Rankable): (Tree, bool)
    requires t.Node?
  {
    if x == t.data then (Pop(t), true)
    else if OutRanks(x, t.data) then (t, false)
    else
      var l := if t.left.Node? then Remove(t.left, x) else (Nil, false);
      if l.1 then (Node(t.size - 1, t.data, l.0, t.right), true)
      else
        var r := if t.right.Node? then Remove(t.right, x) else (Nil, false);
        if r.1 then (Node(t.size - 1, t.data, t.left, r.0), true) else (t, false)
  }

  function PeekOf(t: Tree): Option<Rankable> {
    if t.Nil? then None else Some(t.data)
  }

  function RemoveFrom(t: Tree, x: Rankable): Tree {
    if t.Nil? then Nil else Remove(t, x).0
  }

  // ----- What a healthy heap is -----

  function Count(t: Tree): nat {
    match t
    case Nil => 0
    case Node(_, _, left, right) => 1 + Count(left) + Count(right)
  }

  /** Every cached size is the number of nodes below and including the node. */
  predicate SizesOk(t: Tree) {
    match t
    case Nil => true
    case Node(size, _, left, right) =>
      size == 1 + Count(left) + Count(right) && SizesOk(left) && SizesOk(right)
  }

  predicate TopBelow(t: Tree, x: Rankable) {
    t.Node? ==> !OutRanks(t.data, x)
  }

  /** No child outranks its parent. */
  predicate Ordered(t: Tree) {
    match t
    case Nil => true
    case Node(_, data, left, right) =>
      TopBelow(left, data) && TopBelow(right, data) && Ordered(left) && Ordered(right)
  }

  function Elements(t: Tree): multiset<Rankable> {
    match t
    case Nil => multiset{}
    case Node(_, data, left, right) => multiset{data} + Elements(left) + Elements(right)
  }

  function Copies(t: Tree, y: Rankable): nat {
    match t
    case Nil => 0
    case Node(_, data, left, right) => (if data == y then 1 else 0) + Copies(left, y) + Copies(right, y)
  }

  lemma {:induction false} CopiesAreElements(t: Tree, y: Rankable)
    ensures Elements(t)[y] == Copies(t, y)
  {
    if t.Node? {
      CopiesAreElements(t.left, y);
      CopiesAreElements(t.right, y);
    }
  }

  /** Trees whose counts of every element differ by one x hold the same elements but for it. */
  lemma OneMore(t: Tree, u: Tree, x: Rankable)
    requires forall y :: Copies(t, y) == Copies(u, y) + if x == y then 1 else 0
    ensures Elements(t) == Elements(u) + multiset{x}
  {
    hide *;
    forall y
      ensures Elements(t)[y] == (Elements(u) + multiset{x})[y]
    {
      CopiesAreElements(t, y);
      CopiesAreElements(u, y);
    }
  }

  /** The left side has as many nodes as the right or one more, at every node. */
  predicate Balanced(t: Tree) {
    match t
    case Nil => true
    case Node(_, _, left, right) =>
      Count(right) <= Count(left) <= Count(right) + 1 && Balanced(left) && Balanced(right)
  }

  function Height(t: Tree): nat {
    match t
    case Nil => 0
    case Node(_, _, left, right) => 1 + if Height(left) > Height(right) then Height(left) else Height(right)
  }

  predicate Healthy(t: Tree) {
    SizesOk(t) && Ordered(t)
  }

  /** The self-check of lines 197-220. */
  predicate CheckNodes(t: Tree)
    requires t.Node?
  {
    (t.left.Node? ==> !OutRanks(t.left.data, t.data) && CheckNodes(t.left)) &&
    (t.right.Node? ==> !OutRanks(t.right.data, t.data) && CheckNodes(t.right)) &&
    t.size - (if t.left.Node? then t.left.size else 0) - (if t.right.Node? then t.right.size else 0) == 1
  }

  /** checkNodes accepts exactly the healthy heaps. */
  lemma {:induction false} CheckNodesIsHealthy(t: Tree)
    requires t.Node?
    ensures CheckNodes(t) <==> Healthy(t)
  {
    if t.left.Node? {
      CheckNodesIsHealthy(t.left);
    } else {
      assert Count(t.left) == 0 && Healthy(t.left);
    }
    if t.right.Node? {
      CheckNodesIsHealthy(t.right);
    } else {
      assert Count(t.right) == 0 && Healthy(t.right);
    }
  }

  // ----- What the operations keep -----

  /** The top of a heap ranks highest. */
  lemma {:induction false} TopIsHighest(t: Tree, x: Rankable)
    requires t.Node? && Ordered(t) && x in Elements(t)
    ensures !OutRanks(x, t.data)
  {
    if x in Elements(t.left) {
      TopIsHighest(t.left, x);
    } else if x in Elements(t.right) {
      TopIsHighest(t.right, x);
    }
  }

  lemma {:induction false} PushSizes(t: Tree, x: Rankable)
    requires SizesOk(t)
    ensures SizesOk(Push(t, x)) && Count(Push(t, x)) == Count(t) + 1
  {
    if t.Node? && t.left.Node? && t.right.Node? {
      var low := if OutRanks(x, t.data) then t.data else x;
      PushSizes(t.left, low);
      PushSizes(t.right, low);
    }
  }

  lemma {:induction false} PushOrder(t: Tree, x: Rankable)
    requires Ordered(t)
    ensures Ordered(Push(t, x))
    ensures Push(t, x).data == if t.Nil? || OutRanks(x, t.data) then x else t.data
  {
    if t.Node? && t.left.Node? && t.right.Node? {
      var low := if OutRanks(x, t.data) then t.data else x;
      PushOrder(t.left, low);
      PushOrder(t.right, low);
    }
  }

  lemma {:induction false} PushCopies(t: Tree, x: Rankable, y: Rankable)
    ensures Copies(Push(t, x), y) == Copies(t, y) + if x == y then 1 else 0
  {
    if t.Node? && t.left.Node? && t.right.Node? {
      var low := if OutRanks(x, t.data) then t.data else x;
      PushCopies(t.left, low, y);
      PushCopies(t.right, low, y);
    }
  }

  /** Push keeps order and sizes, adds exactly x, and replaces the top only if x outranks it. */
  lemma PushKeeps(t: Tree, x: Rankable)
    requires Healthy(t)
    ensures Healthy(Push(t, x))
    ensures Elements(Push(t, x)) == Elements(t) + multiset{x}
    ensures Push(t, x).data == if t.Nil? || OutRanks(x, t.data) then x else t.data
  {
    PushSizes(t, x);
    PushOrder(t, x);
    forall y {
      PushCopies(t, x, y);
    }
    OneMore(Push(t, x), t, x);
  }

  lemma {:induction false} PopSizes(t: Tree)
    requires t.Node? && SizesOk(t)
    ensures SizesOk(Pop(t)) && Count(Pop(t)) == Count(t) - 1
  {
    if t.left.Node? {
      PopSizes(t.left);
    }
    if t.right.Node? {
      PopSizes(t.right);
    }
  }

  lemma {:induction false} PopOrder(t: Tree)
    requires t.Node? && Ordered(t)
    ensures Ordered(Pop(t)) && TopBelow(Pop(t), t.data)
  {
    if t.left.Node? {
      PopOrder(t.left);
    }
    if t.right.Node? {
      PopOrder(t.right);
    }
  }

  lemma {:induction false} PopCopies(t: Tree, y: Rankable)
    requires t.Node?
    ensures Copies(t, y) == Copies(Pop(t), y) + if t.data == y then 1 else 0
  {
    if t.left.Node? {
      PopCopies(t.left, y);
    }
    if t.right.Node? {
      PopCopies(t.right, y);
    }
  }

  /** Pop keeps order and sizes and takes out exactly the top. */
  lemma PopKeeps(t: Tree)
    requires t.Node? && Healthy(t)
    ensures Healthy(Pop(t)) && Count(Pop(t)) == Count(t) - 1
    ensures Elements(t) == Elements(Pop(t)) + multiset{t.data}
    ensures TopBelow(Pop(t), t.data)
  {
    PopSizes(t);
    PopOrder(t);
    forall y {
      PopCopies(t, y);
    }
    OneMore(t, Pop(t), t.data);
  }

  /** Pop brings up the higher of the two children, and of equals the right one, which it is popped from in
      turn; the other side stays as it is. */
  lemma PopPromotes(t: Tree)
    requires t.Node?
    ensures Pop(t).Nil? <==> t.left.Nil? && t.right.Nil?
    ensures Pop(t).Node? ==>
              || (t.left.Node? && Pop(t).data == t.left.data && Pop(t).left == Pop(t.left) && Pop(t).right == t.right
                  && (t.right.Node? ==> OutRanks(t.left.data, t.right.data)))
              || (t.right.Node? && Pop(t).data == t.right.data && Pop(t).right == Pop(t.right) && Pop(t).left == t.left
                  && (t.left.Node? ==> !OutRanks(t.left.data, t.right.data)))
  {
  }

  lemma {:induction false} RemoveSizes(t: Tree, x: Rankable)
    requires t.Node? && SizesOk(t)
    ensures var (u, found) := Remove(t, x);
            SizesOk(u) && Count(u) == Count(t) - if found then 1 else 0
  {
    if x == t.data {
      PopSizes(t);
    } else if !OutRanks(x, t.data) {
      if t.left.Node? {
        RemoveSizes(t.left, x);
      }
      if t.right.Node? {
        RemoveSizes(t.right, x);
      }
    }
  }

  lemma {:induction false} RemoveOrder(t: Tree, x: Rankable)
    requires t.Node? && Ordered(t)
    ensures var (u, _) := Remove(t, x); Ordered(u) && TopBelow(u, t.data)
  {
    if x == t.data {
      PopOrder(t);
    } else if !OutRanks(x, t.data) {
      if t.left.Node? {
        RemoveOrder(t.left, x);
      }
      if t.right.Node? {
        RemoveOrder(t.right, x);
      }
    }
  }

  lemma {:induction false} RemoveCopies(t: Tree, x: Rankable, y: Rankable)
    requires t.Node?
    ensures var (u, found) := Remove(t, x);
            if found then Copies(t, y) == Copies(u, y) + (if x == y then 1 else 0) else u == t
  {
    if x == t.data {
      PopCopies(t, y);
    } else if !OutRanks(x, t.data) {
      if t.left.Node? {
        RemoveCopies(t.left, x, y);
      }
      if t.right.Node? {
        RemoveCopies(t.right, x, y);
      }
    }
  }

  lemma {:induction false} RemoveFinds(t: Tree, x: Rankable)
    requires t.Node? && Ordered(t)
    ensures Remove(t, x).1 <==> Copies(t, x) > 0
  {
    CopiesAreElements(t, x);
    if x in Elements(t) {
      TopIsHighest(t, x);
    }
    RemoveCopies(t, x, x);
    if t.left.Node? {
      RemoveFinds(t.left, x);
    }
    if t.right.Node? {
      RemoveFinds(t.right, x);
    }
  }

  /** Remove succeeds exactly when x is in the heap, despite entering only the subtrees whose
      top x does not outrank; it then takes out exactly x.  Otherwise nothing changes.  The top
      changes only when it is x. */
  lemma RemoveKeeps(t: Tree, x: Rankable)
    requires t.Node? && Healthy(t)
    ensures var (u, found) := Remove(t, x);
            && Healthy(u)
            && (found <==> x in Elements(t))
            && (if found then Elements(t) == Elements(u) + multiset{x} else u == t)
            && (x != t.data ==> u.Node? && u.data == t.data)
  {
    RemoveSizes(t, x);
    RemoveOrder(t, x);
    RemoveFinds(t, x);
    CopiesAreElements(t, x);
    forall y {
      RemoveCopies(t, x, y);
    }
    if Remove(t, x).1 {
      OneMore(t, Remove(t, x).0, x);
    }
  }

  lemma RemoveFromKeeps(t: Tree, x: Rankable)
    requires Healthy(t)
    ensures Healthy(RemoveFrom(t, x))
    ensures x in Elements(t) <==> t.Node? && Remove(t, x).1
    ensures t.Node? && x != t.data ==> PeekOf(RemoveFrom(t, x)) == Some(t.data)
  {
    if t.Node? {
      RemoveKeeps(t, x);
    }
  }

  // ----- Balance -----

  /** Push preserves balance. */
  lemma {:induction false} PushKeepsBalance(t: Tree, x: Rankable)
    requires Balanced(t) && SizesOk(t)
    ensures Balanced(Push(t, x))
  {
    if t.Node? && t.left.Node? && t.right.Node? {
      var low := if OutRanks(x, t.data) then t.data else x;
      PushSizes(t.left, low);
      PushSizes(t.right, low);
      PushKeepsBalance(t.left, low);
      PushKeepsBalance(t.right, low);
    }
  }

  function Pow2(n: nat): nat {
    if n == 0 then 1 else 2 * Pow2(n - 1)
  }

  /** 2^(height-1) <= count, that is height <= floor(log2 count) + 1. */
  lemma {:induction false} BalancedIsShallow(t: Tree)
    requires t.Node? && Balanced(t)
    ensures Pow2(Height(t) - 1) <= Count(t)
  {
    if t.left.Node? {
      BalancedIsShallow(t.left);
    }
    if t.right.Node? {
      BalancedIsShallow(t.right);
    }
  }

  /** The heap built by pushing xs in order into an empty heap. */
  function PushAll(xs: seq<Rankable>): Tree {
    if xs == [] then Nil else Push(PushAll(xs[..|xs| - 1]), xs[|xs| - 1])
  }

  lemma {:induction false} BuiltHeapHolds(xs: seq<Rankable>)
    ensures Healthy(PushAll(xs)) && Elements(PushAll(xs)) == multiset(xs)
  {
    hide Healthy, Elements, Push;
    if xs == [] {
      NilIsEmpty();
    } else {
      var last := xs[|xs| - 1];
      var t := PushAll(xs[..|xs| - 1]);
      BuiltHeapHolds(xs[..|xs| - 1]);
      PushKeeps(t, last);
      SplitLast(xs);
      assert PushAll(xs) == Push(t, last);
    }
  }

  lemma NilIsEmpty()
    ensures Healthy(Nil) && Elements(Nil) == multiset{}
  {
  }

  lemma SplitLast(xs: seq<Rankable>)
    requires xs != []
    ensures multiset(xs) == multiset(xs[..|xs| - 1]) + multiset{xs[|xs| - 1]}
  {
    assert xs == xs[..|xs| - 1] + [xs[|xs| - 1]];
  }

  lemma NilIsBalanced()
    ensures SizesOk(Nil) && Balanced(Nil) && Count(Nil) == 0
  {
  }

  lemma {:induction false} BuiltHeapShape(xs: seq<Rankable>)
    ensures SizesOk(PushAll(xs)) && Balanced(PushAll(xs)) && Count(PushAll(xs)) == |xs|
  {
    hide SizesOk, Balanced, Count, Push;
    if xs == [] {
      NilIsBalanced();
    } else {
      var front, last := xs[..|xs| - 1], xs[|xs| - 1];
      BuiltHeapShape(front);
      PushSizes(PushAll(front), last);
      PushKeepsBalance(PushAll(front), last);
    }
  }

  /** A heap built by n pushes holds exactly what was pushed and has logarithmic height. */
  lemma BuiltHeap(xs: seq<Rankable>)
    ensures Healthy(PushAll(xs)) && Elements(PushAll(xs)) == multiset(xs)
    ensures xs != [] ==> Pow2(Height(PushAll(xs)) - 1) <= |xs|
  {
    hide Healthy, Elements, SizesOk, Balanced, PushAll, Height, Pow2;
    BuiltHeapHolds(xs);
    BuiltHeapShape(xs);
    if xs != [] {
      BalancedIsShallow(PushAll(xs));
    }
  }

  /** What repeated pops deliver. */
  function PopAll(t: Tree): seq<Rankable>
    requires SizesOk(t)
    decreases Count(t)
  {
    if t.Nil? then [] else
      PopSizes(t);
      [t.data] + PopAll(Pop(t))
  }

  /** Popping a heap empty delivers each of its elements once. */
  lemma {:induction false} PopAllDelivers(t: Tree)
    requires Healthy(t)
    ensures multiset(PopAll(t)) == Elements(t)
    decreases Count(t)
  {
    if t.Node? {
      PopKeeps(t);
      PopAllDelivers(Pop(t));
    }
  }

  lemma LaterPopsRankLower(t: Tree, x: Rankable)
    requires t.Node? && Healthy(t) && Healthy(Pop(t)) && x in PopAll(Pop(t))
    ensures !OutRanks(x, t.data)
  {
    PopKeeps(t);
    PopAllDelivers(Pop(t));
    assert x in multiset(PopAll(Pop(t)));
    TopIsHighest(t, x);
  }

  /** Popping a heap empty delivers its elements so that none outranks an earlier one. */
  lemma {:induction false} PopAllSorts(t: Tree)
    requires Healthy(t)
    ensures forall i, j :: 0 <= i < j < |PopAll(t)| ==> !OutRanks(PopAll(t)[j], PopAll(t)[i])
    decreases Count(t)
  {
    if t.Node? {
      PopSizes(t);
      PopOrder(t);
      var rest := PopAll(Pop(t));
      PopAllSorts(Pop(t));
      forall x | x in rest
        ensures !OutRanks(x, t.data)
      {
        LaterPopsRankLower(t, x);
      }
      assert PopAll(t) == [t.data] + rest;
    }
  }
}
