/** What it means that a sequence is made of the wanted elements of another: each of them once, in their
    order, and nothing else. The loops that filter, notify or print a list are held against this. */
module Selections {
  /** ix lists the positions of the wanted elements, in order; part holds what they are turned into. */
  ghost predicate SelectedAt<A, B>(whole: seq<A>, part: seq<B>, wanted: A -> bool, turned: A -> B, ix: seq<int>) {
    && |ix| == |part|
    && InRange(whole, ix) && Turns(whole, part, turned, ix)
    && Rising(ix) && PointsAt(whole, wanted, ix)
  }

  ghost predicate InRange<A>(whole: seq<A>, ix: seq<int>) {
    forall k :: 0 <= k < |ix| ==> 0 <= ix[k] < |whole|
  }

  ghost predicate Turns<A, B>(whole: seq<A>, part: seq<B>, turned: A -> B, ix: seq<int>)
    requires |ix| == |part| && InRange(whole, ix)
  {
    forall k :: 0 <= k < |ix| ==> part[k] == turned(whole[ix[k]])
  }

  predicate Rising(ix: seq<int>) {
    forall k, l :: 0 <= k < l < |ix| ==> ix[k] < ix[l]
  }

  ghost predicate PointsAt<A>(whole: seq<A>, wanted: A -> bool, ix: seq<int>) {
    forall i :: 0 <= i < |whole| ==> (wanted(whole[i]) <==> i in ix)
  }

  ghost predicate Selects<A, B>(whole: seq<A>, part: seq<B>, wanted: A -> bool, turned: A -> B) {
    exists ix :: SelectedAt(whole, part, wanted, turned, ix)
  }

  lemma SelectsNothing<A, B>(wanted: A -> bool, turned: A -> B)
    ensures Selects([], [], wanted, turned)
  {
    assert SelectedAt([], [], wanted, turned, []);
  }

  /** One more element at the end. */
  lemma SelectsLast<A, B>(whole: seq<A>, part: seq<B>, wanted: A -> bool, turned: A -> B, x: A)
    requires Selects(whole, part, wanted, turned)
    ensures Selects(whole + [x], part + (if wanted(x) then [turned(x)] else []), wanted, turned)
  {
    var ix :| SelectedAt(whole, part, wanted, turned, ix);
    var all := whole + [x];
    var more := ix + if wanted(x) then [|whole|] else [];
    LastIsPointedAt(whole, wanted, ix, x);
    hide PointsAt;
    assert SelectedAt(all, part + (if wanted(x) then [turned(x)] else []), wanted, turned, more);
  }

  lemma LastIsPointedAt<A>(whole: seq<A>, wanted: A -> bool, ix: seq<int>, x: A)
    requires InRange(whole, ix) && PointsAt(whole, wanted, ix)
    ensures PointsAt(whole + [x], wanted, ix + if wanted(x) then [|whole|] else [])
  {
    assert |whole| !in ix;
  }

  /** The selection without its last element, from the whole without its last element. */
  lemma FrontSelects<A, B>(whole: seq<A>, part: seq<B>, wanted: A -> bool, turned: A -> B)
    requires whole != [] && Selects(whole, part, wanted, turned)
    ensures var x, front := whole[|whole| - 1], whole[..|whole| - 1];
            if wanted(x) then
              part != [] && part[|part| - 1] == turned(x) && Selects(front, part[..|part| - 1], wanted, turned)
            else Selects(front, part, wanted, turned)
  {
    hide SelectedAt;
    var ix :| SelectedAt(whole, part, wanted, turned, ix);
    FrontSelectedAt(whole, part, wanted, turned, ix);
    var front := whole[..|whole| - 1];
    if wanted(whole[|whole| - 1]) {
      assert SelectedAt(front, part[..|part| - 1], wanted, turned, ix[..|ix| - 1]);
    } else {
      assert SelectedAt(front, part, wanted, turned, ix);
    }
  }

  lemma FrontSelectedAt<A, B>(whole: seq<A>, part: seq<B>, wanted: A -> bool, turned: A -> B, ix: seq<int>)
    requires whole != [] && SelectedAt(whole, part, wanted, turned, ix)
    ensures |ix| == |part|
    ensures var x, front := whole[|whole| - 1], whole[..|whole| - 1];
            if wanted(x) then
              && part != [] && part[|part| - 1] == turned(x)
              && SelectedAt(front, part[..|part| - 1], wanted, turned, ix[..|ix| - 1])
            else SelectedAt(front, part, wanted, turned, ix)
  {
    FrontIsPointedAt(whole, part, wanted, turned, ix);
    var n := |whole| - 1;
    if wanted(whole[n]) {
      RisingFront(ix);
      FrontTurns(whole, part, turned, ix);
    } else {
      assert Turns(whole[..n], part, turned, ix);
    }
    hide Rising, PointsAt, Turns;
  }

  lemma FrontTurns<A, B>(whole: seq<A>, part: seq<B>, turned: A -> B, ix: seq<int>)
    requires whole != [] && |ix| == |part| > 0 && InRange(whole, ix) && Turns(whole, part, turned, ix)
    requires forall k :: 0 <= k < |ix| - 1 ==> ix[k] < |whole| - 1
    ensures InRange(whole[..|whole| - 1], ix[..|ix| - 1])
    ensures Turns(whole[..|whole| - 1], part[..|part| - 1], turned, ix[..|ix| - 1])
  {
    var front, less := whole[..|whole| - 1], ix[..|ix| - 1];
    forall k | 0 <= k < |less|
      ensures part[..|part| - 1][k] == turned(front[less[k]])
    {
      assert part[k] == turned(whole[ix[k]]);
    }
  }

  lemma RisingFront(ix: seq<int>)
    requires ix != [] && Rising(ix)
    ensures Rising(ix[..|ix| - 1])
    ensures forall k :: 0 <= k < |ix| - 1 ==> ix[k] < ix[|ix| - 1]
  {
  }

  lemma FrontIsPointedAt<A, B>(whole: seq<A>, part: seq<B>, wanted: A -> bool, turned: A -> B, ix: seq<int>)
    requires SelectedAt(whole, part, wanted, turned, ix) && whole != []
    ensures var n := |whole| - 1;
            if wanted(whole[n]) then ix != [] && ix[|ix| - 1] == n && PointsAt(whole[..n], wanted, ix[..|ix| - 1])
            else (forall k :: 0 <= k < |ix| ==> ix[k] < n) && PointsAt(whole[..n], wanted, ix)
  {
    var n := |whole| - 1;
    if wanted(whole[n]) {
      LastIsLast(whole, part, wanted, turned, ix);
      assert ix == ix[..|ix| - 1] + [n];
      hide Rising;
      forall i | 0 <= i < n
        ensures wanted(whole[..n][i]) <==> i in ix[..|ix| - 1]
      {
        assert wanted(whole[i]) <==> i in ix;
      }
    } else {
      hide Rising;
      forall k | 0 <= k < |ix|
        ensures ix[k] < n
      {
        assert ix[k] in ix;
      }
      forall i | 0 <= i < n
        ensures wanted(whole[..n][i]) <==> i in ix
      {
        assert wanted(whole[i]) <==> i in ix;
      }
    }
  }

  lemma LastIsLast<A, B>(whole: seq<A>, part: seq<B>, wanted: A -> bool, turned: A -> B, ix: seq<int>)
    requires SelectedAt(whole, part, wanted, turned, ix) && whole != [] && wanted(whole[|whole| - 1])
    ensures ix != [] && ix[|ix| - 1] == |whole| - 1
  {
    var n := |whole| - 1;
    assert n in ix;
    var k :| 0 <= k < |ix| && ix[k] == n;
    assert k < |ix| - 1 ==> ix[k] < ix[|ix| - 1];
  }

  /** There is one selection only. */
  lemma {:induction false} SelectsOne<A, B>(whole: seq<A>, p: seq<B>, q: seq<B>, wanted: A -> bool, turned: A -> B)
    requires Selects(whole, p, wanted, turned) && Selects(whole, q, wanted, turned)
    ensures p == q
  {
    hide Selects;
    if whole == [] {
      NothingSelected(p, wanted, turned);
      NothingSelected(q, wanted, turned);
    } else {
      FrontSelects(whole, p, wanted, turned);
      FrontSelects(whole, q, wanted, turned);
      var front := whole[..|whole| - 1];
      if wanted(whole[|whole| - 1]) {
        SelectsOne(front, p[..|p| - 1], q[..|q| - 1], wanted, turned);
        assert p == p[..|p| - 1] + [p[|p| - 1]] && q == q[..|q| - 1] + [q[|q| - 1]];
      } else {
        SelectsOne(front, p, q, wanted, turned);
      }
    }
  }

  lemma NothingSelected<A, B>(part: seq<B>, wanted: A -> bool, turned: A -> B)
    requires Selects([], part, wanted, turned)
    ensures part == []
  {
    var ix :| SelectedAt([], part, wanted, turned, ix);
    if part != [] {
      var first := ix[0];
      assert false;
    }
  }
}
