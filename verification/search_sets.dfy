/**
 The open-set bookkeeping both planners share: picking the entry with the
 lowest score (`min(open_set, key=...)`) and relaxing an entry with a new
 candidate node (src/a_star_route_planner.py:84-89,
 src/hybrid_a_star_route_planner.py:88-93). Sets are maps from grid index to
 node.
 */
module SearchSets {

  /** The parent key that marks the root of a search tree. */
  const NoParent: int := -1

  /** A non-empty set has a member. */
  lemma HasMember(s: set<int>)
    requires s != {}
    ensures exists x :: x in s
  {
    if forall x :: x !in s {
      assert false;
    }
  }

  /** Some key of `open` whose node has the lowest score. Python's `min` takes
      the first minimiser in the dictionary's insertion order; any minimiser is
      allowed here. */
  method ArgMin<N>(open: map<int, N>, score: N -> real) returns (k: int)
    requires open != map[]
    ensures k in open
    ensures forall j :: j in open ==> score(open[k]) <= score(open[j])
  {
    var rest := open.Keys;
    assert open.Keys != {};
    HasMember(rest);
    k :| k in rest;
    rest := rest - {k};
    while rest != {}
      invariant rest <= open.Keys
      invariant k in open
      invariant forall j :: j in open && j !in rest ==> score(open[k]) <= score(open[j])
      decreases rest
    {
      HasMember(rest);
      var j :| j in rest;
      if score(open[j]) < score(open[k]) {
        k := j;
      }
      rest := rest - {j};
    }
  }

  /** Offer node `n` for key `k`: an unseen key takes `n`; a key already
      present takes `n` only if `n` is strictly cheaper. */
  function Relax<N>(open: map<int, N>, k: int, n: N, cost: N -> real): (r: map<int, N>)
    ensures r.Keys == open.Keys + {k}
    ensures forall j :: j in open && j != k ==> r[j] == open[j]
    ensures k !in open ==> r[k] == n
    ensures k in open && r[k] != open[k] ==> r[k] == n && cost(n) < cost(open[k])
    ensures k in open && cost(n) < cost(open[k]) ==> r[k] == n
  {
    if k !in open then open[k := n]
    else if cost(open[k]) > cost(n) then open[k := n]
    else open
  }

  /** After a relaxation the key holds the cheaper of the old entry and the
      candidate, and no stored cost has gone up. */
  lemma RelaxKeepsCheapest<N>(open: map<int, N>, k: int, n: N, cost: N -> real)
    ensures cost(Relax(open, k, n, cost)[k]) <= cost(n)
    ensures k in open ==> cost(Relax(open, k, n, cost)[k]) <= cost(open[k])
    ensures forall j :: j in open ==> cost(Relax(open, k, n, cost)[j]) <= cost(open[j])
  {
  }

  /** Every closing-order number is below n. */
  ghost predicate RankedBelow(rank: map<int, nat>, n: nat)
  {
    forall k :: k in rank ==> rank[k] < n
  }

  /** Closing a key not yet closed adds exactly one entry. */
  lemma ClosingAddsOne<N>(closed: map<int, N>, k: int, n: N)
    requires k !in closed
    ensures |closed[k := n]| == |closed| + 1
  {
    assert closed[k := n].Keys == closed.Keys + {k};
  }
}
