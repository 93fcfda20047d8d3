/**
 * The Euler tests and repairs of `Atividade01/main.cpp`: `isEulerian` (every
 * list of even length), `makeEulerian` (pair up the odd-degree vertices with
 * new edges) and `createCompleteEulerianGraph` (the complete graph, less a
 * perfect matching when `V` is even).
 */
module EulerRepair {
  import opened EulerGraph

  /** Every vertex has even degree. */
  ghost predicate AllEven(adj: seq<seq<int>>) {
    forall i :: 0 <= i < |adj| ==> |adj[i]| % 2 == 0
  }

  /** `isEulerian(g)`: the first odd list found answers false. */
  method IsEulerian(g: Graph) returns (r: bool)
    requires g.Valid()
    ensures r <==> AllEven(g.adj)
  {
    var i := 0;
    while i < g.V
      invariant 0 <= i <= g.V
      invariant forall k :: 0 <= k < i ==> |g.adj[k]| % 2 == 0
    {
      if |g.adj[i]| % 2 != 0 {
        return false;
      }
      i := i + 1;
    }
    return true;
  }

  /** The odd-degree vertices below `k`, in increasing order. */
  function OddsBelow(adj: seq<seq<int>>, k: int): seq<int>
    requires 0 <= k <= |adj|
  {
    if k == 0 then [] else OddsBelow(adj, k - 1) + (if |adj[k - 1]| % 2 != 0 then [k - 1] else [])
  }

  /** `OddsBelow` lists each odd-degree vertex below `k` once, and nothing else. */
  lemma {:induction false} OddsBelowFacts(adj: seq<seq<int>>, k: int)
    requires 0 <= k <= |adj|
    ensures NoDup(OddsBelow(adj, k))
    ensures forall x :: x in OddsBelow(adj, k) <==> 0 <= x < k && |adj[x]| % 2 != 0
  {
    if k > 0 {
      OddsBelowFacts(adj, k - 1);
    }
  }

  /** `addEdge` of one pair, where both ends name lists. */
  function Join(a: seq<seq<int>>, e: (int, int)): (r: seq<seq<int>>)
    ensures |r| == |a|
  {
    if 0 <= e.0 < |a| && 0 <= e.1 < |a| then AddEdgeAdj(a, e.0, e.1) else a
  }

  /** The lists after `addEdge` of each pair of `es` in turn. */
  function AddAll(adj: seq<seq<int>>, es: seq<(int, int)>): (r: seq<seq<int>>)
    ensures |r| == |adj|
    decreases |es|
  {
    if es == [] then adj else Join(AddAll(adj, es[..|es| - 1]), es[|es| - 1])
  }

  lemma AddAllSnoc(adj: seq<seq<int>>, es: seq<(int, int)>, e: (int, int))
    requires 0 <= e.0 < |adj| && 0 <= e.1 < |adj|
    ensures AddAll(adj, es + [e]) == AddEdgeAdj(AddAll(adj, es), e.0, e.1)
  {
    assert (es + [e])[..|es|] == es;
  }

  /**
   * The pairs are edges between two distinct vertices of odd degree in
   * `adj0` that are not adjacent there, and no vertex is in two pairs.
   */
  ghost predicate Matching(adj0: seq<seq<int>>, es: seq<(int, int)>) {
    (forall k :: 0 <= k < |es| ==>
       0 <= es[k].0 < |adj0| && 0 <= es[k].1 < |adj0| && es[k].0 != es[k].1 &&
       |adj0[es[k].0]| % 2 != 0 && |adj0[es[k].1]| % 2 != 0 && es[k].1 !in adj0[es[k].0]) &&
    (forall k, l :: 0 <= k < l < |es| ==>
       es[k].0 != es[l].0 && es[k].0 != es[l].1 && es[k].1 != es[l].0 && es[k].1 != es[l].1)
  }

  /** `odds` is a rearrangement of `O` without repeats, over odd-degree vertices of `adj0`. */
  ghost predicate Rearranged(adj0: seq<seq<int>>, O: seq<int>, odds: seq<int>) {
    multiset(odds) == multiset(O) && NoDup(odds) && AllOdd(adj0, odds)
  }

  /** Every entry of `s` is a vertex of odd degree in `adj0`. */
  ghost predicate AllOdd(adj0: seq<seq<int>>, s: seq<int>) {
    forall i :: 0 <= i < |s| ==> 0 <= s[i] < |adj0| && |adj0[s[i]]| % 2 != 0
  }

  /**
   * The first `k` entries of `odds` have been paired by the edges `added`:
   * they have gained one entry each, the other lists are untouched. (That
   * `adj` is `AddAll(adj0, added)` is kept beside this, in the loop.)
   */
  ghost predicate Paired(adj0: seq<seq<int>>, odds: seq<int>, k: int, adj: seq<seq<int>>, added: seq<(int, int)>) {
    0 <= k <= |odds| && |adj| == |adj0| && 2 * |added| == k && Matching(adj0, added) &&
    (forall e :: e in added ==> e.0 in odds[..k] && e.1 in odds[..k]) &&
    (forall x :: 0 <= x < |adj0| && x !in odds[..k] ==> adj[x] == adj0[x]) &&
    (forall x :: 0 <= x < |adj0| && x in odds[..k] ==> |adj[x]| == |adj0[x]| + 1)
  }

  /**
   * Where the pairing loop of `makeEulerian` gives up: `odds[k + 1]` and
   * every later `odds[j]` are already listed as neighbours of `odds[k]`.
   */
  ghost predicate Stuck(adj: seq<seq<int>>, odds: seq<int>, k: int) {
    0 <= k && k + 1 < |odds| && 0 <= odds[k] < |adj| && odds[k + 1] in adj[odds[k]] &&
    forall j :: k + 2 <= j < |odds| ==> odds[j] in adj[odds[k]]
  }

  /** The invariant of the pairing loop of `makeEulerian` at position `k`. */
  ghost predicate Pairing(adj0: seq<seq<int>>, O: seq<int>, odds: seq<int>, k: int, adj: seq<seq<int>>, added: seq<(int, int)>) {
    Rearranged(adj0, O, odds) && Paired(adj0, odds, k, adj, added)
  }

  lemma PairingStart(adj0: seq<seq<int>>, O: seq<int>)
    requires O == OddsBelow(adj0, |adj0|)
    ensures Pairing(adj0, O, O, 0, adj0, [])
  {
    OddsBelowFacts(adj0, |adj0|);
    forall i | 0 <= i < |O| ensures 0 <= O[i] < |adj0| && |adj0[O[i]]| % 2 != 0 {
      assert O[i] in O;
    }
  }

  /** `swap(odds[k + 1], odds[j])` keeps the invariant. */
  lemma SwapOk(adj0: seq<seq<int>>, O: seq<int>, odds: seq<int>, k: int, adj: seq<seq<int>>, added: seq<(int, int)>, j: int)
    requires Pairing(adj0, O, odds, k, adj, added) && k + 1 < j < |odds|
    ensures Pairing(adj0, O, odds[k + 1 := odds[j]][j := odds[k + 1]], k, adj, added)
  {
    var s := odds[k + 1 := odds[j]][j := odds[k + 1]];
    assert s[..k] == odds[..k];
    SwapRearranged(adj0, O, odds, k + 1, j);
  }

  lemma SwapRearranged(adj0: seq<seq<int>>, O: seq<int>, odds: seq<int>, i: int, j: int)
    requires Rearranged(adj0, O, odds) && 0 <= i < j < |odds|
    ensures Rearranged(adj0, O, odds[i := odds[j]][j := odds[i]])
  {
    SwapMultiset(odds, i, j);
    SwapNoDup(odds, i, j);
    SwapOdd(adj0, odds, i, j);
  }

  lemma SwapMultiset(odds: seq<int>, i: int, j: int)
    requires 0 <= i < j < |odds|
    ensures multiset(odds[i := odds[j]][j := odds[i]]) == multiset(odds)
  {
    var t := odds[i := odds[j]];
    assert multiset(t) == multiset(odds) - multiset{odds[i]} + multiset{odds[j]};
  }

  lemma SwapNoDup(odds: seq<int>, i: int, j: int)
    requires NoDup(odds) && 0 <= i < j < |odds|
    ensures NoDup(odds[i := odds[j]][j := odds[i]])
  {
    var s := odds[i := odds[j]][j := odds[i]];
    forall a, b | 0 <= a < b < |s| ensures s[a] != s[b] {
      var a' := if a == i then j else if a == j then i else a;
      var b' := if b == i then j else if b == j then i else b;
      assert s[a] == odds[a'] && s[b] == odds[b'];
    }
  }

  lemma SwapOdd(adj0: seq<seq<int>>, odds: seq<int>, i: int, j: int)
    requires 0 <= i < j < |odds|
    requires AllOdd(adj0, odds)
    ensures AllOdd(adj0, odds[i := odds[j]][j := odds[i]])
  {
    var s := odds[i := odds[j]][j := odds[i]];
    forall a | 0 <= a < |s| ensures 0 <= s[a] < |adj0| && |adj0[s[a]]| % 2 != 0 {
      var a' := if a == i then j else if a == j then i else a;
      assert s[a] == odds[a'];
    }
  }

  /** The edge `(odds[k], odds[k + 1])`, added when absent, pairs the next two vertices. */
  lemma PairOk(adj0: seq<seq<int>>, O: seq<int>, odds: seq<int>, k: int, adj: seq<seq<int>>, added: seq<(int, int)>)
    requires Pairing(adj0, O, odds, k, adj, added) && Bounded(|adj0|, adj) && k + 1 < |odds|
    requires odds[k + 1] !in adj[odds[k]]
    ensures Pairing(adj0, O, odds, k + 2, AddEdgeAdj(adj, odds[k], odds[k + 1]), added + [(odds[k], odds[k + 1])])
    ensures Bounded(|adj0|, AddEdgeAdj(adj, odds[k], odds[k + 1]))
  {
    var u, w := odds[k], odds[k + 1];
    assert u != w;
    assert u !in odds[..k] && w !in odds[..k] by {
      forall l | 0 <= l < k ensures odds[l] != u && odds[l] != w {
      }
    }
    PairedStep(adj0, odds, k, adj, added);
  }

  lemma PairedStep(adj0: seq<seq<int>>, odds: seq<int>, k: int, adj: seq<seq<int>>, added: seq<(int, int)>)
    requires Paired(adj0, odds, k, adj, added) && Bounded(|adj0|, adj) && k + 1 < |odds|
    requires 0 <= odds[k] < |adj0| && 0 <= odds[k + 1] < |adj0| && odds[k] != odds[k + 1]
    requires |adj0[odds[k]]| % 2 != 0 && |adj0[odds[k + 1]]| % 2 != 0
    requires odds[k] !in odds[..k] && odds[k + 1] !in odds[..k] && odds[k + 1] !in adj[odds[k]]
    ensures Paired(adj0, odds, k + 2, AddEdgeAdj(adj, odds[k], odds[k + 1]), added + [(odds[k], odds[k + 1])])
    ensures Bounded(|adj0|, AddEdgeAdj(adj, odds[k], odds[k + 1]))
  {
    var u, w := odds[k], odds[k + 1];
    var n := |adj0|;
    var r := AddEdgeAdj(adj, u, w);
    var es := added + [(u, w)];
    var P := odds[..k + 2];
    assert P == odds[..k] + [u, w];
    AddEdgeShape(n, adj, u, w);
    assert adj[u] == adj0[u];
    PairedMatching(adj0, odds[..k], added, u, w);
    forall e | e in es ensures e.0 in P && e.1 in P {
      if e in added {
        assert e.0 in odds[..k] && e.1 in odds[..k];
      }
    }
    forall x | 0 <= x < n && x !in P ensures r[x] == adj0[x] {
      assert x !in odds[..k] && x != u && x != w;
    }
    forall x | 0 <= x < n && x in P ensures |r[x]| == |adj0[x]| + 1 {
      if x != u && x != w {
        assert x in odds[..k];
      }
    }
  }

  /** A new pair of fresh, non-adjacent odd-degree vertices extends a matching. */
  lemma PairedMatching(adj0: seq<seq<int>>, P: seq<int>, added: seq<(int, int)>, u: int, w: int)
    requires Matching(adj0, added) && forall e :: e in added ==> e.0 in P && e.1 in P
    requires 0 <= u < |adj0| && 0 <= w < |adj0| && u != w && u !in P && w !in P
    requires |adj0[u]| % 2 != 0 && |adj0[w]| % 2 != 0 && w !in adj0[u]
    ensures Matching(adj0, added + [(u, w)])
  {
    var es := added + [(u, w)];
    forall a, b | 0 <= a < b < |es|
      ensures es[a].0 != es[b].0 && es[a].0 != es[b].1 && es[a].1 != es[b].0 && es[a].1 != es[b].1
    {
      if b == |added| {
        assert es[a] in added;
      } else {
        assert es[a] == added[a] && es[b] == added[b];
      }
    }
    forall a | 0 <= a < |es|
      ensures 0 <= es[a].0 < |adj0| && 0 <= es[a].1 < |adj0| && es[a].0 != es[a].1 &&
        |adj0[es[a].0]| % 2 != 0 && |adj0[es[a].1]| % 2 != 0 && es[a].1 !in adj0[es[a].0]
    {
      if a < |added| {
        assert es[a] == added[a];
      }
    }
  }

  /** Once every odd-degree vertex is paired, every degree is even. */
  lemma PairingDone(adj0: seq<seq<int>>, O: seq<int>, odds: seq<int>, adj: seq<seq<int>>, added: seq<(int, int)>)
    requires O == OddsBelow(adj0, |adj0|) && Rearranged(adj0, O, odds) && Paired(adj0, odds, |odds|, adj, added)
    ensures AllEven(adj)
  {
    assert odds[..|odds|] == odds;
    AllPaired(adj0, O, odds, adj);
  }

  lemma AllPaired(adj0: seq<seq<int>>, O: seq<int>, odds: seq<int>, adj: seq<seq<int>>)
    requires O == OddsBelow(adj0, |adj0|) && multiset(odds) == multiset(O) && |adj| == |adj0|
    requires forall i :: 0 <= i < |odds| ==> 0 <= odds[i] < |adj0| && |adj0[odds[i]]| % 2 != 0
    requires forall x :: 0 <= x < |adj0| && x !in odds ==> adj[x] == adj0[x]
    requires forall x :: 0 <= x < |adj0| && x in odds ==> |adj[x]| == |adj0[x]| + 1
    ensures AllEven(adj)
  {
    OddsBelowFacts(adj0, |adj0|);
    forall x | 0 <= x < |adj| ensures |adj[x]| % 2 == 0 {
      assert (x in odds) == (x in multiset(odds)) == (x in O);
    }
  }

  /** A graph with only even degrees has no odd-degree vertex to list. */
  lemma {:induction false} NoOdds(adj: seq<seq<int>>, k: int)
    requires AllEven(adj) && 0 <= k <= |adj|
    ensures OddsBelow(adj, k) == []
  {
    if k > 0 {
      NoOdds(adj, k - 1);
    }
  }

  /** The pairing loop, stepping by two through an even-length list, stops at its end. */
  lemma EvenEnd(k: int, n: int, pairs: int)
    requires k == 2 * pairs && k <= n && n <= k + 1 && n % 2 == 0
    ensures k == n
  {
  }

  /** The first loop of `makeEulerian`: the odd-degree vertices in increasing order. */
  method CollectOdds(g: Graph) returns (odds: seq<int>)
    requires g.Valid()
    ensures odds == OddsBelow(g.adj, g.V)
  {
    odds := [];
    var i := 0;
    while i < g.V
      invariant 0 <= i <= g.V && odds == OddsBelow(g.adj, i)
    {
      if |g.adj[i]| % 2 != 0 {
        odds := odds + [i];
      }
      i := i + 1;
    }
  }

  /** The scan for a substitute partner `odds[j]`, `j > k + 1`, not yet adjacent to `odds[k]`. */
  method FindCandidate(g: Graph, odds: seq<int>, k: int) returns (j: int)
    requires g.Valid() && 0 <= k && k + 1 < |odds| && 0 <= odds[k] < g.V
    ensures k + 2 <= j <= |odds|
    ensures j < |odds| ==> odds[j] !in g.adj[odds[k]]
    ensures forall l :: k + 2 <= l < j ==> odds[l] in g.adj[odds[k]]
  {
    var u := odds[k];
    j := k + 2;
    while j < |odds|
      invariant k + 2 <= j <= |odds|
      invariant forall l :: k + 2 <= l < j ==> odds[l] in g.adj[u]
    {
      var candidate := odds[j];
      if FirstIndex(g.adj[u], candidate) == |g.adj[u]| {
        return;
      }
      j := j + 1;
    }
  }

  /**
   * One turn of the pairing loop at position `k`: `odds[k]` is joined to
   * `odds[k + 1]` when they are not adjacent, or else to the first later
   * `odds[j]` that is not, which is swapped into position `k + 1`. `ok` is
   * false when there is none, and then nothing changes.
   */
  method PairNext(g: Graph, odds: seq<int>, k: int, ghost a0: seq<seq<int>>, ghost O: seq<int>, ghost added: seq<(int, int)>)
      returns (ok: bool, odds': seq<int>, ghost added': seq<(int, int)>)
    requires g.Valid() && g.V == |a0| && k + 1 < |odds| && Pairing(a0, O, odds, k, g.adj, added)
    requires g.adj == AddAll(a0, added)
    modifies g
    ensures g.Valid() && g.V == old(g.V)
    ensures |odds'| == |odds|
    ensures ok ==> Pairing(a0, O, odds', k + 2, g.adj, added') && g.adj == AddAll(a0, added')
    ensures !ok ==> g.adj == old(g.adj) && added' == added && odds' == odds && Stuck(g.adj, odds, k)
  {
    var u, v := odds[k], odds[k + 1];
    odds', added' := odds, added;
    ok := true;
    if FirstIndex(g.adj[u], v) == |g.adj[u]| {
      PairOk(a0, O, odds, k, g.adj, added);
      AddAllSnoc(a0, added, (u, v));
      g.AddEdge(u, v);
      added' := added + [(u, v)];
    } else {
      var j := FindCandidate(g, odds, k);
      if j == |odds| {
        ok := false;
        return;
      }
      var candidate := odds[j];
      SwapOk(a0, O, odds, k, g.adj, added, j);
      odds' := odds[k + 1 := odds[j]][j := odds[k + 1]];
      PairOk(a0, O, odds', k, g.adj, added);
      AddAllSnoc(a0, added, (u, candidate));
      g.AddEdge(u, candidate);
      added' := added + [(u, candidate)];
    }
  }

  /**
   * `makeEulerian(g)`, with the edges it adds as a ghost result. They form a
   * matching of odd-degree vertices that were not adjacent. The answer is
   * true exactly when every odd-degree vertex got a partner, and then every
   * degree is even. An odd number of odd-degree vertices, or none at all,
   * leaves the graph as it was. `order` is the list of odd-degree vertices
   * as the swaps left it; when the answer is false for an even number of
   * them, the loop gave up at position `2 * |added|` of that list.
   */
  method MakeEulerian(g: Graph) returns (r: bool, ghost added: seq<(int, int)>, ghost order: seq<int>)
    requires g.Valid()
    modifies g
    ensures g.Valid() && g.V == old(g.V)
    ensures g.adj == AddAll(old(g.adj), added) && Matching(old(g.adj), added)
    ensures r <==> 2 * |added| == |OddsBelow(old(g.adj), old(g.V))|
    ensures r ==> AllEven(g.adj)
    ensures |OddsBelow(old(g.adj), old(g.V))| % 2 != 0 ==> !r && g.adj == old(g.adj)
    ensures AllEven(old(g.adj)) ==> r && g.adj == old(g.adj)
    ensures multiset(order) == multiset(OddsBelow(old(g.adj), old(g.V)))
    ensures !r && |OddsBelow(old(g.adj), old(g.V))| % 2 == 0 ==> Stuck(g.adj, order, 2 * |added|)
  {
    ghost var a0 := g.adj;
    var odds := CollectOdds(g);
    ghost var O := odds;
    if AllEven(a0) {
      NoOdds(a0, |a0|);
    }
    added := [];
    order := odds;
    if |odds| % 2 != 0 {
      return false, added, order;
    }
    PairingStart(a0, O);
    var converted := true;
    var k := 0;
    while k + 1 < |odds|
      invariant g.Valid() && g.V == |a0| && |odds| == |O|
      invariant converted && Pairing(a0, O, odds, k, g.adj, added) && g.adj == AddAll(a0, added)
      decreases |odds| - k
    {
      var ok;
      ok, odds, added := PairNext(g, odds, k, a0, O, added);
      if !ok {
        converted := false;
        break;
      }
      k := k + 2;
    }
    assert 2 * |added| <= |O|;
    if converted {
      EvenEnd(k, |odds|, |added|);
      PairingDone(a0, O, odds, g.adj, added);
    }
    order := odds;
    var eulerian := IsEulerian(g);
    r := eulerian && converted;
  }
}
