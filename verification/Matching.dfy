/**
 Maximum bipartite matching by augmenting paths, as gMock uses it to pair elements with matchers.

 The proof that the result is maximum keeps a set of dead right nodes: a failed search leaves
 behind a set of matched right nodes whose partners have no edge out of the set, no later search
 gets past it, and at the end the dead right nodes together with the left nodes matched elsewhere
 touch every edge.
 */
module Matching {
  import opened Sets


  const UNUSED := -1

  datatype Graph = Graph(lhs: nat, rhs: nat, edges: set<(int, int)>)

  predicate HasEdge(g: Graph, l: int, r: int) {
    0 <= l < g.lhs && 0 <= r < g.rhs && (l, r) in g.edges
  }

  /** A set of edges of g in which no node occurs twice. */
  ghost predicate IsMatching(g: Graph, m: set<(int, int)>) {
    && (forall e :: e in m ==> HasEdge(g, e.0, e.1))
    && (forall e, f :: e in m && f in m && e.0 == f.0 ==> e == f)
    && (forall e, f :: e in m && f in m && e.1 == f.1 ==> e == f)
  }

  /** Every entry of left points to a right node that it has an edge to and that points back. */
  ghost predicate LeftOk(g: Graph, left: seq<int>, right: seq<int>) {
    && |left| == g.lhs && |right| == g.rhs
    && forall l :: 0 <= l < g.lhs && left[l] != UNUSED ==> HasEdge(g, l, left[l]) && right[left[l]] == l
  }

  /** Every entry of right, except possibly at hole, points to a left node that points back. */
  ghost predicate RightOk(g: Graph, left: seq<int>, right: seq<int>, hole: int) {
    && |left| == g.lhs && |right| == g.rhs
    && forall r :: 0 <= r < g.rhs && r != hole && right[r] != UNUSED ==> 0 <= right[r] < g.lhs && left[right[r]] == r
  }

  ghost predicate Mutual(g: Graph, left: seq<int>, right: seq<int>) {
    LeftOk(g, left, right) && RightOk(g, left, right, UNUSED)
  }

  /** All right neighbours of l are in s. */
  ghost predicate NeighboursIn(g: Graph, l: int, s: set<int>) {
    forall r :: HasEdge(g, l, r) ==> r in s
  }

  /** Right node r is matched, and its partner's neighbours are all in s. */
  ghost predicate DeadIn(g: Graph, right: seq<int>, r: int, s: set<int>) {
    0 <= r < |right| && right[r] != UNUSED && NeighboursIn(g, right[r], s)
  }

  /** The set of right nodes from which no augmenting path leads on. */
  ghost predicate Closed(g: Graph, right: seq<int>, dead: set<int>) {
    forall r :: r in dead ==> DeadIn(g, right, r, dead)
  }

  ghost function SeenSet(seen: seq<bool>): set<int> {
    set r | 0 <= r < |seen| && seen[r]
  }

  class MaxBipartiteMatchState {
    const graph: Graph
    var left: seq<int>
    var right: seq<int>

    constructor (g: Graph)
      ensures graph == g && Mutual(g, left, right)
      ensures forall l :: 0 <= l < g.lhs ==> left[l] == UNUSED
    {
      graph := g;
      left := seq(g.lhs, _ => UNUSED);
      right := seq(g.rhs, _ => UNUSED);
    }

    /**
     Depth-first search from left node l for an unmatched right node.  On success l is matched and
     all left nodes matched before still are; on failure the newly seen right nodes are dead.
     No search from a left node with dead neighbours only succeeds.
     */
    method TryAugment(l: int, seen: seq<bool>, ghost dead: set<int>) returns (ok: bool, seen': seq<bool>)
      requires 0 <= l < graph.lhs && |seen| == graph.rhs && Mutual(graph, left, right)
      requires left[l] == UNUSED || seen[left[l]]
      requires Closed(graph, right, dead)
      modifies this
      ensures |seen'| == |seen| && forall r :: 0 <= r < |seen| && seen[r] ==> seen'[r]
      ensures !ok ==> left == old(left) && right == old(right)
      ensures !ok ==> NeighboursIn(graph, l, SeenSet(seen'))
      ensures !ok ==> forall r :: 0 <= r < |seen| && seen'[r] && !seen[r] ==> DeadIn(graph, right, r, SeenSet(seen'))
      ensures ok ==> LeftOk(graph, left, right) && RightOk(graph, left, right, old(left)[l]) && left[l] != UNUSED
      ensures ok ==> !seen[left[l]] && forall x :: 0 <= x < graph.lhs ==> left[x] != old(left)[l] || left[x] == UNUSED
      ensures ok ==> forall x :: 0 <= x < graph.lhs && x != l ==> (left[x] == UNUSED <==> old(left)[x] == UNUSED)
      ensures ok ==> forall x :: 0 <= x < graph.lhs && x != l && (old(left)[x] == UNUSED || seen[old(left)[x]]) ==> left[x] == old(left)[x]
      ensures ok ==> forall r :: 0 <= r < graph.rhs && (seen[r] || r in dead) ==> right[r] == old(right)[r]
      ensures NeighboursIn(graph, l, dead) ==> !ok
      decreases graph.rhs - |SeenSet(seen)|
    {
      seen' := seen;
      var irhs := 0;
      while irhs < graph.rhs
        invariant 0 <= irhs <= graph.rhs && |seen'| == |seen|
        invariant left == old(left) && right == old(right)
        invariant forall r :: 0 <= r < |seen| && seen[r] ==> seen'[r]
        invariant forall r :: 0 <= r < irhs && HasEdge(graph, l, r) ==> seen'[r]
        invariant forall r :: 0 <= r < |seen| && seen'[r] && !seen[r] ==> DeadIn(graph, right, r, SeenSet(seen'))
      {
        if seen'[irhs] || !HasEdge(graph, l, irhs) {
          irhs := irhs + 1;
          continue;
        }
        ghost var before := seen';
        seen' := seen'[irhs := true];
        if right[irhs] == UNUSED {
          left := left[l := irhs];
          right := right[irhs := l];
          return true, seen';
        }
        ghost var mid := seen';
        var deeper;
        SeenGrows(seen, mid, irhs);
        deeper, seen' := TryAugment(right[irhs], seen', dead);
        if deeper {
          left := left[l := irhs];
          right := right[irhs := l];
          return true, seen';
        }
        irhs := irhs + 1;
      }
      ok := false;
    }

    /** Searches once from every left node, then reads the pairs off left. */
    method Compute() returns (result: seq<(int, int)>)
      requires Mutual(graph, left, right)
      requires forall l :: 0 <= l < graph.lhs ==> left[l] == UNUSED
      modifies this
      ensures IsMatching(graph, Edges(result)) && |Edges(result)| == |result|
      ensures forall m :: IsMatching(graph, m) ==> |m| <= |result|
    {
      ghost var dead: set<int> := {};
      var ilhs := 0;
      while ilhs < graph.lhs
        invariant 0 <= ilhs <= graph.lhs && Mutual(graph, left, right) && Closed(graph, right, dead)
        invariant forall l :: 0 <= l < ilhs ==> left[l] != UNUSED || NeighboursIn(graph, l, dead)
        invariant forall l :: ilhs <= l < graph.lhs ==> left[l] == UNUSED
      {
        var seen := seq(graph.rhs, _ => false);
        ghost var right0 := right;
        var ok;
        ok, seen := TryAugment(ilhs, seen, dead);
        if ok {
          forall r | r in dead ensures DeadIn(graph, right, r, dead) {
            assert DeadIn(graph, right0, r, dead);
          }
        } else {
          forall r | r in dead + SeenSet(seen) ensures DeadIn(graph, right, r, dead + SeenSet(seen)) {
            assert DeadIn(graph, right, r, if r in dead then dead else SeenSet(seen));
          }
          dead := dead + SeenSet(seen);
        }
        ilhs := ilhs + 1;
      }
      result := [];
      var l := 0;
      while l < |left|
        invariant 0 <= l <= |left| && Collected(left, l, result)
        invariant Finished(graph, left, right, dead)
      {
        if left[l] != UNUSED {
          result := result + [(l, left[l])];
        }
        l := l + 1;
      }
      CollectedIsMatching(graph, left, right, result);
      forall m | IsMatching(graph, m) ensures |m| <= |result| {
        Maximum(graph, left, right, dead, m);
      }
    }
  }

  lemma SeenGrows(seen: seq<bool>, mid: seq<bool>, r: nat)
    requires |mid| == |seen| && r < |seen| && !seen[r] && mid[r]
    requires forall x :: 0 <= x < |seen| && seen[x] ==> mid[x]
    ensures |SeenSet(seen)| < |SeenSet(mid)| <= |seen|
  {
    assert r in SeenSet(mid) && r !in SeenSet(seen) && SeenSet(seen) <= SeenSet(mid);
    SubsetSize(SeenSet(seen), SeenSet(mid) - {r});
    AllBelow(SeenSet(mid), |seen|);
  }

  /** An injection does not enlarge a set. */
  lemma {:induction false} Injection<A, B>(a: set<A>, b: set<B>, f: map<A, B>)
    requires a <= f.Keys && forall x :: x in a ==> f[x] in b
    requires forall x, y :: x in a && y in a && f[x] == f[y] ==> x == y
    ensures |a| <= |b|
  {
    if x :| x in a {
      Injection(a - {x}, b - {f[x]}, f);
    }
  }

  // ---------------------------------------------------------------- the cover of a finished search

  /** The left nodes that are matched. */
  ghost function MatchedLefts(left: seq<int>): set<int> {
    set l | 0 <= l < |left| && left[l] != UNUSED
  }

  /** All searches are done: whoever is unmatched has dead neighbours only. */
  ghost predicate Finished(g: Graph, left: seq<int>, right: seq<int>, dead: set<int>) {
    && Mutual(g, left, right) && Closed(g, right, dead)
    && forall l :: 0 <= l < g.lhs ==> left[l] != UNUSED || NeighboursIn(g, l, dead)
  }

  /** The matched left node that pays for edge (l, r): the partner of a dead r, or else l itself. */
  ghost function Payer(right: seq<int>, dead: set<int>, e: (int, int)): int
    requires 0 <= e.1 < |right|
  {
    if e.1 in dead then right[e.1] else e.0
  }

  lemma PayerIsMatched(g: Graph, left: seq<int>, right: seq<int>, dead: set<int>, e: (int, int))
    requires Finished(g, left, right, dead) && HasEdge(g, e.0, e.1)
    ensures 0 <= Payer(right, dead, e) < g.lhs && left[Payer(right, dead, e)] != UNUSED
    ensures e.1 in dead ==> left[Payer(right, dead, e)] == e.1
    ensures e.1 !in dead ==> left[e.0] !in dead
  {
    assert e.1 in dead ==> DeadIn(g, right, e.1, dead);
    assert left[e.0] in dead ==> DeadIn(g, right, left[e.0], dead);
  }

  /** No matching has more edges than the finished search has matched left nodes. */
  lemma Maximum(g: Graph, left: seq<int>, right: seq<int>, dead: set<int>, m: set<(int, int)>)
    requires Finished(g, left, right, dead) && IsMatching(g, m)
    ensures |m| <= |MatchedLefts(left)|
  {
    var f := map e | e in m :: Payer(right, dead, e);
    forall e | e in m ensures f[e] in MatchedLefts(left) {
      PayerIsMatched(g, left, right, dead, e);
    }
    forall x, y | x in m && y in m && f[x] == f[y] ensures x == y {
      PayerIsMatched(g, left, right, dead, x);
      PayerIsMatched(g, left, right, dead, y);
    }
    Injection(m, MatchedLefts(left), f);
  }

  // ---------------------------------------------------------------- the result

  ghost function Edges(pairs: seq<(int, int)>): set<(int, int)> {
    set i | 0 <= i < |pairs| :: pairs[i]
  }

  /** The pairs read off left, for the first n left nodes. */
  ghost predicate Collected(left: seq<int>, n: nat, pairs: seq<(int, int)>) {
    && n <= |left|
    && (forall i :: 0 <= i < |pairs| ==> 0 <= pairs[i].0 < n && left[pairs[i].0] == pairs[i].1 != UNUSED)
    && (forall i, j :: 0 <= i < j < |pairs| ==> pairs[i].0 < pairs[j].0)
    && (forall l :: 0 <= l < n && left[l] != UNUSED ==> (l, left[l]) in pairs)
  }

  lemma CollectedIsMatching(g: Graph, left: seq<int>, right: seq<int>, pairs: seq<(int, int)>)
    requires Mutual(g, left, right) && Collected(left, g.lhs, pairs)
    ensures IsMatching(g, Edges(pairs)) && |Edges(pairs)| == |pairs| == |MatchedLefts(left)|
  {
    var m := Edges(pairs);
    var s := MatchedLefts(left);
    EdgesCount(pairs);
    var f := map e | e in m :: e.0;
    Injection(m, s, f);
    var h := map l | l in s :: (l, left[l]);
    Injection(s, m, h);
  }

  lemma {:induction false} EdgesCount(pairs: seq<(int, int)>)
    requires forall i, j :: 0 <= i < j < |pairs| ==> pairs[i].0 < pairs[j].0
    ensures |Edges(pairs)| == |pairs|
  {
    if pairs != [] {
      var n := |pairs| - 1;
      EdgesCount(pairs[..n]);
      assert Edges(pairs) == Edges(pairs[..n]) + {pairs[n]};
    }
  }

  /** FindMaxBipartiteMatching: as many pairs as any matching of the graph can have. */
  method FindMaxBipartiteMatching(g: Graph) returns (pairs: seq<(int, int)>)
    ensures IsMatching(g, Edges(pairs)) && |Edges(pairs)| == |pairs|
    ensures forall m :: IsMatching(g, m) ==> |m| <= |pairs|
  {
    var state := new MaxBipartiteMatchState(g);
    pairs := state.Compute();
  }

  // ---------------------------------------------------------------- the pairing that a matcher asks for

  ghost predicate UsesLeft(m: set<(int, int)>, l: int) {
    exists e :: e in m && e.0 == l
  }

  ghost predicate UsesRight(m: set<(int, int)>, r: int) {
    exists e :: e in m && e.1 == r
  }

  ghost predicate CoversLeft(g: Graph, m: set<(int, int)>) {
    forall l :: 0 <= l < g.lhs ==> UsesLeft(m, l)
  }

  ghost predicate CoversRight(g: Graph, m: set<(int, int)>) {
    forall r :: 0 <= r < g.rhs ==> UsesRight(m, r)
  }

  ghost function Image<E>(m: set<E>, f: map<E, int>): set<int>
    requires m <= f.Keys
  {
    set e | e in m :: f[e]
  }

  /** An injection of m into the numbers below n reaches all of them exactly when m has n elements. */
  lemma ImageCount<E>(m: set<E>, f: map<E, int>, n: nat)
    requires m <= f.Keys && forall e :: e in m ==> 0 <= f[e] < n
    requires forall x, y :: x in m && y in m && f[x] == f[y] ==> x == y
    ensures |m| <= n && (|m| == n <==> Below(n) <= Image(m, f))
  {
    var s := Image(m, f);
    ImageSize(m, f);
    AllBelow(s, n);
    assert s <= Below(n);
    SubsetSize(s, Below(n));
    if Below(n) <= s {
      assert s == Below(n);
    }
  }

  lemma {:induction false} ImageSize<E>(m: set<E>, f: map<E, int>)
    requires m <= f.Keys
    requires forall x, y :: x in m && y in m && f[x] == f[y] ==> x == y
    ensures |Image(m, f)| == |m|
  {
    if x :| x in m {
      ImageSize(m - {x}, f);
      assert Image(m, f) == Image(m - {x}, f) + {f[x]};
    }
  }

  /** A matching covers all right nodes exactly when it has as many edges as there are right nodes. */
  lemma CoverRightCount(g: Graph, m: set<(int, int)>)
    requires IsMatching(g, m)
    ensures |m| <= g.rhs && (CoversRight(g, m) <==> |m| == g.rhs)
  {
    var f := map e | e in m :: e.1;
    ImageCount(m, f, g.rhs);
    forall r | 0 <= r < g.rhs ensures UsesRight(m, r) <==> r in Image(m, f) {
    }
  }

  lemma CoverLeftCount(g: Graph, m: set<(int, int)>)
    requires IsMatching(g, m)
    ensures |m| <= g.lhs && (CoversLeft(g, m) <==> |m| == g.lhs)
  {
    var f := map e | e in m :: e.0;
    ImageCount(m, f, g.lhs);
    forall l | 0 <= l < g.lhs ensures UsesLeft(m, l) <==> l in Image(m, f) {
    }
  }

  /** FindPairing: true exactly when some matching covers all that the matcher's flags ask for. */
  method FindPairing(g: Graph, superset: bool, subset: bool) returns (ok: bool)
    ensures ok <==> exists m :: IsMatching(g, m) && (superset ==> CoversRight(g, m)) && (subset ==> CoversLeft(g, m))
  {
    var pairs := FindMaxBipartiteMatching(g);
    forall m | IsMatching(g, m) ensures |m| <= |pairs| && |m| <= g.rhs && |m| <= g.lhs {
      CoverRightCount(g, m);
      CoverLeftCount(g, m);
    }
    CoverRightCount(g, Edges(pairs));
    CoverLeftCount(g, Edges(pairs));
    if superset && |pairs| < g.rhs {
      forall m | IsMatching(g, m) ensures !CoversRight(g, m) {
        CoverRightCount(g, m);
      }
      return false;
    }
    if subset && |pairs| < g.lhs {
      forall m | IsMatching(g, m) ensures !CoversLeft(g, m) {
        CoverLeftCount(g, m);
      }
      return false;
    }
    ok := true;
  }
}
