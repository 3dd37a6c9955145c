/**
 The graph of prerequisites between mock expectations, and how calls move
 through it (deps/googletest/googlemock/src/gmock-spec-builders.cc).
 Expectation `v` must not be called before those in `needs[v]`.
 */
module ExpectationGraph {
  import opened Sets

  type Graph = seq<seq<nat>>

  ghost predicate GraphOk(g: Graph) {
    forall v, i :: 0 <= v < |g| && 0 <= i < |g[v]| ==> g[v][i] < |g|
  }

  /** `w` is a prerequisite of `v` over `k` others in between. */
  ghost predicate ReachIn(g: Graph, v: nat, w: nat, k: nat)
    requires GraphOk(g)
    decreases k
  {
    v < |g| && if k == 0 then w in g[v] else exists i :: 0 <= i < |g[v]| && ReachIn(g, g[v][i], w, k - 1)
  }

  ghost predicate Reaches(g: Graph, v: nat, w: nat)
    requires GraphOk(g)
  {
    exists k: nat :: ReachIn(g, v, w, k)
  }

  /** All direct and indirect prerequisites of `v`. */
  ghost function Reach(g: Graph, v: nat): set<nat>
    requires GraphOk(g)
  {
    set w: nat | w < |g| && Reaches(g, v, w)
  }

  ghost function ReachAll(g: Graph, xs: seq<nat>): set<nat>
    requires GraphOk(g)
  {
    set i, w | 0 <= i < |xs| && w in Reach(g, xs[i]) :: w
  }

  ghost predicate Acyclic(g: Graph)
    requires GraphOk(g)
  {
    forall v: nat :: !Reaches(g, v, v)
  }

  /** Prerequisites only refer to expectations defined earlier. */
  ghost predicate InDefinitionOrder(g: Graph) {
    forall v, i :: 0 <= v < |g| && 0 <= i < |g[v]| ==> g[v][i] < v
  }

  lemma {:induction false} ReachesEarlier(g: Graph, v: nat, w: nat, k: nat)
    requires GraphOk(g) && InDefinitionOrder(g) && ReachIn(g, v, w, k)
    ensures w < v
    decreases k
  {
    if k > 0 {
      var i :| 0 <= i < |g[v]| && ReachIn(g, g[v][i], w, k - 1);
      ReachesEarlier(g, g[v][i], w, k - 1);
    }
  }

  lemma DefinitionOrderIsAcyclic(g: Graph)
    requires GraphOk(g) && InDefinitionOrder(g)
    ensures Acyclic(g)
  {
    forall v: nat ensures !Reaches(g, v, v) {
      forall k: nat ensures !ReachIn(g, v, v, k) {
        if ReachIn(g, v, v, k) {
          ReachesEarlier(g, v, v, k);
        }
      }
    }
  }

  lemma {:induction false} ReachInBounded(g: Graph, v: nat, w: nat, k: nat)
    requires GraphOk(g) && ReachIn(g, v, w, k)
    ensures v < |g| && w < |g|
    decreases k
  {
    if k == 0 {
      var i :| 0 <= i < |g[v]| && g[v][i] == w;
    } else {
      var i :| 0 <= i < |g[v]| && ReachIn(g, g[v][i], w, k - 1);
      ReachInBounded(g, g[v][i], w, k - 1);
    }
  }

  /** One step along an edge. */
  lemma Edge(g: Graph, v: nat, i: nat)
    requires GraphOk(g) && v < |g| && i < |g[v]|
    ensures g[v][i] in Reach(g, v)
    ensures Reach(g, g[v][i]) <= Reach(g, v)
  {
    assert ReachIn(g, v, g[v][i], 0);
    forall w | w in Reach(g, g[v][i]) ensures w in Reach(g, v) {
      var k: nat :| ReachIn(g, g[v][i], w, k);
      assert ReachIn(g, v, w, k + 1);
    }
  }

  /** What a node reaches is its prerequisites and what they reach. */
  lemma Unfold(g: Graph, v: nat)
    requires GraphOk(g) && v < |g|
    ensures Reach(g, v) == (set w | w in g[v]) + ReachAll(g, g[v])
  {
    forall i | 0 <= i < |g[v]| ensures g[v][i] in Reach(g, v) && Reach(g, g[v][i]) <= Reach(g, v) {
      Edge(g, v, i);
    }
    forall w | w in Reach(g, v) ensures w in g[v] || w in ReachAll(g, g[v]) {
      var k: nat :| ReachIn(g, v, w, k);
      if k > 0 {
        var i :| 0 <= i < |g[v]| && ReachIn(g, g[v][i], w, k - 1);
        ReachInBounded(g, g[v][i], w, k - 1);
        assert w in Reach(g, g[v][i]);
      }
    }
  }

  lemma {:induction false} ReachIsTransitive(g: Graph, v: nat, u: nat, k: nat)
    requires GraphOk(g) && ReachIn(g, v, u, k)
    ensures Reach(g, u) <= Reach(g, v)
    decreases k
  {
    if k == 0 {
      var i :| 0 <= i < |g[v]| && g[v][i] == u;
      Edge(g, v, i);
    } else {
      var i :| 0 <= i < |g[v]| && ReachIn(g, g[v][i], u, k - 1);
      ReachIsTransitive(g, g[v][i], u, k - 1);
      Edge(g, v, i);
    }
  }

  // ---------------------------------------------------------------- paths through given nodes

  /** `w` is a prerequisite of `v` over `k` others in between, which are all in `open`. */
  ghost predicate ThroughIn(g: Graph, open: set<nat>, v: nat, w: nat, k: nat)
    requires GraphOk(g)
    decreases k
  {
    v < |g| &&
    if k == 0 then w in g[v]
    else exists i :: 0 <= i < |g[v]| && g[v][i] in open && ThroughIn(g, open, g[v][i], w, k - 1)
  }

  ghost predicate LeadsTo(g: Graph, open: set<nat>, v: nat, w: nat)
    requires GraphOk(g)
  {
    exists k: nat :: ThroughIn(g, open, v, w, k)
  }

  /** What `v` reaches over nodes in `open`. */
  ghost function Through(g: Graph, open: set<nat>, v: nat): set<nat>
    requires GraphOk(g)
  {
    set w: nat | w < |g| && LeadsTo(g, open, v, w)
  }

  ghost function ThroughAll(g: Graph, open: set<nat>, xs: seq<nat>): set<nat>
    requires GraphOk(g)
  {
    set i, w | 0 <= i < |xs| && w in Through(g, open, xs[i]) :: w
  }

  lemma {:induction false} ThroughIsReach(g: Graph, open: set<nat>, v: nat, w: nat, k: nat)
    requires GraphOk(g) && ThroughIn(g, open, v, w, k)
    ensures ReachIn(g, v, w, k)
    decreases k
  {
    if k > 0 {
      var i :| 0 <= i < |g[v]| && g[v][i] in open && ThroughIn(g, open, g[v][i], w, k - 1);
      ThroughIsReach(g, open, g[v][i], w, k - 1);
    }
  }

  lemma ThroughInReach(g: Graph, open: set<nat>, v: nat)
    requires GraphOk(g)
    ensures Through(g, open, v) <= Reach(g, v)
  {
    forall w | w in Through(g, open, v) ensures w in Reach(g, v) {
      var k: nat :| ThroughIn(g, open, v, w, k);
      ThroughIsReach(g, open, v, w, k);
    }
  }

  /** One step along an edge, and on from there if the node may be passed. */
  lemma ThroughEdge(g: Graph, open: set<nat>, v: nat, i: nat)
    requires GraphOk(g) && v < |g| && i < |g[v]|
    ensures g[v][i] in Through(g, open, v)
    ensures g[v][i] in open ==> Through(g, open, g[v][i]) <= Through(g, open, v)
  {
    assert ThroughIn(g, open, v, g[v][i], 0);
    forall w | g[v][i] in open && w in Through(g, open, g[v][i]) ensures w in Through(g, open, v) {
      var k: nat :| ThroughIn(g, open, g[v][i], w, k);
      assert ThroughIn(g, open, v, w, k + 1);
    }
  }

  lemma {:induction false} ThroughTransitive(g: Graph, open: set<nat>, v: nat, u: nat, k: nat)
    requires GraphOk(g) && ThroughIn(g, open, v, u, k) && u in open
    ensures Through(g, open, u) <= Through(g, open, v)
    decreases k
  {
    if k == 0 {
      var i :| 0 <= i < |g[v]| && g[v][i] == u;
      ThroughEdge(g, open, v, i);
    } else {
      var i :| 0 <= i < |g[v]| && g[v][i] in open && ThroughIn(g, open, g[v][i], u, k - 1);
      ThroughTransitive(g, open, g[v][i], u, k - 1);
      ThroughEdge(g, open, v, i);
    }
  }

  /** What lies behind `v` is its prerequisites and what lies behind those that may be passed, all in `kept`. */
  lemma ThroughUnfold(g: Graph, open: set<nat>, v: nat, kept: seq<nat>)
    requires GraphOk(g) && v < |g|
    requires forall w :: w in g[v] && w in open ==> w in kept
    ensures Through(g, open, v) <= (set w | w in g[v]) + ThroughAll(g, open, kept)
  {
    forall w | w in Through(g, open, v) ensures w in g[v] || w in ThroughAll(g, open, kept) {
      var k: nat :| ThroughIn(g, open, v, w, k);
      if k > 0 {
        var i :| 0 <= i < |g[v]| && g[v][i] in open && ThroughIn(g, open, g[v][i], w, k - 1);
        var j :| 0 <= j < |kept| && kept[j] == g[v][i];
        assert w in Through(g, open, kept[j]);
      }
    }
  }

  /** A set that contains the prerequisites of each member. */
  ghost predicate Closed(g: Graph, r: set<nat>) {
    forall v, i :: v in r && 0 <= v < |g| && 0 <= i < |g[v]| ==> g[v][i] in r
  }

  lemma {:induction false} ClosedContainsReach(g: Graph, r: set<nat>, v: nat, w: nat, k: nat)
    requires GraphOk(g) && Closed(g, r) && ReachIn(g, v, w, k)
    requires forall i :: 0 <= i < |g[v]| ==> g[v][i] in r
    ensures w in r
    decreases k
  {
    if k > 0 {
      var i :| 0 <= i < |g[v]| && ReachIn(g, g[v][i], w, k - 1);
      assert g[v][i] in r;
      ClosedContainsReach(g, r, g[v][i], w, k - 1);
    }
  }

  lemma ReachInClosed(g: Graph, r: set<nat>, v: nat)
    requires GraphOk(g) && Closed(g, r) && v < |g|
    requires forall i :: 0 <= i < |g[v]| ==> g[v][i] in r
    ensures Reach(g, v) <= r
  {
    forall w | w in Reach(g, v) ensures w in r {
      var k: nat :| ReachIn(g, v, w, k);
      ClosedContainsReach(g, r, v, w, k);
    }
  }

  lemma ReachIsClosed(g: Graph, v: nat)
    requires GraphOk(g)
    ensures Closed(g, Reach(g, v))
  {
    forall u, i | u in Reach(g, v) && 0 <= u < |g| && 0 <= i < |g[u]| ensures g[u][i] in Reach(g, v) {
      var k: nat :| ReachIn(g, v, u, k);
      ReachIsTransitive(g, v, u, k);
      Edge(g, u, i);
    }
  }

  // ---------------------------------------------------------------- the size of a traversal without a visited set

  ghost function Rank(g: Graph, v: nat): nat
    requires GraphOk(g)
  {
    |Reach(g, v)|
  }

  lemma RankFalls(g: Graph, v: nat, i: nat)
    requires GraphOk(g) && Acyclic(g) && v < |g| && i < |g[v]|
    ensures Rank(g, g[v][i]) < Rank(g, v)
  {
    var u := g[v][i];
    Edge(g, v, i);
    assert u !in Reach(g, u);
    SubsetSize(Reach(g, u) + {u}, Reach(g, v));
  }

  /** How many nodes a traversal from `v` visits, counting repeated visits. */
  ghost function Visits(g: Graph, v: nat): nat
    requires GraphOk(g) && Acyclic(g) && v < |g|
    decreases Rank(g, v), 1, 0
  {
    1 + VisitsFrom(g, v, |g[v]|)
  }

  ghost function VisitsFrom(g: Graph, v: nat, n: nat): nat
    requires GraphOk(g) && Acyclic(g) && v < |g| && n <= |g[v]|
    decreases Rank(g, v), 0, n
  {
    if n == 0 then 0
    else
      RankFalls(g, v, n - 1);
      VisitsFrom(g, v, n - 1) + Visits(g, g[v][n - 1])
  }

  ghost function Pending(g: Graph, xs: seq<nat>): nat
    requires GraphOk(g) && Acyclic(g) && InGraph(g, xs)
  {
    if xs == [] then 0 else Pending(g, xs[..|xs| - 1]) + Visits(g, xs[|xs| - 1])
  }

  ghost predicate InGraph(g: Graph, xs: seq<nat>) {
    forall i :: 0 <= i < |xs| ==> xs[i] < |g|
  }

  /** Replacing the top of the stack by some of its prerequisites. */
  lemma Expanded(g: Graph, xs: seq<nat>, kept: seq<nat>)
    requires GraphOk(g) && Acyclic(g) && InGraph(g, xs) && xs != []
    requires PartOf(kept, g[xs[|xs| - 1]])
    ensures InGraph(g, xs[..|xs| - 1] + kept)
    ensures Pending(g, xs[..|xs| - 1] + kept) < Pending(g, xs)
  {
    var v := xs[|xs| - 1];
    assert g[v][..|g[v]|] == g[v];
    PartPending(g, xs[..|xs| - 1], kept, v, |g[v]|);
  }

  /** `kept` is `all` with some elements left out. */
  predicate PartOf(kept: seq<nat>, all: seq<nat>)
    decreases |all|
  {
    if all == [] then kept == []
    else
      PartOf(kept, all[..|all| - 1]) ||
      (kept != [] && kept[|kept| - 1] == all[|all| - 1] && PartOf(kept[..|kept| - 1], all[..|all| - 1]))
  }

  lemma {:induction false} PartPending(g: Graph, xs: seq<nat>, kept: seq<nat>, v: nat, n: nat)
    requires GraphOk(g) && Acyclic(g) && InGraph(g, xs) && v < |g| && n <= |g[v]|
    requires PartOf(kept, g[v][..n])
    ensures InGraph(g, xs + kept)
    ensures Pending(g, xs + kept) <= Pending(g, xs) + VisitsFrom(g, v, n)
    decreases n
  {
    if n == 0 {
      assert xs + kept == xs;
    } else {
      assert g[v][..n][..n - 1] == g[v][..n - 1];
      if PartOf(kept, g[v][..n - 1]) {
        PartPending(g, xs, kept, v, n - 1);
      } else {
        var ys := xs + kept;
        assert ys[..|ys| - 1] == xs + kept[..|kept| - 1];
        PartPending(g, xs, kept[..|kept| - 1], v, n - 1);
        assert forall i :: 0 <= i < |ys| - 1 ==> ys[i] == ys[..|ys| - 1][i];
      }
    }
  }
}
