/**
 Expectations of a mock: which may take a call, and what a call changes
 (deps/googletest/googlemock/src/gmock-spec-builders.cc and
 include/gmock/gmock-spec-builders.h).
 */
module Prerequisites {
  import opened Sets
  import opened ExpectationGraph

  /** What does not change once the expectations are set. */
  datatype Spec = Spec(needs: Graph, atLeast: seq<nat>, atMost: seq<nat>, retiresOnSaturation: seq<bool>)

  datatype State = State(counts: seq<nat>, retired: set<nat>)

  ghost predicate SpecOk(c: Spec) {
    && GraphOk(c.needs) && Acyclic(c.needs)
    && |c.needs| == |c.atLeast| == |c.atMost| == |c.retiresOnSaturation|
  }

  predicate Fits(c: Spec, s: State) {
    |s.counts| == |c.needs| == |c.atLeast| == |c.atMost| == |c.retiresOnSaturation|
  }

  predicate IsSatisfied(c: Spec, s: State, v: nat)
    requires Fits(c, s) && v < |c.needs|
  {
    c.atLeast[v] <= s.counts[v] <= c.atMost[v]
  }

  predicate IsSaturated(c: Spec, s: State, v: nat)
    requires Fits(c, s) && v < |c.needs|
  {
    s.counts[v] >= c.atMost[v]
  }

  ghost function Satisfied(c: Spec, s: State): set<nat>
    requires Fits(c, s)
  {
    set v | 0 <= v < |c.needs| && IsSatisfied(c, s, v)
  }

  /** Satisfied without a call. */
  ghost function Idle(c: Spec, s: State): set<nat>
    requires Fits(c, s)
  {
    set v: nat | v < |c.needs| && c.atLeast[v] <= s.counts[v] <= c.atMost[v] && s.counts[v] == 0
  }

  /** Whether `v` may take a call whose arguments match. */
  ghost predicate Handles(c: Spec, s: State, v: nat)
    requires SpecOk(c) && Fits(c, s)
  {
    v < |c.needs| && v !in s.retired && Reach(c.needs, v) <= Satisfied(c, s)
  }

  /** A call taken by `v`; a call beyond its limit only counts. */
  ghost function Called(c: Spec, s: State, v: nat): (r: State)
    requires SpecOk(c) && Fits(c, s) && v < |c.needs|
    ensures Fits(c, r)
  {
    var counted := s.(counts := s.counts[v := s.counts[v] + 1]);
    if IsSaturated(c, s, v) then counted
    else
      var done := counted.(retired := s.retired + Reach(c.needs, v));
      if c.retiresOnSaturation[v] && IsSaturated(c, done, v) then done.(retired := done.retired + {v}) else done
  }

  ghost predicate Legal(c: Spec, s: State, calls: seq<nat>)
    requires SpecOk(c) && Fits(c, s)
    decreases |calls|
  {
    calls == [] || (Handles(c, s, calls[0]) && Legal(c, Called(c, s, calls[0]), calls[1..]))
  }

  ghost function After(c: Spec, s: State, calls: seq<nat>): (r: State)
    requires SpecOk(c) && Fits(c, s) && Legal(c, s, calls)
    ensures Fits(c, r)
    decreases |calls|
  {
    if calls == [] then s else After(c, Called(c, s, calls[0]), calls[1..])
  }

  // ---------------------------------------------------------------- what every call keeps

  /**
   An expectation that took a call within its limit has all its prerequisites
   satisfied and retired.
   */
  ghost predicate Settled(c: Spec, s: State, v: nat)
    requires SpecOk(c) && Fits(c, s) && v < |c.needs|
  {
    0 < s.counts[v] <= c.atMost[v] ==> Reach(c.needs, v) <= Satisfied(c, s) && Reach(c.needs, v) <= s.retired
  }

  ghost predicate Ok(c: Spec, s: State)
    requires SpecOk(c) && Fits(c, s)
  {
    Closed(c.needs, s.retired) && forall v :: 0 <= v < |c.needs| ==> Settled(c, s, v)
  }

  lemma FreshOk(c: Spec)
    requires SpecOk(c)
    ensures Ok(c, Start(c))
  {
  }

  lemma CalledClosed(c: Spec, s: State, v: nat)
    requires SpecOk(c) && Fits(c, s) && Closed(c.needs, s.retired) && v < |c.needs|
    ensures Closed(c.needs, Called(c, s, v).retired)
  {
    ReachIsClosed(c.needs, v);
    forall i | 0 <= i < |c.needs[v]| ensures c.needs[v][i] in Reach(c.needs, v) {
      Edge(c.needs, v, i);
    }
  }

  lemma CalledSettled(c: Spec, s: State, v: nat, u: nat)
    requires SpecOk(c) && Fits(c, s) && Ok(c, s) && Handles(c, s, v) && u < |c.needs|
    ensures Settled(c, Called(c, s, v), u)
  {
    var t := Called(c, s, v);
    assert Settled(c, s, u);
    assert v !in Reach(c.needs, v);
    if 0 < t.counts[u] <= c.atMost[u] {
      assert v !in Reach(c.needs, u);
      forall w | w in Reach(c.needs, u) ensures w in Satisfied(c, t) && w in t.retired {
        assert w in Satisfied(c, s);
      }
    }
  }

  lemma CalledOk(c: Spec, s: State, v: nat)
    requires SpecOk(c) && Fits(c, s) && Ok(c, s) && Handles(c, s, v)
    ensures Ok(c, Called(c, s, v))
  {
    CalledClosed(c, s, v);
    forall u | 0 <= u < |c.needs| ensures Settled(c, Called(c, s, v), u) {
      CalledSettled(c, s, v, u);
    }
  }

  lemma {:induction false} RunOk(c: Spec, s: State, calls: seq<nat>)
    requires SpecOk(c) && Fits(c, s) && Ok(c, s) && Legal(c, s, calls)
    ensures Ok(c, After(c, s, calls))
    ensures s.retired <= After(c, s, calls).retired
    decreases |calls|
  {
    if calls != [] {
      CalledOk(c, s, calls[0]);
      RunOk(c, Called(c, s, calls[0]), calls[1..]);
    }
  }

  /** A retired expectation takes no further call in any run. */
  lemma {:induction false} RetiredIsDone(c: Spec, s: State, calls: seq<nat>, v: nat, j: nat)
    requires SpecOk(c) && Fits(c, s) && Legal(c, s, calls) && v in s.retired && j < |calls|
    ensures calls[j] != v
    decreases |calls|
  {
    if j > 0 {
      RetiredIsDone(c, Called(c, s, calls[0]), calls[1..], v, j - 1);
    }
  }

  /**
   Order is enforced over whole runs: when an expectation takes a call within
   its limit, every prerequisite, however indirect, has had its calls and gets
   no more of them.
   */
  lemma PrerequisitesComeFirst(c: Spec, calls: seq<nat>, v: nat, later: seq<nat>, j: nat)
    requires SpecOk(c)
    requires var s := Start(c);
      Legal(c, s, calls) && Legal(c, After(c, s, calls), [v] + later) && !IsSaturated(c, After(c, s, calls), v)
    requires j < |later|
    ensures later[j] !in Reach(c.needs, v)
    ensures var s := Start(c);
      forall w :: w in Reach(c.needs, v) ==> IsSatisfied(c, After(c, s, calls), w)
  {
    var s := After(c, Start(c), calls);
    assert ([v] + later)[1..] == later;
    assert Reach(c.needs, v) <= Satisfied(c, s);
    if later[j] in Reach(c.needs, v) {
      RetiredIsDone(c, Called(c, s, v), later, later[j], j);
    }
  }

  // ---------------------------------------------------------------- how often expectations are called

  function Start(c: Spec): (s: State)
    ensures |s.counts| == |c.needs| && forall v :: 0 <= v < |c.needs| ==> s.counts[v] == 0
  {
    State(seq(|c.needs|, _ => 0), {})
  }

  /** The count of an expectation is the number of calls it took. */
  lemma {:induction false} CountsAreCalls(c: Spec, s: State, calls: seq<nat>, v: nat)
    requires SpecOk(c) && Fits(c, s) && Legal(c, s, calls) && v < |c.needs|
    ensures After(c, s, calls).counts[v] == s.counts[v] + multiset(calls)[v]
    decreases |calls|
  {
    if calls != [] {
      CountsAreCalls(c, Called(c, s, calls[0]), calls[1..], v);
      assert calls == [calls[0]] + calls[1..];
    }
  }

  /** Over every run: an expectation has had its calls exactly if their number is within its limits. */
  lemma SatisfiedByCalls(c: Spec, calls: seq<nat>, v: nat)
    requires SpecOk(c) && Legal(c, Start(c), calls) && v < |c.needs|
    ensures IsSatisfied(c, After(c, Start(c), calls), v) <==> c.atLeast[v] <= multiset(calls)[v] <= c.atMost[v]
  {
    CountsAreCalls(c, Start(c), calls, v);
  }

  /** Exactly the first calls an expectation takes, up to its limit, are expected; all others are excessive. */
  lemma FirstCallsAreExpected(c: Spec, calls: seq<nat>, v: nat)
    requires SpecOk(c) && Legal(c, Start(c), calls) && v < |c.needs|
    ensures IsSaturated(c, After(c, Start(c), calls), v) <==> multiset(calls)[v] >= c.atMost[v]
  {
    CountsAreCalls(c, Start(c), calls, v);
  }

  /** An expectation that retires on saturation is retired when it has had as many calls as it may. */
  ghost predicate RetiredInTime(c: Spec, s: State, v: nat)
    requires Fits(c, s) && v < |c.needs|
  {
    s.counts[v] <= c.atMost[v] && (s.counts[v] == c.atMost[v] ==> v in s.retired)
  }

  lemma {:induction false} StaysInTime(c: Spec, s: State, calls: seq<nat>, v: nat)
    requires SpecOk(c) && Fits(c, s) && Legal(c, s, calls) && v < |c.needs|
    requires c.retiresOnSaturation[v] && RetiredInTime(c, s, v)
    ensures RetiredInTime(c, After(c, s, calls), v)
    decreases |calls|
  {
    if calls != [] {
      StaysInTime(c, Called(c, s, calls[0]), calls[1..], v);
    }
  }

  /** Over every run, an expectation that retires on saturation takes no call beyond its limit, unless that is 0. */
  lemma RetiringTakesNoMore(c: Spec, calls: seq<nat>, v: nat)
    requires SpecOk(c) && Legal(c, Start(c), calls) && v < |c.needs| && c.retiresOnSaturation[v] && c.atMost[v] > 0
    ensures multiset(calls)[v] <= c.atMost[v]
  {
    StaysInTime(c, Start(c), calls, v);
    CountsAreCalls(c, Start(c), calls, v);
  }

  // ---------------------------------------------------------------- the walks

  class Expectations {
    const spec: Spec
    const counts: array<nat>
    const retired: array<bool>

    constructor (spec: Spec)
      requires SpecOk(spec)
      ensures this.spec == spec && Valid() && fresh(counts) && fresh(retired)
      ensures Now() == State(seq(|spec.needs|, _ => 0), {})
    {
      this.spec := spec;
      counts := new nat[|spec.needs|](_ => 0);
      retired := new bool[|spec.needs|](_ => false);
      new;
      assert Now().counts == seq(|spec.needs|, _ => 0);
      FreshOk(spec);
    }

    function Now(): State
      reads counts, retired
    {
      State(counts[..], set v: nat | v < retired.Length && retired[v])
    }

    ghost predicate Shaped()
    {
      SpecOk(spec) && counts.Length == retired.Length == |spec.needs|
    }

    ghost predicate Valid()
      reads counts, retired
    {
      Shaped() && Ok(spec, Now())
    }

    /** Whatever is retired, its prerequisites are, if they are for all but the `open` ones. */
    ghost predicate RetiredExcept(v: nat, open: seq<nat>)
      requires Shaped()
      reads counts, retired
    {
      forall u :: (u in Now().retired || u == v) && u !in open ==> NeedsRetired(u)
    }

    ghost predicate NeedsRetired(u: nat)
      requires Shaped()
      reads counts, retired
    {
      u < |spec.needs| ==> forall i :: 0 <= i < |spec.needs[u]| ==> spec.needs[u][i] in Now().retired
    }

    /** Retires everything `v` depends on, unless `v` itself is retired. */
    method RetireAllPreRequisites(v: nat)
      requires Shaped() && v < |spec.needs| && Closed(spec.needs, Now().retired)
      modifies retired
      ensures Now().retired == old(Now().retired) + if old(retired[v]) then {} else Reach(spec.needs, v)
    {
      if retired[v] {
        return;
      }
      var expectations := [v];
      ghost var before := Now().retired;
      while expectations != []
        invariant InGraph(spec.needs, expectations)
        invariant before <= Now().retired <= before + Reach(spec.needs, v)
        invariant From(spec.needs, expectations, v)
        invariant RetiredExcept(v, expectations)
        decreases |spec.needs| - |Now().retired|, |expectations|
      {
        RetiredBounded();
        expectations := RetireNeeds(expectations, v);
        RetiredBounded();
      }
      assert NeedsRetired(v);
      assert Closed(spec.needs, Now().retired);
      ReachInClosed(spec.needs, Now().retired, v);
    }

    lemma RetiredBounded()
      requires Shaped()
      ensures |Now().retired| <= |spec.needs|
    {
      SubsetSize(Now().retired, Below(|spec.needs|));
    }

    /** The turn of RetireAllPreRequisites for the last of the open expectations. */
    method RetireNeeds(open: seq<nat>, ghost v: nat) returns (rest: seq<nat>)
      requires Shaped() && v < |spec.needs| && open != [] && InGraph(spec.needs, open)
      requires From(spec.needs, open, v) && RetiredExcept(v, open)
      modifies retired
      ensures InGraph(spec.needs, rest) && From(spec.needs, rest, v)
      ensures old(Now().retired) <= Now().retired <= old(Now().retired) + Reach(spec.needs, v)
      ensures RetiredExcept(v, rest)
      ensures |Now().retired| > |old(Now().retired)| || (Now().retired == old(Now().retired) && |rest| < |open|)
    {
      var exp := open[|open| - 1];
      rest := open[..|open| - 1];
      ghost var before := Now().retired;
      for i := 0 to |spec.needs[exp]|
        invariant InGraph(spec.needs, rest) && From(spec.needs, rest, v)
        invariant before <= Now().retired <= before + Reach(spec.needs, v)
        invariant forall u :: u in open && u != exp ==> u in rest
        invariant forall u :: u in Now().retired ==> u in before || u in rest
        invariant forall j :: 0 <= j < i ==> spec.needs[exp][j] in Now().retired
        invariant if Now().retired == before then |rest| < |open| else |Now().retired| > |before|
      {
        var next := spec.needs[exp][i];
        FromEdge(spec.needs, exp, v, i);
        if !retired[next] {
          ghost var r := Now().retired;
          retired[next] := true;
          assert Now().retired == r + {next};
          rest := rest + [next];
        }
      }
      assert NeedsRetired(exp);
      forall u | (u in Now().retired || u == v) && u !in rest ensures NeedsRetired(u) {
        assert u == exp || u !in open;
      }
    }

    /**
     Whether everything `v` depends on has had its calls.  No record is kept of
     what was visited; the walk ends because there is no cycle.
     */
    method AllPrerequisitesAreSatisfied(v: nat) returns (all: bool)
      requires Shaped() && v < |spec.needs|
      ensures all <==> Reach(spec.needs, v) <= Satisfied(spec, Now())
      ensures all <==> forall u :: u in Reach(spec.needs, v) ==> spec.atLeast[u] <= counts[u] <= spec.atMost[u]
    {
      var expectations := [v];
      ghost var sat := Satisfied(spec, Now());
      assert ReachAll(spec.needs, [v]) == Reach(spec.needs, v) by { assert [v][0] == v; }
      while expectations != []
        invariant InGraph(spec.needs, expectations) && From(spec.needs, expectations, v)
        invariant Reach(spec.needs, v) <= sat + ReachAll(spec.needs, expectations)
        decreases Pending(spec.needs, expectations)
      {
        var exp := expectations[|expectations| - 1];
        ghost var open := expectations;
        expectations := expectations[..|expectations| - 1];
        ghost var kept: seq<nat> := [];
        for i := 0 to |spec.needs[exp]|
          invariant kept == spec.needs[exp][..i] && expectations == open[..|open| - 1] + kept
          invariant forall j :: 0 <= j < i ==> spec.needs[exp][j] in sat
        {
          var next := spec.needs[exp][i];
          FromEdge(spec.needs, exp, v, i);
          if !IsSatisfied(spec, Now(), next) {
            return false;
          }
          expectations := expectations + [next];
          kept := kept + [next];
        }
        assert kept == spec.needs[exp];
        AllIsPart(kept);
        Expanded(spec.needs, open, kept);
        FromNeeds(spec.needs, open, kept, v);
        WalkStep(spec.needs, sat, v, open, kept);
      }
      return true;
    }

    /**
     The unsatisfied prerequisites to report: all to which a path leads over satisfied ones that have
     had no call.  A satisfied one that has had a call is not looked behind, which loses no case: the
     result is empty exactly if there is nothing to report at all.
     */
    method FindUnsatisfiedPrerequisites(v: nat) returns (result: set<nat>)
      requires Valid() && v < |spec.needs|
      ensures forall w: nat :: w in result <==>
                w < |spec.needs| && LeadsTo(spec.needs, Idle(spec, Now()), v, w) && !(spec.atLeast[w] <= counts[w] <= spec.atMost[w])
      ensures forall w :: w in spec.needs[v] && !(spec.atLeast[w] <= counts[w] <= spec.atMost[w]) ==> w in result
      ensures result == {} <==> Reach(spec.needs, v) <= Satisfied(spec, Now())
    {
      var expectations := [v];
      result := {};
      ghost var sat, idle := Satisfied(spec, Now()), Idle(spec, Now());
      assert ThroughAll(spec.needs, idle, [v]) == Through(spec.needs, idle, v) by { assert [v][0] == v; }
      while expectations != []
        invariant InGraph(spec.needs, expectations) && Passed(spec.needs, idle, expectations, v)
        invariant result <= Through(spec.needs, idle, v) - sat <= result + ThroughAll(spec.needs, idle, expectations)
        decreases Pending(spec.needs, expectations)
      {
        var exp := expectations[|expectations| - 1];
        ghost var open := expectations;
        var kept, found := SortNeeds(exp);
        expectations := expectations[..|expectations| - 1] + kept;
        Expanded(spec.needs, open, kept);
        PassedNeeds(spec.needs, idle, open, kept, v);
        FoundNeeds(spec.needs, idle, sat, open, kept, found, result, v);
        result := result + found;
      }
      forall i | 0 <= i < |spec.needs[v]| ensures spec.needs[v][i] in Through(spec.needs, idle, v) {
        ThroughEdge(spec.needs, idle, v, i);
      }
      ThroughInReach(spec.needs, idle, v);
      if result == {} {
        NothingBehind(spec, Now(), v);
      }
    }

    /** The prerequisites of `exp` to look behind, and those to report. */
    method SortNeeds(exp: nat) returns (kept: seq<nat>, found: set<nat>)
      requires Shaped() && exp < |spec.needs|
      ensures PartOf(kept, spec.needs[exp])
      ensures forall w :: w in kept <==> w in spec.needs[exp] && w in Idle(spec, Now())
      ensures forall w :: w in found <==> w in spec.needs[exp] && w !in Satisfied(spec, Now())
    {
      var needs := spec.needs[exp];
      kept, found := [], {};
      for i := 0 to |needs|
        invariant PartOf(kept, needs[..i])
        invariant forall w :: w in kept <==> w in needs[..i] && w in Idle(spec, Now())
        invariant forall w :: w in found <==> w in needs[..i] && w !in Satisfied(spec, Now())
      {
        var next := needs[i];
        assert needs[..i + 1] == needs[..i] + [next];
        assert needs[..i + 1][..i] == needs[..i];
        if IsSatisfied(spec, Now(), next) {
          if counts[next] == 0 {
            assert (kept + [next])[..|kept|] == kept;
            kept := kept + [next];
          }
        } else {
          found := found + {next};
        }
      }
      assert needs[..|needs|] == needs;
    }

    /** Whether `v` takes a call whose arguments match it. */
    method ShouldHandle(v: nat) returns (yes: bool)
      requires Shaped() && v < |spec.needs|
      ensures yes <==> Handles(spec, Now(), v)
      ensures yes <==> !retired[v] && forall u :: u in Reach(spec.needs, v) ==> spec.atLeast[u] <= counts[u] <= spec.atMost[u]
    {
      if retired[v] {
        return false;
      }
      yes := AllPrerequisitesAreSatisfied(v);
    }

    /** `v` takes a call; the result says whether that was within its limit. */
    method TakeCall(v: nat) returns (expected: bool)
      requires Valid() && Handles(spec, Now(), v)
      modifies counts, retired
      ensures Valid() && Now() == old(Called(spec, Now(), v))
      ensures expected <==> old(counts[v]) < spec.atMost[v]
      ensures counts[..] == old(counts[..])[v := old(counts[v]) + 1]
      ensures !expected ==> retired[..] == old(retired[..])
      ensures expected ==> forall u :: 0 <= u < retired.Length ==>
                (retired[u] <==> old(retired[u]) || u in Reach(spec.needs, v)
                                 || (u == v && spec.retiresOnSaturation[v] && counts[v] >= spec.atMost[v]))
    {
      ghost var s := Now();
      CalledOk(spec, s, v);
      assert forall u: nat :: u < retired.Length ==> (retired[u] <==> u in s.retired);
      if counts[v] >= spec.atMost[v] {
        counts[v] := counts[v] + 1;
        assert Now() == Called(spec, s, v);
        return false;
      }
      counts[v] := counts[v] + 1;
      assert Now() == s.(counts := s.counts[v := s.counts[v] + 1]);
      RetireAllPreRequisites(v);
      ghost var r := Now().retired;
      if spec.retiresOnSaturation[v] && counts[v] >= spec.atMost[v] {
        retired[v] := true;
        assert Now().retired == r + {v};
      }
      assert Now() == Called(spec, s, v);
      forall u: nat | u < retired.Length
        ensures retired[u] <==> u in s.retired || u in Reach(spec.needs, v) || (u == v && spec.retiresOnSaturation[v] && counts[v] >= spec.atMost[v])
      {
        assert retired[u] <==> u in Now().retired;
      }
      return true;
    }
  }

  /** The walk from `v` only meets `v` and what it reaches. */
  ghost predicate From(g: Graph, xs: seq<nat>, v: nat)
    requires GraphOk(g)
  {
    forall i :: 0 <= i < |xs| ==> xs[i] == v || xs[i] in Reach(g, v)
  }

  lemma FromEdge(g: Graph, exp: nat, v: nat, i: nat)
    requires GraphOk(g) && exp < |g| && (exp == v || exp in Reach(g, v)) && i < |g[exp]|
    ensures g[exp][i] in Reach(g, v)
  {
    ReachIsClosed(g, v);
    Edge(g, exp, i);
  }

  lemma FromNeeds(g: Graph, xs: seq<nat>, kept: seq<nat>, v: nat)
    requires GraphOk(g) && InGraph(g, xs) && xs != [] && From(g, xs, v)
    requires forall w :: w in kept ==> w in g[xs[|xs| - 1]]
    ensures From(g, xs[..|xs| - 1] + kept, v)
  {
    var exp := xs[|xs| - 1];
    forall i | 0 <= i < |kept| ensures kept[i] in Reach(g, v) {
      assert kept[i] in kept;
      var j :| 0 <= j < |g[exp]| && g[exp][j] == kept[i];
      FromEdge(g, exp, v, j);
    }
  }

  lemma {:induction false} AllIsPart(all: seq<nat>)
    ensures PartOf(all, all)
    decreases |all|
  {
    if all != [] {
      AllIsPart(all[..|all| - 1]);
    }
  }

  /**
   If the top's prerequisites are fine, and for those not kept so is all they
   reach, then what remains to be looked at is what the new stack reaches.
   */
  lemma WalkStep(g: Graph, fine: set<nat>, v: nat, xs: seq<nat>, kept: seq<nat>)
    requires GraphOk(g) && InGraph(g, xs) && xs != []
    requires Reach(g, v) <= fine + ReachAll(g, xs)
    requires forall w :: w in g[xs[|xs| - 1]] ==> w in fine && (w in kept || Reach(g, w) <= fine)
    ensures Reach(g, v) <= fine + ReachAll(g, xs[..|xs| - 1] + kept)
  {
    var exp, rest := xs[|xs| - 1], xs[..|xs| - 1] + kept;
    Unfold(g, exp);
    forall w | w in Reach(g, v) && w !in fine ensures w in ReachAll(g, rest) {
      var i :| 0 <= i < |xs| && w in Reach(g, xs[i]);
      if i < |xs| - 1 {
        assert rest[i] == xs[i];
      } else {
        var j :| 0 <= j < |g[exp]| && w in Reach(g, g[exp][j]);
        assert g[exp][j] in g[exp] && g[exp][j] in kept;
        var m :| 0 <= m < |kept| && kept[m] == g[exp][j];
        assert rest[|xs| - 1 + m] == kept[m];
      }
    }
  }

  /** The walk only passes nodes that may be passed, on paths from `v`. */
  ghost predicate Passed(g: Graph, open: set<nat>, xs: seq<nat>, v: nat)
    requires GraphOk(g)
  {
    forall i :: 0 <= i < |xs| ==> xs[i] == v || (xs[i] in open && xs[i] in Through(g, open, v))
  }

  lemma OnFrom(g: Graph, open: set<nat>, exp: nat, v: nat)
    requires GraphOk(g) && (exp == v || (exp in open && exp in Through(g, open, v)))
    ensures Through(g, open, exp) <= Through(g, open, v)
  {
    if exp != v {
      var k: nat :| ThroughIn(g, open, v, exp, k);
      ThroughTransitive(g, open, v, exp, k);
    }
  }

  lemma PassedNeeds(g: Graph, open: set<nat>, xs: seq<nat>, kept: seq<nat>, v: nat)
    requires GraphOk(g) && InGraph(g, xs) && xs != [] && Passed(g, open, xs, v)
    requires forall w :: w in kept ==> w in g[xs[|xs| - 1]] && w in open
    ensures Passed(g, open, xs[..|xs| - 1] + kept, v)
  {
    var exp := xs[|xs| - 1];
    OnFrom(g, open, exp, v);
    forall i | 0 <= i < |kept| ensures kept[i] in open && kept[i] in Through(g, open, v) {
      assert kept[i] in kept;
      var j :| 0 <= j < |g[exp]| && g[exp][j] == kept[i];
      ThroughEdge(g, open, exp, j);
    }
  }

  /** The turn of the walk for the top of the stack keeps what was found right and what is left complete. */
  lemma FoundNeeds(g: Graph, open: set<nat>, sat: set<nat>, xs: seq<nat>, kept: seq<nat>, found: set<nat>, result: set<nat>, v: nat)
    requires GraphOk(g) && InGraph(g, xs) && xs != [] && Passed(g, open, xs, v)
    requires forall w :: w in kept <==> w in g[xs[|xs| - 1]] && w in open
    requires forall w :: w in found <==> w in g[xs[|xs| - 1]] && w !in sat
    requires result <= Through(g, open, v) - sat <= result + ThroughAll(g, open, xs)
    ensures result + found <= Through(g, open, v) - sat <= result + found + ThroughAll(g, open, xs[..|xs| - 1] + kept)
  {
    var exp, rest := xs[|xs| - 1], xs[..|xs| - 1] + kept;
    OnFrom(g, open, exp, v);
    ThroughUnfold(g, open, exp, kept);
    forall w | w in found ensures w in Through(g, open, v) {
      var j :| 0 <= j < |g[exp]| && g[exp][j] == w;
      ThroughEdge(g, open, exp, j);
    }
    forall w | w in Through(g, open, v) - sat && w !in result + found ensures w in ThroughAll(g, open, rest) {
      var i :| 0 <= i < |xs| && w in Through(g, open, xs[i]);
      if i < |xs| - 1 {
        assert rest[i] == xs[i];
      } else {
        var m :| 0 <= m < |kept| && w in Through(g, open, kept[m]);
        assert rest[|xs| - 1 + m] == kept[m];
      }
    }
  }

  /** If nothing unsatisfied is found over idle nodes, there is none at all. */
  lemma {:induction false} NothingBehind(c: Spec, s: State, v: nat)
    requires SpecOk(c) && Fits(c, s) && Ok(c, s) && v < |c.needs|
    requires Through(c.needs, Idle(c, s), v) <= Satisfied(c, s)
    ensures Reach(c.needs, v) <= Satisfied(c, s)
    decreases Rank(c.needs, v)
  {
    var g, idle, sat := c.needs, Idle(c, s), Satisfied(c, s);
    forall i | 0 <= i < |g[v]| ensures g[v][i] in sat && Reach(g, g[v][i]) <= sat {
      ThroughEdge(g, idle, v, i);
      assert g[v][i] in sat;
      if g[v][i] in idle {
        RankFalls(g, v, i);
        NothingBehind(c, s, g[v][i]);
      } else {
        assert Settled(c, s, g[v][i]);
      }
    }
    Unfold(g, v);
  }
}
