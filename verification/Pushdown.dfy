/**
 Handing the conditions of a WHERE clause to the scans of the tables
 (src/execution/execution_manager.cpp, src/execution/executor_seq_scan.h), and
 the rows the nested scans then select.
 */
module Pushdown {
  import opened Conditions

  // ---------------------------------------------------------------- handing out

  predicate Covered(tabs: seq<string>, c: Condition) {
    c.lhs.tab in tabs && (c.rhs.Col? ==> c.rhs.col.tab in tabs)
  }

  /** Table `j` is the first with which the prefix of the table list covers `c`. */
  predicate FirstAt(tabs: seq<string>, c: Condition, j: nat) {
    j < |tabs| && Covered(tabs[..j + 1], c) && !Covered(tabs[..j], c)
  }

  function Select<T(!new)>(xs: seq<T>, p: T -> bool): (r: seq<T>)
    ensures forall x :: x in r <==> x in xs && p(x)
  {
    if xs == [] then []
    else if p(xs[0]) then [xs[0]] + Select(xs[1..], p)
    else Select(xs[1..], p)
  }

  lemma {:induction false} SelectAppend<T(!new)>(xs: seq<T>, x: T, p: T -> bool)
    ensures Select(xs + [x], p) == Select(xs, p) + if p(x) then [x] else []
  {
    if xs == [] {
      assert (xs + [x])[1..] == [];
    } else {
      assert (xs + [x])[1..] == xs[1..] + [x];
      SelectAppend(xs[1..], x, p);
    }
  }

  lemma {:induction false} SelectTwice<T(!new)>(xs: seq<T>, p: T -> bool, q: T -> bool, both: T -> bool)
    requires forall x :: both(x) <==> p(x) && q(x)
    ensures Select(Select(xs, p), q) == Select(xs, both)
  {
    if xs != [] {
      SelectTwice(xs[1..], p, q, both);
      if p(xs[0]) {
        var s := Select(xs, p);
        assert s[0] == xs[0] && s[1..] == Select(xs[1..], p);
      }
    }
  }

  lemma {:induction false} SelectAll<T(!new)>(xs: seq<T>, p: T -> bool)
    requires forall x :: x in xs ==> p(x)
    ensures Select(xs, p) == xs
  {
    if xs != [] {
      assert xs[0] in xs;
      forall x | x in xs[1..] ensures p(x) { assert x in xs; }
      SelectAll(xs[1..], p);
    }
  }

  lemma {:induction false} SelectSame<T(!new)>(xs: seq<T>, p: T -> bool, q: T -> bool)
    requires forall x :: x in xs ==> (p(x) <==> q(x))
    ensures Select(xs, p) == Select(xs, q)
  {
    if xs != [] {
      assert xs[0] in xs;
      forall x | x in xs[1..] ensures p(x) <==> q(x) { assert x in xs; }
      SelectSame(xs[1..], p, q);
    }
  }

  /** Splits off the conditions the given tables cover; both parts keep their order. */
  method PopConds(conds: seq<Condition>, tabs: seq<string>) returns (solved: seq<Condition>, rest: seq<Condition>)
    ensures solved == Select(conds, c => Covered(tabs, c))
    ensures rest == Select(conds, c => !Covered(tabs, c))
    ensures multiset(solved) + multiset(rest) == multiset(conds)
  {
    solved, rest := [], conds;
    var it := 0;
    ghost var seen := 0;
    while it < |rest|
      invariant 0 <= it <= |rest| && 0 <= seen <= |conds|
      invariant rest[it..] == conds[seen..]
      invariant solved == Select(conds[..seen], c => Covered(tabs, c))
      invariant rest[..it] == Select(conds[..seen], c => !Covered(tabs, c))
      decreases |rest| - it
    {
      var cond := rest[it];
      assert cond == rest[it..][0] == conds[seen];
      TakeOne(conds, seen, tabs);
      assert rest[it + 1..] == conds[seen + 1..];
      if cond.lhs.tab in tabs && (cond.rhs.Val? || cond.rhs.col.tab in tabs) {
        solved := solved + [cond];
        ghost var was := rest;
        rest := rest[..it] + rest[it + 1..];
        assert rest[..it] == was[..it] && rest[it..] == was[it + 1..];
      } else {
        assert rest[..it + 1] == rest[..it] + [cond];
        it := it + 1;
      }
      seen := seen + 1;
    }
    assert rest[..it] == rest && conds[..seen] == conds;
    SelectSplits(conds, c => Covered(tabs, c), c => !Covered(tabs, c));
  }

  lemma {:induction false} SelectSplits<T(!new)>(xs: seq<T>, p: T -> bool, q: T -> bool)
    requires forall x :: q(x) <==> !p(x)
    ensures multiset(Select(xs, p)) + multiset(Select(xs, q)) == multiset(xs)
  {
    if xs != [] {
      SelectSplits(xs[1..], p, q);
      assert xs == [xs[0]] + xs[1..];
    }
  }

  lemma TakeOne(conds: seq<Condition>, n: nat, tabs: seq<string>)
    requires n < |conds|
    ensures conds[..n + 1] == conds[..n] + [conds[n]]
    ensures Select(conds[..n + 1], c => Covered(tabs, c)) ==
            Select(conds[..n], c => Covered(tabs, c)) + if Covered(tabs, conds[n]) then [conds[n]] else []
    ensures Select(conds[..n + 1], c => !Covered(tabs, c)) ==
            Select(conds[..n], c => !Covered(tabs, c)) + if Covered(tabs, conds[n]) then [] else [conds[n]]
  {
    assert conds[..n + 1] == conds[..n] + [conds[n]];
    SelectAppend(conds[..n], conds[n], c => Covered(tabs, c));
    SelectAppend(conds[..n], conds[n], c => !Covered(tabs, c));
  }

  function Level(conds: seq<Condition>, tabs: seq<string>, j: nat): seq<Condition> {
    Select(conds, c => FirstAt(tabs, c, j))
  }

  ghost function Total(levels: seq<seq<Condition>>): multiset<Condition> {
    if levels == [] then multiset{} else Total(levels[..|levels| - 1]) + multiset(levels[|levels| - 1])
  }

  /** The first `i` tables have their conditions, the others are left. */
  ghost predicate HandedOut(conds: seq<Condition>, tabs: seq<string>, i: nat, levels: seq<seq<Condition>>, rest: seq<Condition>)
    requires i <= |tabs|
  {
    && |levels| == i
    && (forall j: nat :: j < i ==> levels[j] == Level(conds, tabs, j))
    && rest == Select(conds, c => !Covered(tabs[..i], c))
    && Total(levels) + multiset(rest) == multiset(conds)
  }

  /**
   The loop of select_from: table `j` gets the conditions it is the first to
   cover; what is left at the end is what no table list covers.
   */
  method HandOut(conds: seq<Condition>, tabs: seq<string>) returns (levels: seq<seq<Condition>>, rest: seq<Condition>)
    ensures |levels| == |tabs|
    ensures forall j: nat :: j < |tabs| ==> levels[j] == Level(conds, tabs, j)
    ensures rest == Select(conds, c => !Covered(tabs, c))
    ensures Total(levels) + multiset(rest) == multiset(conds)
  {
    levels, rest := [], conds;
    SelectAll(conds, c => !Covered(tabs[..0], c));
    for i := 0 to |tabs|
      invariant HandedOut(conds, tabs, i, levels, rest)
    {
      var curr, left := PopConds(rest, tabs[..i + 1]);
      HandOutOne(conds, tabs, i, levels, rest, curr, left);
      levels, rest := levels + [curr], left;
    }
    assert tabs[..|tabs|] == tabs;
  }

  lemma HandOutOne(conds: seq<Condition>, tabs: seq<string>, i: nat, levels: seq<seq<Condition>>, rest: seq<Condition>,
                   curr: seq<Condition>, left: seq<Condition>)
    requires i < |tabs| && HandedOut(conds, tabs, i, levels, rest)
    requires curr == Select(rest, c => Covered(tabs[..i + 1], c))
    requires left == Select(rest, c => !Covered(tabs[..i + 1], c))
    requires multiset(curr) + multiset(left) == multiset(rest)
    ensures HandedOut(conds, tabs, i + 1, levels + [curr], left)
  {
    NextLevel(conds, tabs, i);
    var more := levels + [curr];
    assert more[..|more| - 1] == levels;
    assert Total(more) == Total(levels) + multiset(curr);
  }

  lemma PrefixCovers(tabs: seq<string>, c: Condition, i: nat, j: nat)
    requires i <= j <= |tabs| && Covered(tabs[..i], c)
    ensures Covered(tabs[..j], c)
  {
    assert tabs[..i] == tabs[..j][..i];
  }

  lemma NextLevel(conds: seq<Condition>, tabs: seq<string>, i: nat)
    requires i < |tabs|
    ensures var left := Select(conds, c => !Covered(tabs[..i], c));
      && Select(left, c => Covered(tabs[..i + 1], c)) == Level(conds, tabs, i)
      && Select(left, c => !Covered(tabs[..i + 1], c)) == Select(conds, c => !Covered(tabs[..i + 1], c))
  {
    SelectTwice(conds, c => !Covered(tabs[..i], c), c => Covered(tabs[..i + 1], c), c => FirstAt(tabs, c, i));
    forall c ensures !Covered(tabs[..i + 1], c) <==> !Covered(tabs[..i], c) && !Covered(tabs[..i + 1], c) {
      if Covered(tabs[..i], c) {
        PrefixCovers(tabs, c, i, i + 1);
      }
    }
    SelectTwice(conds, c => !Covered(tabs[..i], c), c => !Covered(tabs[..i + 1], c), c => !Covered(tabs[..i + 1], c));
  }

  /** A covered condition goes to exactly one table. */
  lemma {:induction false} ExactlyOneLevel(tabs: seq<string>, c: Condition, n: nat) returns (j: nat)
    requires n <= |tabs| && Covered(tabs[..n], c)
    ensures j < n && FirstAt(tabs, c, j)
    ensures forall k: nat :: FirstAt(tabs, c, k) ==> k == j
  {
    assert n > 0;
    if Covered(tabs[..n - 1], c) {
      j := ExactlyOneLevel(tabs, c, n - 1);
    } else {
      j := n - 1;
    }
    forall k: nat | FirstAt(tabs, c, k) ensures k == j {
      if k < j { PrefixCovers(tabs, c, k + 1, j); }
      if j < k { PrefixCovers(tabs, c, j + 1, k); }
    }
  }

  /** Nothing is left over exactly when every table a condition names is listed. */
  lemma NothingLeftIffAllListed(conds: seq<Condition>, tabs: seq<string>)
    ensures Select(conds, c => !Covered(tabs, c)) == [] <==> forall c :: c in conds ==> Covered(tabs, c)
  {
    var left := Select(conds, c => !Covered(tabs, c));
    if left != [] {
      assert left[0] in left;
    } else {
      forall c | c in conds ensures Covered(tabs, c) {
        assert !Covered(tabs, c) ==> c in left;
      }
    }
  }

  /**
   One side of a condition is on the table that gets it, the other on that
   table or an earlier one: what the scan's constructor asserts.
   */
  lemma OneSideIsOwn(tabs: seq<string>, c: Condition, j: nat)
    requires FirstAt(tabs, c, j)
    ensures c.lhs.tab == tabs[j] || (c.rhs.Col? && c.rhs.col.tab == tabs[j])
    ensures Turned(tabs[j], c).lhs.tab == tabs[j]
    ensures Covered(tabs[..j + 1], Turned(tabs[j], c))
  {
    assert tabs[..j + 1] == tabs[..j] + [tabs[j]];
  }

  // ---------------------------------------------------------------- the scan

  class SeqScanExecutor {
    const tab: string
    var conds: seq<Condition>
    var fedConds: seq<Condition>

    /** Brings the own column of every condition to its left side. */
    constructor (tab: string, conds: seq<Condition>)
      requires forall c :: c in conds ==> c.lhs.tab == tab || (c.rhs.Col? && c.rhs.col.tab == tab)
      ensures this.tab == tab && |this.conds| == |conds|
      ensures forall i :: 0 <= i < |conds| ==> this.conds[i] == Turned(tab, conds[i])
      ensures forall i :: 0 <= i < |conds| ==> this.conds[i].lhs.tab == tab
      ensures fedConds == this.conds
    {
      var cs := conds;
      for k := 0 to |cs|
        invariant |cs| == |conds|
        invariant forall i :: 0 <= i < k ==> cs[i] == Turned(tab, conds[i])
        invariant forall i :: k <= i < |cs| ==> cs[i] == conds[i]
      {
        if cs[k].lhs.tab != tab {
          assert conds[k] in conds;
          cs := cs[k := Condition(cs[k].rhs.col, SwapOp(cs[k].op), Col(cs[k].lhs))];
        }
      }
      this.tab := tab;
      this.conds := cs;
      this.fedConds := cs;
      assert forall i :: 0 <= i < |conds| ==> conds[i] in conds;
    }

    /**
     Puts the values of the outer rows in.  It fails when one is missing, and
     otherwise leaves conditions that check_runtime_conds accepts.
     */
    method Feed(feed: Row) returns (fed: bool)
      requires forall i :: 0 <= i < |conds| ==> conds[i].lhs.tab == tab
      modifies this`fedConds
      ensures fed <==> forall i :: 0 <= i < |conds| ==> CanFeed(tab, conds[i], feed)
      ensures |fedConds| == |conds|
      ensures fed ==> forall i :: 0 <= i < |conds| ==> fedConds[i] == Fed(tab, conds[i], feed)
      ensures fed ==> forall i :: 0 <= i < |conds| ==> RuntimeOk(tab, fedConds[i])
    {
      fedConds := conds;
      for k := 0 to |fedConds|
        invariant |fedConds| == |conds|
        invariant forall i :: 0 <= i < k ==> CanFeed(tab, conds[i], feed) && fedConds[i] == Fed(tab, conds[i], feed)
        invariant forall i :: k <= i < |conds| ==> fedConds[i] == conds[i]
      {
        var cond := fedConds[k];
        if cond.rhs.Col? && cond.rhs.col.tab != tab {
          if cond.rhs.col !in feed {
            assert !CanFeed(tab, conds[k], feed);
            return false;
          }
          fedConds := fedConds[k := cond.(rhs := Val(feed[cond.rhs.col]))];
        }
      }
      return true;
    }

    method CheckRuntimeConds() returns (ok: bool)
      ensures ok <==> forall i :: 0 <= i < |fedConds| ==> RuntimeOk(tab, fedConds[i])
    {
      for k := 0 to |fedConds|
        invariant forall i :: 0 <= i < k ==> RuntimeOk(tab, fedConds[i])
      {
        var cond := fedConds[k];
        if cond.lhs.tab != tab || (cond.rhs.Col? && cond.rhs.col.tab != tab) {
          return false;
        }
      }
      return true;
    }

    method EvalConds(row: Row) returns (all: bool)
      requires forall i :: 0 <= i < |fedConds| ==> Evaluable(fedConds[i], row)
      ensures all <==> AllHold(fedConds, row)
      ensures all <==> forall i :: 0 <= i < |fedConds| ==>
                Evaluable(fedConds[i], row) && Satisfies(fedConds[i].op, row[fedConds[i].lhs], Rhs(fedConds[i], row))
    {
      forall i | 0 <= i < |fedConds|
        ensures Holds(fedConds[i], row) <==> Satisfies(fedConds[i].op, row[fedConds[i].lhs], Rhs(fedConds[i], row))
      {
        HoldsInOrder(fedConds[i], row);
      }
      for k := 0 to |fedConds|
        invariant AllHold(fedConds[..k], row)
      {
        if !Accepts(fedConds[k].op, Compare(row[fedConds[k].lhs], Rhs(fedConds[k], row))) {
          return false;
        }
      }
      assert fedConds[..|fedConds|] == fedConds;
      return true;
    }
  }
}
