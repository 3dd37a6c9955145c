/**
 What a well-formed tree looks like as a whole: the leaf chain is its left-to-right traversal,
 its number of entries grows exponentially with its height, and the entries behave like a map.
 */
module TreeTraversal {
  import opened TreeShape
  import opened TreeSplit
  import opened TreeSplitProof
  import opened TreeMerge
  import opened TreeContents
  import opened TreeSizes
  import opened TreeShrink
  import opened IndexNode

  // ---------------------------------------------------------------- the traversal

  /** The leaf pages below page p, from left to right. */
  ghost function LeavesBelow(t: Tree, p: PageNo): seq<PageNo>
    requires NodesOk(t) && p in t.extents
    decreases t.extents[p].height, 0
  {
    if t.pages[p].isLeaf then [p]
    else assert NodeOk(t, p); LeavesBelowSlots(t, p, |t.pages[p].rids|)
  }

  /** The leaf pages below the first n children of page p. */
  ghost function LeavesBelowSlots(t: Tree, p: PageNo, n: nat): seq<PageNo>
    requires NodesOk(t) && p in t.extents && !t.pages[p].isLeaf && n <= |t.pages[p].rids|
    decreases t.extents[p].height, 0, n
  {
    if n == 0 then []
    else
      ChildFacts(t, p, n - 1);
      LeavesBelowSlots(t, p, n - 1) + LeavesBelow(t, t.pages[p].rids[n - 1].pageNo)
  }

  /** The leaves s follow each other without gap from lo to hi. */
  ghost predicate Run(t: Tree, s: seq<PageNo>, lo: Bound, hi: Bound) {
    && s != []
    && (forall p :: p in s ==> p in t.extents && p in t.pages && t.pages[p].isLeaf)
    && t.extents[s[0]].lo == lo && t.extents[s[|s| - 1]].hi == hi
    && (forall i :: 0 <= i < |s| - 1 ==> StepOk(t, s, i))
  }

  lemma RunConcat(t: Tree, a: seq<PageNo>, b: seq<PageNo>, lo: Bound, mid: Bound, hi: Bound)
    requires Run(t, a, lo, mid) && Run(t, b, mid, hi)
    ensures Run(t, a + b, lo, hi)
  {
    var s := a + b;
    forall i | 0 <= i < |s| - 1 ensures StepOk(t, s, i) {
      if i < |a| - 1 {
        assert StepOk(t, a, i);
      } else if i >= |a| {
        assert StepOk(t, b, i - |a|);
      } else {
        assert s[i] == a[|a| - 1] && s[i + 1] == b[0];
      }
    }
  }

  lemma {:induction false} LeavesBelowRun(t: Tree, p: PageNo)
    requires NodesOk(t) && p in t.extents
    ensures Run(t, LeavesBelow(t, p), t.extents[p].lo, t.extents[p].hi)
    decreases t.extents[p].height, 0
  {
    assert NodeOk(t, p);
    if !t.pages[p].isLeaf {
      LeavesBelowSlotsRun(t, p, |t.pages[p].rids|);
    }
  }

  lemma {:induction false} LeavesBelowSlotsRun(t: Tree, p: PageNo, n: nat)
    requires NodesOk(t) && p in t.extents && !t.pages[p].isLeaf && 0 < n <= |t.pages[p].rids|
    ensures |t.pages[p].keys| == |t.pages[p].rids|
    ensures Run(t, LeavesBelowSlots(t, p, n), t.extents[p].lo, SlotHi(t.pages[p], t.extents[p], n - 1))
    decreases t.extents[p].height, 0, n
  {
    ChildFacts(t, p, n - 1);
    var c := t.pages[p].rids[n - 1].pageNo;
    LeavesBelowRun(t, c);
    if n == 1 {
      assert LeavesBelowSlots(t, p, 1) == [] + LeavesBelow(t, c) == LeavesBelow(t, c);
    } else {
      LeavesBelowSlotsRun(t, p, n - 1);
      RunConcat(t, LeavesBelowSlots(t, p, n - 1), LeavesBelow(t, c), t.extents[p].lo, t.extents[c].lo, t.extents[c].hi);
    }
  }

  /** Different leaves start at different keys. */
  lemma SameStart(t: Tree, p: PageNo, j: nat)
    requires WellFormed(t) && p in t.leaves && j < |t.leaves|
    ensures p in t.extents && t.leaves[j] in t.extents
    ensures t.extents[p].lo == t.extents[t.leaves[j]].lo ==> p == t.leaves[j]
  {
    assert Listed(t, p) && Listed(t, t.leaves[j]);
    var i := IndexOf(t.leaves, p);
    if i < j {
      LeavesAscend(t, i, j);
    } else if j < i {
      LeavesAscend(t, j, i);
    }
  }

  lemma {:induction false} RunFollowsChain(t: Tree, s: seq<PageNo>, i: nat)
    requires WellFormed(t) && Run(t, s, Below, Above) && i < |s|
    ensures i < |t.leaves| && s[i] == t.leaves[i]
  {
    assert Listed(t, s[i]) && NodeOk(t, s[i]);
    if i == 0 {
      SameStart(t, s[0], 0);
    } else {
      RunFollowsChain(t, s, i - 1);
      assert StepOk(t, s, i - 1);
      if i < |t.leaves| {
        assert StepOk(t, t.leaves, i - 1);
        SameStart(t, s[i], i);
      }
    }
  }

  /** The leaf chain is the left-to-right traversal of the tree. */
  lemma TraversalIsChain(t: Tree)
    requires WellFormed(t)
    ensures LeavesBelow(t, t.root) == t.leaves
  {
    var s := LeavesBelow(t, t.root);
    assert ParentOk(t, t.root);
    LeavesBelowRun(t, t.root);
    forall i: nat | i < |s| ensures i < |t.leaves| && s[i] == t.leaves[i] {
      RunFollowsChain(t, s, i);
    }
    RunFollowsChain(t, s, |s| - 1);
    OnlyLastEnds(t, |s| - 1);
  }

  /** Only the last leaf is unbounded above. */
  lemma OnlyLastEnds(t: Tree, i: nat)
    requires WellFormed(t) && i < |t.leaves| && t.leaves[i] in t.extents
    ensures i + 1 < |t.leaves| ==> t.extents[t.leaves[i]].hi != Above
  {
    if i + 1 < |t.leaves| {
      assert StepOk(t, t.leaves, i) && Listed(t, t.leaves[i + 1]) && NodeOk(t, t.leaves[i + 1]);
    }
  }

  // ---------------------------------------------------------------- height and number of entries

  function Pow(b: nat, n: nat): nat {
    if n == 0 then 1 else b * Pow(b, n - 1)
  }

  /** A page other than the root holds at least min to the number of its levels entries. */
  lemma {:induction false} EntriesBelow(t: Tree, p: PageNo, max: nat)
    requires WellFormed(t) && SizesOk(t, max, NO_PAGE) && max >= 4 && p in t.extents && p != t.root
    ensures |Flatten(t.pages, LeavesBelow(t, p))| >= Pow(MinSize(max), t.extents[p].height + 1)
    decreases t.extents[p].height, 0
  {
    assert NodeOk(t, p) && SizeOk(t, max, p);
    PowStep(MinSize(max), t.extents[p].height, |t.pages[p].keys|);
    if t.pages[p].isLeaf {
      FlattenOne(t.pages, p);
    } else {
      EntriesBelowSlots(t, p, max, |t.pages[p].rids|);
    }
  }

  lemma PowStep(m: nat, h: nat, n: nat)
    requires m <= n
    ensures Pow(m, h + 1) <= n * Pow(m, h)
    ensures Pow(m, 0) == 1
  {
    Multiply(m, n, Pow(m, h));
  }

  lemma {:induction false} EntriesBelowSlots(t: Tree, p: PageNo, max: nat, n: nat)
    requires WellFormed(t) && SizesOk(t, max, NO_PAGE) && max >= 4
    requires p in t.extents && !t.pages[p].isLeaf && n <= |t.pages[p].rids|
    ensures |Flatten(t.pages, LeavesBelowSlots(t, p, n))| >= n * Pow(MinSize(max), t.extents[p].height)
    decreases t.extents[p].height, 0, n
  {
    if n > 0 {
      ChildFacts(t, p, n - 1);
      var c := t.pages[p].rids[n - 1].pageNo;
      EntriesBelowSlots(t, p, max, n - 1);
      EntriesBelow(t, c, max);
      FlattenConcat(t.pages, LeavesBelowSlots(t, p, n - 1), LeavesBelow(t, c));
      OneMore(n, Pow(MinSize(max), t.extents[p].height));
    }
  }

  lemma OneMore(n: nat, x: nat)
    requires n > 0
    ensures n * x == (n - 1) * x + x
  {
  }

  lemma Multiply(m: nat, n: nat, x: nat)
    requires m <= n
    ensures m * x <= n * x
  {
  }

  /** A tree of height h above its leaves holds at least 2 * (max / 2)^h entries. */
  lemma HeightBound(t: Tree, max: nat)
    requires WellFormed(t) && SizesOk(t, max, NO_PAGE) && max >= 4 && !t.pages[t.root].isLeaf
    ensures t.extents[t.root].height > 0
    ensures |Entries(t)| >= 2 * Pow(max / 2, t.extents[t.root].height)
  {
    assert NodeOk(t, t.root) && SizeOk(t, max, t.root);
    TraversalIsChain(t);
    EntriesBelowSlots(t, t.root, max, |t.pages[t.root].rids|);
    Multiply(2, |t.pages[t.root].rids|, Pow(MinSize(max), t.extents[t.root].height));
  }

  // ---------------------------------------------------------------- the entries as a map

  lemma SortedTail(es: seq<Entry>)
    requires Sorted(es) && es != []
    ensures Sorted(es[1..]) && forall e :: e in es[1..] ==> es[0].0 < e.0
    ensures forall e :: e in es <==> e == es[0] || e in es[1..]
  {
    assert es == [es[0]] + es[1..];
  }

  lemma SortedCons(head: Entry, tail: seq<Entry>)
    requires Sorted(tail) && forall e :: e in tail ==> head.0 < e.0
    ensures Sorted([head] + tail) && forall e :: e in [head] + tail <==> e == head || e in tail
  {
    forall i, j | 0 <= i < j < |tail| + 1 ensures ([head] + tail)[i].0 < ([head] + tail)[j].0 {
      assert ([head] + tail)[j] == tail[j - 1];
    }
  }

  /** Insertion adds the entry unless the key is taken, and keeps everything in order. */
  lemma {:induction false} InsertedEntries(es: seq<Entry>, k: Key, v: Rid)
    requires Sorted(es)
    ensures Sorted(Inserted(es, k, v))
    ensures forall e :: e in Inserted(es, k, v) <==> e in es || (e == (k, v) && !HasKey(es, k))
  {
    if es != [] {
      SortedTail(es);
      if es[0].0 < k {
        InsertedEntries(es[1..], k, v);
        SortedCons(es[0], Inserted(es[1..], k, v));
      } else if es[0].0 > k {
        SortedCons((k, v), es);
      }
    }
  }

  /** Removal drops the entry of the key and nothing else. */
  lemma {:induction false} RemovedEntries(es: seq<Entry>, k: Key)
    requires Sorted(es)
    ensures Sorted(Removed(es, k))
    ensures forall e :: e in Removed(es, k) <==> e in es && e.0 != k
  {
    if es != [] {
      SortedTail(es);
      if es[0].0 != k {
        RemovedEntries(es[1..], k);
        SortedCons(es[0], Removed(es[1..], k));
      }
    }
  }

  /** Deleting a key that was just inserted restores the index contents. */
  lemma {:induction false} RemoveUndoesInsert(es: seq<Entry>, k: Key, v: Rid)
    requires Sorted(es) && !HasKey(es, k)
    ensures Removed(Inserted(es, k, v), k) == es
  {
    if es != [] {
      SortedTail(es);
      if es[0].0 < k {
        RemoveUndoesInsert(es[1..], k, v);
        assert Inserted(es, k, v)[1..] == Inserted(es[1..], k, v);
      }
    }
  }

  /** Inserting an entry that was just deleted restores the index contents. */
  lemma {:induction false} InsertUndoesRemove(es: seq<Entry>, k: Key, v: Rid)
    requires Sorted(es) && (k, v) in es
    ensures Inserted(Removed(es, k), k, v) == es
  {
    SortedTail(es);
    if es[0].0 == k {
      assert es == [(k, v)] + es[1..];
    } else {
      InsertUndoesRemove(es[1..], k, v);
      assert Removed(es, k)[1..] == Removed(es[1..], k);
    }
  }

  // ---------------------------------------------------------------- the responsible leaf

  /** From leaf number i on, which starts at or below the key, there is one that covers it. */
  lemma {:induction false} CoveringLeafFrom(t: Tree, key: Key, i: nat) returns (p: PageNo)
    requires WellFormed(t) && i < |t.leaves|
    requires t.leaves[i] in t.extents && !Lt(At(key), t.extents[t.leaves[i]].lo)
    ensures Responsible(t, p, key)
    decreases |t.leaves| - i
  {
    p := t.leaves[i];
    assert Listed(t, p);
    if !Covers(t.extents[p], key) {
      assert StepOk(t, t.leaves, i) || i + 1 == |t.leaves|;
      p := CoveringLeafFrom(t, key, i + 1);
    }
  }

  /** For every key there is exactly one leaf that is responsible for it. */
  lemma OneCoveringLeaf(t: Tree, key: Key)
    requires WellFormed(t)
    ensures exists p :: Responsible(t, p, key)
    ensures forall p, q :: Responsible(t, p, key) && Responsible(t, q, key) ==> p == q
  {
    assert Listed(t, t.leaves[0]);
    var p := CoveringLeafFrom(t, key, 0);
    forall p, q | Responsible(t, p, key) && Responsible(t, q, key) ensures p == q {
      assert Listed(t, p) && Listed(t, q);
      var i, j := IndexOf(t.leaves, p), IndexOf(t.leaves, q);
      if i < j { LeafBefore(t, i, j, key); }
      if j < i { LeafBefore(t, j, i, key); }
    }
  }

  /** An earlier leaf ends where a later one has not begun. */
  lemma LeafBefore(t: Tree, i: nat, j: nat, key: Key)
    requires WellFormed(t) && i < j < |t.leaves|
    requires t.leaves[i] in t.extents && t.leaves[j] in t.extents && Covers(t.extents[t.leaves[i]], key)
    ensures !Covers(t.extents[t.leaves[j]], key)
  {
    assert StepOk(t, t.leaves, i);
    if i + 1 < j {
      LeavesAscend(t, i + 1, j);
    }
  }
}
