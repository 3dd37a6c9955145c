/**
 Merging two neighbouring children of a page, as a function on trees, and the proof that the
 merge keeps the tree well-formed.
 */
module TreeMerge {
  import opened TreeShape
  import opened TreeSplit
  import opened TreeSplitProof

  predicate Mergeable(pages: map<PageNo, Node>, l: PageNo, r: PageNo) {
    && l in pages && r in pages && pages[l].parent in pages
    && (pages[r].isLeaf ==> pages[r].next in pages)
    && var n := pages[pages[l].parent];
    && |n.keys| == |n.rids| && Child(r) in n.rids
  }

  function JoinPages(pages: map<PageNo, Node>, l: PageNo, r: PageNo): map<PageNo, Node>
    requires l in pages && r in pages && (pages[r].isLeaf ==> pages[r].next in pages)
  {
    var x, y := pages[l], pages[r];
    var both := x.(keys := x.keys + y.keys, rids := x.rids + y.rids);
    if y.isLeaf then
      pages[l := both.(next := y.next)][y.next := pages[y.next].(prev := l)]
    else
      Adopt(pages[l := both], y.rids, l)
  }

  ghost function MergePages(pages: map<PageNo, Node>, l: PageNo, r: PageNo): map<PageNo, Node>
    requires Mergeable(pages, l, r)
  {
    var g := pages[l].parent;
    var n, i := pages[g], IndexOf(pages[g].rids, Child(r));
    JoinPages(pages, l, r)[g := n.(keys := Cut(n.keys, i), rids := Cut(n.rids, i))]
  }

  ghost function MergeLeaves(t: Tree, r: PageNo): seq<PageNo>
    requires r in t.pages && (t.pages[r].isLeaf ==> r in t.leaves)
  {
    if t.pages[r].isLeaf then Cut(t.leaves, IndexOf(t.leaves, r)) else t.leaves
  }

  /** Page l takes over the entries of its right sibling r, and r leaves the tree. */
  ghost function Merge(t: Tree, l: PageNo, r: PageNo): Tree
    requires Mergeable(t.pages, l, r) && l in t.extents && r in t.extents && (t.pages[r].isLeaf ==> r in t.leaves)
  {
    Tree(MergePages(t.pages, l, r),
         t.root,
         (t.extents - {r})[l := t.extents[l].(hi := t.extents[r].hi)],
         MergeLeaves(t, r))
  }

  // ---------------------------------------------------------------- siblings

  /** Pages l and r are the children number i and i + 1 of their common parent. */
  ghost predicate Siblings(t: Tree, l: PageNo, r: PageNo, i: nat) {
    && NodesOk(t) && l in t.extents && r in t.extents && l != t.root && r != t.root
    && var g := t.pages[l].parent;
    && g in t.pages && i + 1 < |t.pages[g].rids|
    && t.pages[g].rids[i] == Child(l) && t.pages[g].rids[i + 1] == Child(r)
  }

  lemma SiblingFacts(t: Tree, l: PageNo, r: PageNo, i: nat)
    requires Siblings(t, l, r, i)
    ensures var g := t.pages[l].parent;
            && g in t.extents && g in t.pages && !t.pages[g].isLeaf && |t.pages[g].keys| == |t.pages[g].rids|
            && l != r && g != l && g != r
            && SlotOk(t, g, i) && SlotOk(t, g, i + 1) && NodeOk(t, g) && NodeOk(t, l) && NodeOk(t, r)
            && t.pages[l].isLeaf == t.pages[r].isLeaf
            && t.pages[r].parent == g
            && t.extents[l].hi == t.extents[r].lo == At(t.pages[g].keys[i + 1])
            && IndexOf(t.pages[g].rids, Child(r)) == i + 1 && IndexOf(t.pages[g].rids, Child(l)) == i
            && (!t.pages[r].isLeaf ==> t.pages[r].keys[0] == t.pages[g].keys[i + 1])
  {
    ParentFacts(t, l);
    var g := t.pages[l].parent;
    ChildFacts(t, g, i);
    ChildFacts(t, g, i + 1);
    assert NodeOk(t, g) && NodeOk(t, l) && NodeOk(t, r);
    assert Child(r) in t.pages[g].rids && Child(l) in t.pages[g].rids;
    Once(t.pages[g].rids, i, i + 1);
    Once(t.pages[g].rids, IndexOf(t.pages[g].rids, Child(r)), i + 1);
    Once(t.pages[g].rids, IndexOf(t.pages[g].rids, Child(l)), i);
  }

  /** The intervals of the leaves ascend along the chain. */
  lemma {:induction false} LeavesAscend(t: Tree, i: nat, j: nat)
    requires WellFormed(t) && i < j < |t.leaves|
    ensures t.leaves[i] in t.extents && t.leaves[j] in t.extents
    ensures Lt(t.extents[t.leaves[i]].lo, t.extents[t.leaves[j]].lo)
    decreases j - i
  {
    assert Listed(t, t.leaves[i]) && Listed(t, t.leaves[i + 1]) && StepOk(t, t.leaves, i);
    assert NodeOk(t, t.leaves[i]);
    if i + 1 < j {
      LeavesAscend(t, i + 1, j);
    }
  }

  /** Neighbouring leaves of the tree are neighbours in the chain. */
  lemma LeafSiblings(t: Tree, l: PageNo, r: PageNo, i: nat)
    requires WellFormed(t) && Siblings(t, l, r, i) && t.pages[l].isLeaf
    ensures l in t.leaves && r in t.leaves && IndexOf(t.leaves, r) == IndexOf(t.leaves, l) + 1
    ensures t.pages[l].next == r && t.pages[r].prev == l
    ensures t.pages[r].next == Ring(t.leaves, IndexOf(t.leaves, r) + 1) && t.pages[r].next in t.pages
    ensures t.pages[r].next != l && t.pages[r].next != r
    ensures t.pages[r].next == LEAF_HEADER_PAGE || (t.pages[r].next in t.extents && t.pages[t.pages[r].next].isLeaf)
  {
    SiblingFacts(t, l, r, i);
    assert Listed(t, l) && Listed(t, r);
    var s, x, y := t.leaves, IndexOf(t.leaves, l), IndexOf(t.leaves, r);
    LeafFacts(t, r);
    LeafFacts(t, l);
    if x + 1 < |s| {
      assert StepOk(t, s, x);
      if x + 1 < y { LeavesAscend(t, x + 1, y); }
      if y < x + 1 { LeavesAscend(t, y, x + 1); }
    }
    if y + 1 < |s| {
      Once(s, y + 1, x);
    }
  }

  // ---------------------------------------------------------------- what the merge writes

  /** Page c after the children of page r moved to page l. */
  function Joined(a: map<PageNo, Node>, l: PageNo, r: PageNo, c: PageNo): Node
    requires l in a && r in a && c in a
  {
    if a[r].isLeaf then
      if c == a[r].next then a[c].(prev := l) else a[c]
    else
      if Child(c) in a[r].rids then a[c].(parent := l) else a[c]
  }

  ghost predicate MergeView(t: Tree, l: PageNo, r: PageNo, i: nat, u: Tree)
    requires l in t.pages && r in t.pages && l in t.extents && r in t.extents
  {
    var a, b, g := t.pages, u.pages, t.pages[l].parent;
    && b.Keys == a.Keys
    && b[l] == a[l].(keys := a[l].keys + a[r].keys, rids := a[l].rids + a[r].rids,
                     next := if a[r].isLeaf then a[r].next else a[l].next)
    && g in a && i + 1 < |a[g].keys| == |a[g].rids|
    && b[g] == a[g].(keys := Cut(a[g].keys, i + 1), rids := Cut(a[g].rids, i + 1))
    && (forall c :: c in a && c != l && c != g ==> b[c] == Joined(a, l, r, c))
    && u.root == t.root
    && u.extents == (t.extents - {r})[l := t.extents[l].(hi := t.extents[r].hi)]
  }

  lemma MergeViewed(t: Tree, l: PageNo, r: PageNo, i: nat)
    requires Siblings(t, l, r, i) && ChainOk(t)
    ensures Mergeable(t.pages, l, r) && (t.pages[r].isLeaf ==> r in t.leaves)
    ensures MergeView(t, l, r, i, Merge(t, l, r))
    ensures Merge(t, l, r).leaves == MergeLeaves(t, r)
  {
    SiblingFacts(t, l, r, i);
    var g := t.pages[l].parent;
    if t.pages[r].isLeaf {
      LeafSiblings(t, l, r, i);
    } else if Child(l) in t.pages[r].rids {
      var j :| 0 <= j < |t.pages[r].rids| && t.pages[r].rids[j] == Child(l);
      ChildFacts(t, r, j);
    }
  }

  ghost predicate Merged(t: Tree, l: PageNo, r: PageNo, i: nat, u: Tree) {
    Siblings(t, l, r, i) && MergeView(t, l, r, i, u)
  }

  /** A page that does not name r as its parent keeps its parent. */
  lemma StrangerKept(t: Tree, l: PageNo, r: PageNo, i: nat, c: PageNo)
    requires Siblings(t, l, r, i) && c in t.extents && t.pages[c].parent != r
    ensures Joined(t.pages, l, r, c) == t.pages[c].(prev := Joined(t.pages, l, r, c).prev)
  {
    var n := t.pages[r];
    if !n.isLeaf && Child(c) in n.rids {
      var j :| 0 <= j < |n.rids| && n.rids[j] == Child(c);
      ChildFacts(t, r, j);
    }
  }

  lemma NoRepeatsCut<T>(s: seq<T>, pos: nat)
    requires NoRepeats(s) && pos < |s|
    ensures NoRepeats(Cut(s, pos)) && s[pos] !in Cut(s, pos)
    ensures forall x :: x in s && x != s[pos] ==> x in Cut(s, pos)
  {
    var w := Cut(s, pos);
    forall i: nat, j: nat | i < j < |w| ensures Differ(w, i, j) {
      assert Differ(s, if i < pos then i else i + 1, if j < pos then j else j + 1);
    }
    forall i: nat | i < |w| ensures w[i] != s[pos] {
      Once(s, if i < pos then i else i + 1, pos);
    }
    forall x | x in s && x != s[pos] ensures x in w {
      var i: nat :| i < |s| && s[i] == x;
      assert w[if i < pos then i else i - 1] == x;
    }
  }

  lemma MergeLeft(t: Tree, l: PageNo, r: PageNo, i: nat, u: Tree)
    requires Merged(t, l, r, i, u)
    ensures NodeOk(u, l)
  {
    SiblingFacts(t, l, r, i);
    var x, y, z := t.pages[l], t.pages[r], u.pages[l];
    if x.isLeaf {
      LeafsJoin(t, l, r, i, u);
    } else {
      forall j: nat, k: nat | j < k < |z.rids| ensures Differ(z.rids, j, k) {
        if k < |x.rids| {
          assert Differ(x.rids, j, k);
        } else if j >= |x.rids| {
          assert Differ(y.rids, j - |x.rids|, k - |x.rids|);
        } else {
          ChildFacts(t, l, j);
          ChildFacts(t, r, k - |x.rids|);
        }
      }
      forall j: nat | j < |z.rids| ensures SlotOk(u, l, j) {
        if j < |x.rids| {
          ChildFacts(t, l, j);
          StrangerKept(t, l, r, i, x.rids[j].pageNo);
        } else {
          ChildFacts(t, r, j - |x.rids|);
          assert y.rids[j - |x.rids|] in y.rids;
        }
      }
    }
  }

  lemma LeafsJoin(t: Tree, l: PageNo, r: PageNo, i: nat, u: Tree)
    requires Merged(t, l, r, i, u) && t.pages[l].isLeaf
    ensures NodeOk(u, l)
  {
    SiblingFacts(t, l, r, i);
    var x, y, z := t.pages[l], t.pages[r], u.pages[l];
    forall j, k | 0 <= j < k < |z.keys| ensures z.keys[j] < z.keys[k] {
      if j < |x.keys| <= k {
        assert Covers(t.extents[l], x.keys[j]) && Covers(t.extents[r], y.keys[k - |x.keys|]);
      }
    }
    forall j | 0 <= j < |z.keys| ensures Covers(u.extents[l], z.keys[j]) {
      if j < |x.keys| {
        assert Covers(t.extents[l], x.keys[j]);
      } else {
        assert Covers(t.extents[r], y.keys[j - |x.keys|]);
      }
    }
  }

  lemma MergeParent(t: Tree, l: PageNo, r: PageNo, i: nat, u: Tree)
    requires Merged(t, l, r, i, u)
    ensures t.pages[l].parent in u.extents && NodeOk(u, t.pages[l].parent)
  {
    SiblingFacts(t, l, r, i);
    var g := t.pages[l].parent;
    var n := t.pages[g];
    NoRepeatsCut(n.rids, i + 1);
    forall j: nat | j < |n.rids| - 1 ensures SlotOk(u, g, j) {
      MergeSlot(t, l, r, i, u, j);
    }
  }

  lemma MergeSlot(t: Tree, l: PageNo, r: PageNo, i: nat, u: Tree, j: nat)
    requires Merged(t, l, r, i, u) && j + 1 < |t.pages[t.pages[l].parent].rids|
    ensures var g := t.pages[l].parent;
            && g in u.extents && g in u.pages && |u.pages[g].keys| == |u.pages[g].rids| == |t.pages[g].rids| - 1
            && SlotOk(u, g, j)
  {
    SiblingFacts(t, l, r, i);
    var g := t.pages[l].parent;
    var n, k := t.pages[g], if j <= i then j else j + 1;
    ChildFacts(t, g, k);
    Once(n.rids, k, i);
    Once(n.rids, k, i + 1);
    StrangerKept(t, l, r, i, n.rids[k].pageNo);
  }

  lemma MergeOther(t: Tree, l: PageNo, r: PageNo, i: nat, u: Tree, x: PageNo)
    requires Merged(t, l, r, i, u)
    requires x in t.extents && x != l && x != r && x != t.pages[l].parent
    ensures x in u.extents && NodeOk(u, x)
  {
    assert NodeOk(t, x);
    SiblingFacts(t, l, r, i);
    if !t.pages[x].isLeaf {
      forall j: nat | j < |t.pages[x].rids| ensures SlotOk(u, x, j) {
        ChildFacts(t, x, j);
        StrangerKept(t, l, r, i, t.pages[x].rids[j].pageNo);
      }
    }
  }

  lemma MergeParents(t: Tree, l: PageNo, r: PageNo, i: nat, u: Tree, x: PageNo)
    requires Merged(t, l, r, i, u)
    requires x in u.extents
    ensures x in u.pages && u.root in u.extents && ParentOk(u, x)
  {
    SiblingFacts(t, l, r, i);
    assert ParentOk(t, x) && ParentOk(t, t.root);
    var g := t.pages[l].parent;
    NoRepeatsCut(t.pages[g].rids, i + 1);
    if t.pages[x].parent == r && x != t.root {
      var j := SlotOf(t, r, x);
      ChildFacts(t, r, j);
      assert u.pages[l].rids[|t.pages[l].rids| + j] == Child(x);
    } else {
      StrangerKept(t, l, r, i, x);
      if t.pages[x].parent == l && x != t.root {
        var j := SlotOf(t, l, x);
        assert u.pages[l].rids[j] == Child(x);
      }
    }
  }

  lemma MergeNodesOk(t: Tree, l: PageNo, r: PageNo, i: nat, u: Tree)
    requires Merged(t, l, r, i, u)
    ensures NodesOk(u)
  {
    forall x {:trigger NodeOk(u, x)} | x in u.extents ensures x in u.pages && NodeOk(u, x) {
      if x == l { MergeLeft(t, l, r, i, u); }
      else if x == t.pages[l].parent { MergeParent(t, l, r, i, u); }
      else { MergeOther(t, l, r, i, u, x); }
    }
    SiblingFacts(t, l, r, i);
    forall x {:trigger ParentOk(u, x)} | x in u.extents ensures x in u.pages && ParentOk(u, x) {
      MergeParents(t, l, r, i, u, x);
    }
  }

  // ---------------------------------------------------------------- the leaf chain

  /** The page at position j leaves the circular list; its neighbours are joined. */
  lemma LinkedAfterCut(a: map<PageNo, Node>, b: map<PageNo, Node>, s: seq<PageNo>, j: nat)
    requires Linked(a, s) && NoRepeats(s) && LEAF_HEADER_PAGE !in s && 0 < j < |s|
    requires forall c :: c in a && c != s[j] ==>
               && c in b && b[c].next == (if c == s[j - 1] then Ring(s, j + 1) else a[c].next)
               && b[c].prev == (if c == Ring(s, j + 1) then s[j - 1] else a[c].prev)
    ensures Linked(b, Cut(s, j))
  {
    var w := Cut(s, j);
    forall i | -1 <= i < |w| ensures LinkOk(b, w, i) {
      if i < j - 1 {
        assert LinkOk(a, s, i);
        RingOnce(s, i, j - 1);
        RingOnce(s, i, j);
        RingOnce(s, i + 1, j);
        RingOnce(s, i + 1, j + 1);
      } else if i >= j {
        assert LinkOk(a, s, i + 1);
        RingOnce(s, i + 1, j - 1);
        RingOnce(s, i + 1, j);
        RingOnce(s, i + 2, j);
        RingOnce(s, i + 2, j + 1);
      } else {
        assert LinkOk(a, s, j - 1) && LinkOk(a, s, j);
        RingOnce(s, j - 1, j);
        RingOnce(s, j + 1, j);
      }
    }
  }

  lemma MergeKeepsKind(t: Tree, l: PageNo, r: PageNo, i: nat, u: Tree, c: PageNo)
    requires Merged(t, l, r, i, u) && c in t.pages
    ensures c in u.pages && u.pages[c].isLeaf == t.pages[c].isLeaf
    ensures !t.pages[r].isLeaf ==> u.pages[c].next == t.pages[c].next && u.pages[c].prev == t.pages[c].prev
  {
    if c != l && c != t.pages[l].parent {
      assert u.pages[c] == Joined(t.pages, l, r, c);
    }
  }

  lemma MergeInnerChain(t: Tree, l: PageNo, r: PageNo, i: nat, u: Tree)
    requires Merged(t, l, r, i, u) && ChainOk(t) && !t.pages[r].isLeaf && u.leaves == t.leaves
    ensures ChainOk(u)
  {
    var s := t.leaves;
    SiblingFacts(t, l, r, i);
    assert Listed(t, l) && Listed(t, r);
    forall x ensures Listed(u, x) {
      assert Listed(t, x);
      if x in t.pages { MergeKeepsKind(t, l, r, i, u, x); }
    }
    forall j | 0 <= j < |s| - 1 ensures StepOk(u, s, j) {
      assert StepOk(t, s, j);
    }
    forall j | -1 <= j < |s| ensures LinkOk(u.pages, s, j) {
      assert LinkOk(t.pages, s, j);
      MergeKeepsKind(t, l, r, i, u, Ring(s, j));
      MergeKeepsKind(t, l, r, i, u, Ring(s, j + 1));
    }
  }

  lemma MergeLeavesOk(t: Tree, l: PageNo, r: PageNo, i: nat, u: Tree)
    requires Merged(t, l, r, i, u) && WellFormed(t) && t.pages[r].isLeaf && r in t.leaves
    requires u.leaves == MergeLeaves(t, r)
    ensures LeavesOk(u)
  {
    var s, w, j := t.leaves, u.leaves, IndexOf(t.leaves, r);
    SiblingFacts(t, l, r, i);
    LeafSiblings(t, l, r, i);
    NoRepeatsCut(s, j);
    forall x ensures Listed(u, x) {
      assert Listed(t, x);
      if x in t.pages { MergeKeepsKind(t, l, r, i, u, x); }
    }
    forall k | 0 <= k < |w| - 1 ensures StepOk(u, w, k) {
      if k < j - 1 {
        assert StepOk(t, s, k);
        Once(s, k, j - 1);
        Once(s, k, j);
        Once(s, k + 1, j);
      } else if k >= j {
        assert StepOk(t, s, k + 1);
        Once(s, k + 1, j - 1);
        Once(s, k + 2, j - 1);
        Once(s, k + 1, j);
        Once(s, k + 2, j);
      } else {
        assert StepOk(t, s, j);
        Once(s, j + 1, j - 1);
        Once(s, j + 1, j);
      }
    }
    if j + 1 < |s| {
      Once(s, |s| - 1, j - 1);
      Once(s, |s| - 1, j);
    }
    Once(s, 0, j);
  }

  lemma MergeLinkedOk(t: Tree, l: PageNo, r: PageNo, i: nat, u: Tree)
    requires Merged(t, l, r, i, u) && WellFormed(t) && t.pages[r].isLeaf && r in t.leaves
    requires u.leaves == MergeLeaves(t, r)
    ensures Linked(u.pages, u.leaves)
  {
    var s, j, g := t.leaves, IndexOf(t.leaves, r), t.pages[l].parent;
    SiblingFacts(t, l, r, i);
    LeafSiblings(t, l, r, i);
    assert Listed(t, LEAF_HEADER_PAGE) && Listed(t, g);
    forall c | c in t.pages && c != r
      ensures c in u.pages && u.pages[c].next == (if c == l then Ring(s, j + 1) else t.pages[c].next)
      ensures u.pages[c].prev == (if c == Ring(s, j + 1) then l else t.pages[c].prev)
    {
      if c != l && c != g {
        assert u.pages[c] == Joined(t.pages, l, r, c);
      }
    }
    LinkedAfterCut(t.pages, u.pages, s, j);
  }

  lemma MergeWellFormed(t: Tree, l: PageNo, r: PageNo, i: nat)
    requires Siblings(t, l, r, i) && ChainOk(t)
    ensures Mergeable(t.pages, l, r) && (t.pages[r].isLeaf ==> r in t.leaves)
    ensures WellFormed(Merge(t, l, r))
  {
    MergeViewed(t, l, r, i);
    var u := Merge(t, l, r);
    MergeNodesOk(t, l, r, i, u);
    if t.pages[r].isLeaf {
      MergeLeavesOk(t, l, r, i, u);
      MergeLinkedOk(t, l, r, i, u);
    } else {
      MergeInnerChain(t, l, r, i, u);
    }
  }
}
