/** A split followed by the insertion of the new page into its parent keeps the tree well-formed. */
module TreeSplitProof {
  import opened TreeShape
  import opened TreeSplit

  /** The keys 1, 2, ... of an internal page lie strictly inside its interval. */
  lemma {:induction false} KeysAboveLo(t: Tree, p: PageNo, i: nat)
    requires NodesOk(t) && p in t.extents && !t.pages[p].isLeaf && 0 < i < |t.pages[p].keys|
    ensures Lt(t.extents[p].lo, At(t.pages[p].keys[i]))
  {
    assert NodeOk(t, p);
    ChildFacts(t, p, i - 1);
    assert NodeOk(t, t.pages[p].rids[i - 1].pageNo);
    if i > 1 {
      KeysAboveLo(t, p, i - 1);
    }
  }

  lemma {:induction false} KeysBelowHi(t: Tree, p: PageNo, i: nat)
    requires NodesOk(t) && p in t.extents && !t.pages[p].isLeaf && 0 < i < |t.pages[p].keys|
    ensures Lt(At(t.pages[p].keys[i]), t.extents[p].hi)
    decreases |t.pages[p].keys| - i
  {
    assert NodeOk(t, p);
    ChildFacts(t, p, i);
    assert NodeOk(t, t.pages[p].rids[i].pageNo);
    if i + 1 < |t.pages[p].keys| {
      KeysBelowHi(t, p, i + 1);
    }
  }

  /** The separator that a split creates lies strictly inside the interval of the page. */
  lemma SeparatorInside(t: Tree, p: PageNo, cut: nat)
    requires NodesOk(t) && p in t.extents && 0 < cut < |t.pages[p].keys|
    ensures |t.pages[p].keys| == |t.pages[p].rids|
    ensures Lt(t.extents[p].lo, At(t.pages[p].keys[cut])) && Lt(At(t.pages[p].keys[cut]), t.extents[p].hi)
  {
    assert NodeOk(t, p);
    var n, e := t.pages[p], t.extents[p];
    if n.isLeaf {
      assert Covers(e, n.keys[0]) && Covers(e, n.keys[cut]) && n.keys[0] < n.keys[cut];
    } else {
      KeysAboveLo(t, p, cut);
      KeysBelowHi(t, p, cut);
    }
  }

  /** The tree u is the tree t after page p was split at cut and its right part q linked in. */
  ghost predicate Split(t: Tree, p: PageNo, q: PageNo, cut: nat, u: Tree) {
    SplitReady(t, p, q, cut) && p != t.root && SplitLinkView(t, p, q, cut, u)
  }

  lemma NoRepeatsSlice<T>(s: seq<T>, i: nat, j: nat)
    requires NoRepeats(s) && i <= j <= |s|
    ensures NoRepeats(s[i..j])
  {
    forall x: nat, y: nat | x < y < j - i ensures Differ(s[i..j], x, y) {
      assert Differ(s, i + x, i + y);
    }
  }

  lemma NoRepeatsSplice<T>(s: seq<T>, pos: nat, x: T)
    requires NoRepeats(s) && pos <= |s| && x !in s
    ensures NoRepeats(Splice(s, pos, [x]))
  {
    var w := Splice(s, pos, [x]);
    forall i: nat, j: nat | i < j < |w| ensures Differ(w, i, j) {
      if i != pos && j != pos {
        assert Differ(s, if i < pos then i else i - 1, if j < pos then j else j - 1);
      }
    }
  }

  lemma SplitLeft(t: Tree, p: PageNo, q: PageNo, cut: nat, u: Tree)
    requires Split(t, p, q, cut, u)
    ensures NodeOk(u, p)
  {
    assert NodeOk(t, p);
    SeparatorInside(t, p, cut);
    var n := t.pages[p];
    if !n.isLeaf {
      NoRepeatsSlice(n.rids, 0, cut);
      assert n.rids[0..cut] == n.rids[..cut];
      forall i: nat | i < cut ensures SlotOk(u, p, i) {
        ChildFacts(t, p, i);
        if n.rids[i] in n.rids[cut..] {
          var i' :| cut <= i' < |n.rids| && n.rids[i'] == n.rids[i];
          Once(n.rids, i, i');
        }
      }
    }
  }

  lemma SplitRight(t: Tree, p: PageNo, q: PageNo, cut: nat, u: Tree)
    requires Split(t, p, q, cut, u)
    ensures NodeOk(u, q)
  {
    assert NodeOk(t, p);
    SeparatorInside(t, p, cut);
    var n := t.pages[p];
    if !n.isLeaf {
      NoRepeatsSlice(n.rids, cut, |n.rids|);
      assert n.rids[cut..|n.rids|] == n.rids[cut..];
      forall i: nat | i < |n.rids| - cut ensures SlotOk(u, q, i) {
        ChildFacts(t, p, cut + i);
        assert n.rids[cut + i] in n.rids[cut..];
      }
    }
  }

  /** A page that does not name p as its parent keeps its parent. */
  lemma StrangerStays(t: Tree, p: PageNo, q: PageNo, cut: nat, c: PageNo)
    requires SplitReady(t, p, q, cut) && c in t.extents && t.pages[c].parent != p && |t.pages[p].rids| > cut
    ensures Moved(t.pages, p, q, cut, c) == t.pages[c].(prev := Moved(t.pages, p, q, cut, c).prev)
  {
    var n := t.pages[p];
    if !n.isLeaf && Child(c) in n.rids[cut..] {
      var i :| cut <= i < |n.rids| && n.rids[i] == Child(c);
      ChildFacts(t, p, i);
    }
  }

  lemma SplitParent(t: Tree, p: PageNo, q: PageNo, cut: nat, u: Tree)
    requires Split(t, p, q, cut, u)
    ensures t.pages[p].parent in u.extents && NodeOk(u, t.pages[p].parent)
  {
    ParentFacts(t, p);
    SeparatorInside(t, p, cut);
    var g := t.pages[p].parent;
    var n, j := t.pages[g], IndexOf(t.pages[g].rids, Child(p)) + 1;
    assert NodeOk(t, g);
    forall i: nat | i < |n.rids| ensures n.rids[i] != Child(q) {
      ChildFacts(t, g, i);
    }
    NoRepeatsSplice(n.rids, j, Child(q));
    assert NodeOk(t, p);
    forall i: nat | i < |n.rids| + 1 ensures SlotOk(u, g, i) {
      if i != j {
        SlotOfParent(t, p, q, cut, u, if i < j then i else i - 1);
      }
    }
  }

  /** A slot of the parent that existed before the split. */
  lemma SlotOfParent(t: Tree, p: PageNo, q: PageNo, cut: nat, u: Tree, i: nat)
    requires Split(t, p, q, cut, u)
    requires i < |t.pages[t.pages[p].parent].rids|
    ensures var g := t.pages[p].parent;
            var j := IndexOf(t.pages[g].rids, Child(p)) + 1;
            |u.pages[g].keys| == |u.pages[g].rids| == |t.pages[g].rids| + 1 && g in u.extents
            && SlotOk(u, g, if i < j then i else i + 1)
  {
    ParentFacts(t, p);
    var g := t.pages[p].parent;
    ChildFacts(t, g, i);
    var c := t.pages[g].rids[i].pageNo;
    var j := IndexOf(t.pages[g].rids, Child(p));
    if c == p {
      assert NodeOk(t, g);
      Once(t.pages[g].rids, i, j);
    } else {
      StrangerStays(t, p, q, cut, c);
    }
  }

  lemma SplitOther(t: Tree, p: PageNo, q: PageNo, cut: nat, u: Tree, x: PageNo)
    requires Split(t, p, q, cut, u)
    requires x in t.extents && x != p && x != t.pages[p].parent
    ensures x in u.pages && NodeOk(u, x)
  {
    assert NodeOk(t, x);
    ParentFacts(t, p);
    if !t.pages[x].isLeaf {
      forall i: nat | i < |t.pages[x].rids| ensures SlotOk(u, x, i) {
        ChildFacts(t, x, i);
        StrangerStays(t, p, q, cut, t.pages[x].rids[i].pageNo);
      }
    }
  }

  /** The parent's list of children grows by q and loses nothing. */
  lemma ParentGrows(t: Tree, p: PageNo, q: PageNo, cut: nat, u: Tree)
    requires Split(t, p, q, cut, u)
    ensures forall r :: r in t.pages[t.pages[p].parent].rids || r == Child(q) ==> r in u.pages[t.pages[p].parent].rids
  {
    var g := t.pages[p].parent;
    var n, j := t.pages[g], IndexOf(t.pages[g].rids, Child(p)) + 1;
    assert n.rids == n.rids[..j] + n.rids[j..];
  }

  lemma SplitParents(t: Tree, p: PageNo, q: PageNo, cut: nat, u: Tree, x: PageNo)
    requires Split(t, p, q, cut, u)
    requires x in u.extents
    ensures x in u.pages && ParentOk(u, x)
  {
    ParentFacts(t, p);
    ParentGrows(t, p, q, cut, u);
    assert ParentOk(t, p) && ParentOk(t, t.root);
    if x != q {
      assert ParentOk(t, x);
      var n := t.pages[p];
      if t.pages[x].parent == p && x != t.root {
        var i := SlotOf(t, p, x);
        ChildFacts(t, p, i);
        if i >= cut {
          assert n.rids[cut..][i - cut] == Child(x);
        } else if Child(x) !in n.rids[cut..] {
          assert n.rids[..cut][i] == Child(x);
        }
      } else if x != p {
        StrangerStays(t, p, q, cut, x);
      }
    }
  }

  lemma SplitNodesOk(t: Tree, p: PageNo, q: PageNo, cut: nat, u: Tree)
    requires Split(t, p, q, cut, u)
    ensures NodesOk(u)
  {
    forall x {:trigger NodeOk(u, x)} | x in u.extents ensures x in u.pages && NodeOk(u, x) {
      if x == p { SplitLeft(t, p, q, cut, u); }
      else if x == q { SplitRight(t, p, q, cut, u); }
      else if x == t.pages[p].parent { SplitParent(t, p, q, cut, u); }
      else { SplitOther(t, p, q, cut, u, x); }
    }
    forall x {:trigger ParentOk(u, x)} | x in u.extents ensures x in u.pages && ParentOk(u, x) {
      SplitParents(t, p, q, cut, u, x);
    }
  }

  // ---------------------------------------------------------------- the leaf chain

  lemma RingOnce(s: seq<PageNo>, i: int, j: int)
    requires NoRepeats(s) && LEAF_HEADER_PAGE !in s
    ensures Ring(s, i) == Ring(s, j) ==> i == j || (Ring(s, i) == LEAF_HEADER_PAGE && !(0 <= i < |s|) && !(0 <= j < |s|))
  {
    if 0 <= i < |s| && 0 <= j < |s| {
      Once(s, i, j);
    }
  }

  /** Page q enters the circular list between positions j - 1 and j. */
  lemma LinkedAfterInsert(a: map<PageNo, Node>, b: map<PageNo, Node>, s: seq<PageNo>, j: nat, q: PageNo)
    requires Linked(a, s) && NoRepeats(s) && LEAF_HEADER_PAGE !in s && 0 < j <= |s| && q !in s && q != LEAF_HEADER_PAGE
    requires forall c :: c in a && c != q ==>
               && c in b && b[c].next == (if c == s[j - 1] then q else a[c].next)
               && b[c].prev == (if c == Ring(s, j) then q else a[c].prev)
    requires q in b && b[q].prev == s[j - 1] && b[q].next == Ring(s, j)
    ensures Linked(b, Splice(s, j, [q]))
  {
    var w := Splice(s, j, [q]);
    forall i | -1 <= i < |w| ensures LinkOk(b, w, i) {
      if i < j - 1 {
        assert LinkOk(a, s, i);
        RingOnce(s, i, j - 1);
        RingOnce(s, i + 1, j);
      } else if i > j {
        assert LinkOk(a, s, i - 1);
        RingOnce(s, i - 1, j - 1);
        RingOnce(s, i, j);
      } else {
        assert LinkOk(a, s, j - 1);
      }
    }
  }

  /** The extents of the leaves still follow each other when leaf j - 1 is cut in two. */
  lemma StepsAfterInsert(t: Tree, u: Tree, j: nat, q: PageNo, k: Bound)
    requires NoRepeats(t.leaves) && 0 < j <= |t.leaves| && q !in t.leaves
    requires forall i :: 0 <= i < |t.leaves| - 1 ==> StepOk(t, t.leaves, i)
    requires t.leaves[j - 1] in t.extents
    requires u.extents == t.extents[t.leaves[j - 1] := t.extents[t.leaves[j - 1]].(hi := k)]
                                   [q := t.extents[t.leaves[j - 1]].(lo := k)]
    ensures var w := Splice(t.leaves, j, [q]); forall i :: 0 <= i < |w| - 1 ==> StepOk(u, w, i)
  {
    var s, w := t.leaves, Splice(t.leaves, j, [q]);
    forall i | 0 <= i < |w| - 1 ensures StepOk(u, w, i) {
      if i < j - 1 {
        assert StepOk(t, s, i);
        Once(s, i, j - 1);
      } else if i > j {
        assert StepOk(t, s, i - 1);
        Once(s, i - 1, j - 1);
        Once(s, i, j - 1);
      } else if i == j {
        assert StepOk(t, s, j - 1);
        Once(s, j, j - 1);
      }
    }
  }

  /** The split neither turns a leaf into an internal page nor the other way round. */
  lemma SplitKeepsKind(t: Tree, p: PageNo, q: PageNo, cut: nat, u: Tree, c: PageNo)
    requires Split(t, p, q, cut, u) && c in t.pages && c != q
    ensures c in u.pages && u.pages[c].isLeaf == t.pages[c].isLeaf
  {
    if c != p && c != t.pages[p].parent {
      assert u.pages[c] == Moved(t.pages, p, q, cut, c);
    }
  }

  lemma SplitChainOk(t: Tree, p: PageNo, q: PageNo, cut: nat, u: Tree)
    requires Split(t, p, q, cut, u) && ChainOk(t) && (t.pages[p].isLeaf ==> p in t.leaves)
    requires u.leaves == SplitLeaves(t, p, q)
    ensures ChainOk(u)
  {
    if t.pages[p].isLeaf {
      SplitLeavesOk(t, p, q, cut, u);
      SplitLinkedOk(t, p, q, cut, u);
    } else {
      SplitInnerChain(t, p, q, cut, u);
    }
  }

  lemma SplitInnerChain(t: Tree, p: PageNo, q: PageNo, cut: nat, u: Tree)
    requires Split(t, p, q, cut, u) && ChainOk(t) && !t.pages[p].isLeaf && u.leaves == t.leaves
    ensures ChainOk(u)
  {
    var s := t.leaves;
    assert Listed(t, p) && Listed(t, q);
    forall x ensures Listed(u, x) {
      assert Listed(t, x);
      if x in t.pages && x != q { SplitKeepsKind(t, p, q, cut, u, x); }
    }
    forall i | 0 <= i < |s| - 1 ensures StepOk(u, s, i) {
      assert StepOk(t, s, i);
    }
    assert Listed(t, t.pages[p].parent);
    ParentFacts(t, p);
    forall i | -1 <= i < |s| ensures LinkOk(u.pages, s, i) {
      assert LinkOk(t.pages, s, i);
      LinksUntouched(t, p, q, cut, u, Ring(s, i));
      LinksUntouched(t, p, q, cut, u, Ring(s, i + 1));
    }
  }

  lemma LinksUntouched(t: Tree, p: PageNo, q: PageNo, cut: nat, u: Tree, c: PageNo)
    requires Split(t, p, q, cut, u) && !t.pages[p].isLeaf && c in t.pages && c != q
    ensures c in u.pages && u.pages[c].next == t.pages[c].next && u.pages[c].prev == t.pages[c].prev
  {
    if c != p && c != t.pages[p].parent {
      assert u.pages[c] == Moved(t.pages, p, q, cut, c);
    }
  }

  lemma SplitLeavesOk(t: Tree, p: PageNo, q: PageNo, cut: nat, u: Tree)
    requires Split(t, p, q, cut, u) && LeavesOk(t) && t.pages[p].isLeaf && p in t.leaves
    requires u.leaves == SplitLeaves(t, p, q)
    ensures LeavesOk(u)
  {
    var s, w := t.leaves, u.leaves;
    var j := IndexOf(s, p) + 1;
    assert Listed(t, q);
    NoRepeatsSplice(s, j, q);
    StepsAfterInsert(t, u, j, q, At(t.pages[p].keys[cut]));
    assert s == s[..j] + s[j..];
    forall x ensures Listed(u, x) {
      assert Listed(t, x);
      if x in t.pages && x != q { SplitKeepsKind(t, p, q, cut, u, x); }
    }
    if j < |s| {
      Once(s, |s| - 1, j - 1);
    }
  }

  lemma SplitLinkedOk(t: Tree, p: PageNo, q: PageNo, cut: nat, u: Tree)
    requires Split(t, p, q, cut, u) && ChainOk(t) && t.pages[p].isLeaf && p in t.leaves
    requires u.leaves == SplitLeaves(t, p, q)
    ensures Linked(u.pages, u.leaves)
  {
    var s, g := t.leaves, t.pages[p].parent;
    var j := IndexOf(s, p) + 1;
    LeafFacts(t, p);
    SplitKeepsParent(t, p, q, cut);
    assert Listed(t, q) && Listed(t, LEAF_HEADER_PAGE);
    forall c | c in t.pages && c != q
      ensures c in u.pages && u.pages[c].next == (if c == p then q else t.pages[c].next)
      ensures u.pages[c].prev == (if c == Ring(s, j) then q else t.pages[c].prev)
    {
      if c != p && c != g {
        assert u.pages[c] == Moved(t.pages, p, q, cut, c);
      }
    }
    LinkedAfterInsert(t.pages, u.pages, s, j, q);
  }

  lemma SplitLinkWellFormed(t: Tree, p: PageNo, q: PageNo, cut: nat, blank: Node)
    requires SplitReady(t, p, q, cut) && p != t.root && ChainOk(t)
    ensures Splittable(t.pages, p, cut) && (t.pages[p].isLeaf ==> p in t.leaves)
    ensures Linkable(SplitPages(t.pages, p, q, cut, blank), p, q)
    ensures WellFormed(SplitLink(t, p, q, cut, blank))
  {
    SplitLinkViewed(t, p, q, cut, blank);
    var u := SplitLink(t, p, q, cut, blank);
    SplitNodesOk(t, p, q, cut, u);
    SplitChainOk(t, p, q, cut, u);
  }
}
