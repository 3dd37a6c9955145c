/** The tree-level facts behind deletion: moving one entry between siblings, merging, losing the root. */
module TreeShrink {
  import opened TreeShape
  import opened TreeSplit
  import opened TreeSplitProof
  import opened TreeMerge
  import opened TreeRoot
  import opened TreeContents
  import opened TreeRecut
  import opened TreeSizes
  import opened IndexNode

  /** Siblings l and r of page g after the boundary between them moved by one entry to cut. */
  function ShiftPages(a: map<PageNo, Node>, l: PageNo, r: PageNo, i: nat, cut: nat): map<PageNo, Node>
    requires l in a && r in a && a[l].parent in a && i + 1 < |a[a[l].parent].keys|
    requires 0 < cut < |a[l].keys + a[r].keys| && cut < |a[l].rids + a[r].rids|
    requires !a[r].isLeaf ==> (a[l].rids + a[r].rids)[if cut > |a[l].rids| then cut - 1 else cut].pageNo in a
  {
    var g, ks, rs := a[l].parent, a[l].keys + a[r].keys, a[l].rids + a[r].rids;
    var b := a[l := a[l].(keys := ks[..cut], rids := rs[..cut])]
              [r := a[r].(keys := ks[cut..], rids := rs[cut..])]
              [g := a[g].(keys := a[g].keys[i + 1 := ks[cut]])];
    if a[r].isLeaf then b
    else
      var up := cut > |a[l].rids|;
      var c := rs[if up then cut - 1 else cut].pageNo;
      b[c := b[c].(parent := if up then l else r)]
  }

  /** The child whose entry crosses the boundary. */
  lemma CrossingChild(t: Tree, l: PageNo, r: PageNo, i: nat, cut: nat) returns (c: PageNo)
    requires Siblings(t, l, r, i) && !t.pages[r].isLeaf
    requires cut == |t.pages[l].keys| + 1 < |t.pages[l].keys| + |t.pages[r].keys| || 0 < cut == |t.pages[l].keys| - 1
    ensures var a := t.pages;
            && |a[l].keys| == |a[l].rids| && |a[r].keys| == |a[r].rids| && cut < |a[l].rids + a[r].rids|
            && (a[l].rids + a[r].rids)[if cut > |a[l].rids| then cut - 1 else cut] == Child(c)
            && c in a && c != l && c != r && c != a[l].parent && c in t.extents
            && a[c].parent == if cut > |a[l].rids| then r else l
  {
    SiblingFacts(t, l, r, i);
    if cut > |t.pages[l].keys| {
      ChildFacts(t, r, 0);
      c := t.pages[r].rids[0].pageNo;
    } else {
      ChildFacts(t, l, cut);
      c := t.pages[l].rids[cut].pageNo;
    }
  }

  lemma ShiftOther(t: Tree, l: PageNo, r: PageNo, i: nat, cut: nat, c: PageNo, x: PageNo)
    requires Siblings(t, l, r, i) && !t.pages[r].isLeaf
    requires cut == |t.pages[l].keys| + 1 < |t.pages[l].keys| + |t.pages[r].keys| || 0 < cut == |t.pages[l].keys| - 1
    requires |t.pages[l].keys| == |t.pages[l].rids| && |t.pages[r].keys| == |t.pages[r].rids|
    requires (t.pages[l].rids + t.pages[r].rids)[if cut > |t.pages[l].rids| then cut - 1 else cut] == Child(c)
    requires x in t.pages && x != c
    ensures Reshared(t.pages, l, r, cut, x) == t.pages[x]
  {
    SiblingFacts(t, l, r, i);
    var a, rs := t.pages, t.pages[l].rids + t.pages[r].rids;
    if Child(x) in rs[cut..] {
      var j :| cut <= j < |rs| && rs[j] == Child(x);
      ChildFacts(t, r, j - |a[l].rids|);
    } else if Child(x) in rs[..cut] {
      var j :| 0 <= j < cut && rs[j] == Child(x);
      ChildFacts(t, l, j);
    }
  }

  lemma ShiftChild(t: Tree, l: PageNo, r: PageNo, i: nat, cut: nat, c: PageNo)
    requires Siblings(t, l, r, i) && !t.pages[r].isLeaf
    requires cut == |t.pages[l].keys| + 1 < |t.pages[l].keys| + |t.pages[r].keys| || 0 < cut == |t.pages[l].keys| - 1
    requires |t.pages[l].keys| == |t.pages[l].rids| && |t.pages[r].keys| == |t.pages[r].rids|
    requires (t.pages[l].rids + t.pages[r].rids)[if cut > |t.pages[l].rids| then cut - 1 else cut] == Child(c)
    requires c in t.pages && t.pages[c].parent == if cut > |t.pages[l].rids| then r else l
    ensures Reshared(t.pages, l, r, cut, c) == t.pages[c].(parent := if cut > |t.pages[l].rids| then l else r)
  {
    SiblingFacts(t, l, r, i);
    var a, rs := t.pages, t.pages[l].rids + t.pages[r].rids;
    if cut > |a[l].rids| {
      assert rs[..cut][cut - 1] == Child(c);
      if Child(c) in rs[cut..] {
        var j :| cut <= j < |rs| && rs[j] == Child(c);
        Once(a[r].rids, j - |a[l].rids|, 0);
      }
    } else {
      assert rs[cut..][0] == Child(c);
    }
  }

  /** Moving the boundary between two siblings by one entry. */
  lemma Shift(t: Tree, l: PageNo, r: PageNo, i: nat, cut: nat) returns (u: Tree)
    requires WellFormed(t) && Siblings(t, l, r, i)
    requires cut == |t.pages[l].keys| + 1 < |t.pages[l].keys| + |t.pages[r].keys| || 0 < cut == |t.pages[l].keys| - 1
    ensures RecutView(t, l, r, i, cut, u) && WellFormed(u) && Entries(u) == Entries(t)
    ensures |t.pages[l].keys| == |t.pages[l].rids| && |t.pages[r].keys| == |t.pages[r].rids|
    ensures !t.pages[r].isLeaf ==> (t.pages[l].rids + t.pages[r].rids)[if cut > |t.pages[l].rids| then cut - 1 else cut].pageNo in t.pages
    ensures u.pages == ShiftPages(t.pages, l, r, i, cut)
  {
    SiblingFacts(t, l, r, i);
    u := Recut(t, l, r, i, cut);
    if t.pages[r].isLeaf {
      LeafShiftEqual(t, l, r, i, cut, u);
    } else {
      var c := CrossingChild(t, l, r, i, cut);
      forall x | x in t.pages && x != c ensures Reshared(t.pages, l, r, cut, x) == t.pages[x] {
        ShiftOther(t, l, r, i, cut, c, x);
      }
      ShiftChild(t, l, r, i, cut, c);
      ShiftPagesEqual(t, l, r, i, cut, u, c);
    }
  }

  lemma ShiftPagesEqual(t: Tree, l: PageNo, r: PageNo, i: nat, cut: nat, u: Tree, c: PageNo)
    requires l in t.pages && r in t.pages && l in t.extents && r in t.extents && RecutView(t, l, r, i, cut, u)
    requires l != r && t.pages[l].parent != l && t.pages[l].parent != r
    requires 0 < cut && !t.pages[r].isLeaf && c != l && c != r && c != t.pages[l].parent && c in t.pages
    requires (t.pages[l].rids + t.pages[r].rids)[if cut > |t.pages[l].rids| then cut - 1 else cut] == Child(c)
    requires forall x :: x in t.pages && x != c ==> Reshared(t.pages, l, r, cut, x) == t.pages[x]
    requires Reshared(t.pages, l, r, cut, c) == t.pages[c].(parent := if cut > |t.pages[l].rids| then l else r)
    ensures u.pages == ShiftPages(t.pages, l, r, i, cut)
  {
    var v := ShiftPages(t.pages, l, r, i, cut);
    assert v.Keys == t.pages.Keys;
    forall x | x in v ensures u.pages[x] == v[x] {
      if x != l && x != r && x != t.pages[l].parent {
        assert u.pages[x] == Reshared(t.pages, l, r, cut, x);
      }
    }
  }

  lemma LeafShiftEqual(t: Tree, l: PageNo, r: PageNo, i: nat, cut: nat, u: Tree)
    requires l in t.pages && r in t.pages && l in t.extents && r in t.extents && RecutView(t, l, r, i, cut, u)
    requires l != r && t.pages[l].parent != l && t.pages[l].parent != r && 0 < cut && t.pages[r].isLeaf
    ensures u.pages == ShiftPages(t.pages, l, r, i, cut)
  {
    var v := ShiftPages(t.pages, l, r, i, cut);
    assert v.Keys == t.pages.Keys;
    forall x | x in v ensures u.pages[x] == v[x] {
      if x != l && x != r && x != t.pages[l].parent {
        assert u.pages[x] == Reshared(t.pages, l, r, cut, x);
      }
    }
  }

  /** The siblings after the boundary moved: the one that was short got an entry of the other. */
  lemma ShiftSizes(t: Tree, l: PageNo, r: PageNo, i: nat, cut: nat, u: Tree, p: PageNo, max: nat)
    requires Siblings(t, l, r, i) && RecutView(t, l, r, i, cut, u) && SizesOk(t, max, p) && max >= 4
    requires if p == l then cut == |t.pages[l].keys| + 1 else p == r && cut == |t.pages[l].keys| - 1
    requires |t.pages[p].keys| + 1 == MinSize(max) && |t.pages[l].keys| + |t.pages[r].keys| >= 2 * MinSize(max)
    ensures SizesOk(u, max, NO_PAGE)
  {
    SiblingFacts(t, l, r, i);
    var o := if p == l then r else l;
    assert SizeOk(t, max, o);
    forall x {:trigger SizeOk(u, max, x)} | x in u.extents && x in u.pages && x != NO_PAGE ensures SizeOk(u, max, x) {
      if x != p {
        assert SizeOk(t, max, x);
      }
      if x != l && x != r && x != t.pages[l].parent {
        assert u.pages[x] == Reshared(t.pages, l, r, cut, x);
      }
    }
  }

  /** The merged page is at least half full and not full; only the parent may be short now. */
  lemma MergeSizes(t: Tree, l: PageNo, r: PageNo, i: nat, u: Tree, p: PageNo, max: nat)
    requires Merged(t, l, r, i, u) && SizesOk(t, max, p) && max >= 4 && (p == l || p == r)
    requires |t.pages[l].keys| + |t.pages[r].keys| < 2 * MinSize(max)
    ensures var g := t.pages[l].parent;
            && SizesOk(u, max, g) && g in u.pages && g in u.extents && |u.pages[g].keys| < max
            && (g == u.root ==> |u.pages[g].keys| >= 1) && (g != u.root ==> |u.pages[g].keys| + 1 >= MinSize(max))
  {
    SiblingFacts(t, l, r, i);
    var o, g := if p == l then r else l, t.pages[l].parent;
    assert SizeOk(t, max, o) && SizeOk(t, max, g);
    forall x {:trigger SizeOk(u, max, x)} | x in u.extents && x in u.pages && x != g ensures SizeOk(u, max, x) {
      if x != l {
        assert x != r && SizeOk(t, max, x);
        assert u.pages[x] == Joined(t.pages, l, r, x);
      }
    }
  }

  /** The slot of a page in its parent, and a sibling next to it: left if there is one, else right. */
  lemma SiblingOf(t: Tree, p: PageNo, max: nat) returns (i: nat)
    requires WellFormed(t) && p in t.extents && p != t.root && SizesOk(t, max, p) && max >= 4
    ensures var g := t.pages[p].parent;
            && g in t.extents && g in t.pages && !t.pages[g].isLeaf && |t.pages[g].keys| == |t.pages[g].rids| >= 2
            && i < |t.pages[g].rids| && t.pages[g].rids[i] == Child(p)
            && (forall j: nat :: j < |t.pages[g].rids| && t.pages[g].rids[j].pageNo == p ==> j == i)
            && t.extents[g].height == t.extents[p].height + 1 && t.extents[g].height <= t.extents[t.root].height
            && (i > 0 ==> Siblings(t, t.pages[g].rids[i - 1].pageNo, p, i - 1))
            && (i == 0 ==> Siblings(t, p, t.pages[g].rids[1].pageNo, 0))
            && var b := t.pages[g].rids[if i > 0 then i - 1 else 1].pageNo;
            b in t.pages && t.pages[b].parent == g
  {
    ParentFacts(t, p);
    var g := t.pages[p].parent;
    i := IndexOf(t.pages[g].rids, Child(p));
    assert SizeOk(t, max, g) && NodeOk(t, g) && ParentOk(t, g);
    forall j: nat | j < |t.pages[g].rids| && t.pages[g].rids[j].pageNo == p ensures j == i {
      ChildFacts(t, g, j);
      Once(t.pages[g].rids, i, j);
    }
    ChildFacts(t, g, if i > 0 then i - 1 else 1);
  }

  /** When the merge took the parent's second last child away, the root goes, its only child takes over. */
  lemma LowerFacts(t: Tree, max: nat)
    requires WellFormed(t) && !t.pages[t.root].isLeaf && |t.pages[t.root].keys| == 1 && SizesOk(t, max, t.root) && max >= 4
    ensures |t.pages[t.root].rids| == 1
    ensures var c := t.pages[t.root].rids[0].pageNo;
            && c in t.extents && c in t.pages && c != t.root && t.pages[c].keys != []
            && WellFormed(LowerRoot(t)) && Entries(LowerRoot(t)) == Entries(t) && SizesOk(LowerRoot(t), max, NO_PAGE)
  {
    assert NodeOk(t, t.root);
    ChildFacts(t, t.root, 0);
    LowerRootWellFormed(t);
    assert SizeOk(t, max, t.pages[t.root].rids[0].pageNo);
    var u := LowerRoot(t);
    forall c | c in t.leaves ensures PageEntries(u.pages, c) == PageEntries(t.pages, c) {
      assert Listed(t, c);
    }
    FlattenFrame(t.pages, u.pages, t.leaves);
    forall x {:trigger SizeOk(u, max, x)} | x in u.extents && x in u.pages && x != NO_PAGE ensures SizeOk(u, max, x) {
      assert SizeOk(t, max, x);
      assert NodeOk(t, x);
    }
  }

  /** Only an index without entries has an empty root leaf. */
  lemma EmptyRoot(t: Tree)
    requires WellFormed(t) && t.pages[t.root].isLeaf
    ensures t.leaves == [t.root] && t.extents.Keys == {t.root} && Entries(t) == PageEntries(t.pages, t.root)
  {
    assert NodeOk(t, t.root);
    forall x | x in t.extents ensures x == t.root {
      assert ParentOk(t, x);
    }
    forall i: nat | i < |t.leaves| ensures t.leaves[i] == t.root {
      assert Listed(t, t.leaves[i]);
    }
    if |t.leaves| > 1 {
      Once(t.leaves, 0, 1);
    }
    FlattenOne(t.pages, t.root);
  }

  // ---------------------------------------------------------------- what redistribution finds

  /** Slot i is the only slot of n that points to page c. */
  ghost predicate OnlySlot(n: Node, c: PageNo, i: nat) {
    && |n.keys| == |n.rids| && i < |n.rids| && n.rids[i].pageNo == c
    && forall j: nat :: j < |n.rids| && n.rids[j].pageNo == c ==> j == i
  }

  /** The parent g of a page sits, under its own first key, in slot k of its parent, unless it is the root. */
  ghost predicate UpperSlot(pages: map<PageNo, Node>, g: PageNo, k: nat)
    requires g in pages
  {
    var h := pages[g].parent;
    h != NO_PAGE ==>
      && h in pages && h != g && OnlySlot(pages[h], g, k)
      && pages[g].keys != [] && pages[h].keys[k] == pages[g].keys[0]
  }

  /** Pages l and r fill the slots i and i + 1 of their parent. */
  ghost predicate ShiftReady(pages: map<PageNo, Node>, l: PageNo, r: PageNo, i: nat, k: nat) {
    && l in pages && r in pages && l != r
    && |pages[l].keys| == |pages[l].rids| && |pages[r].keys| == |pages[r].rids| && pages[l].isLeaf == pages[r].isLeaf
    && pages[l].parent == pages[r].parent != NO_PAGE
    && var g := pages[l].parent;
    && g in pages && g != l && g != r && pages[g].parent != l && pages[g].parent != r
    && OnlySlot(pages[g], r, i + 1) && UpperSlot(pages, g, k)
  }

  lemma TheOnlySlot(t: Tree, p: PageNo) returns (i: nat)
    requires NodesOk(t) && p in t.extents && p != t.root
    ensures var g := t.pages[p].parent; g in t.pages && g != NO_PAGE && OnlySlot(t.pages[g], p, i) && t.pages[g].rids[i] == Child(p)
  {
    ParentFacts(t, p);
    var g := t.pages[p].parent;
    i := IndexOf(t.pages[g].rids, Child(p));
    assert NodeOk(t, g);
    forall j: nat | j < |t.pages[g].rids| && t.pages[g].rids[j].pageNo == p ensures j == i {
      ChildFacts(t, g, j);
      Once(t.pages[g].rids, i, j);
    }
  }

  lemma ReadyToShift(t: Tree, l: PageNo, r: PageNo, i: nat) returns (k: nat)
    requires WellFormed(t) && Siblings(t, l, r, i)
    ensures ShiftReady(t.pages, l, r, i, k)
    ensures !t.pages[l].isLeaf ==>
              && (forall j: nat :: j < |t.pages[l].rids| ==> Inside(t, l, r, t.pages[l].rids[j].pageNo))
              && (forall j: nat :: j < |t.pages[r].rids| ==> Inside(t, l, r, t.pages[r].rids[j].pageNo))
  {
    SiblingFacts(t, l, r, i);
    var g := t.pages[l].parent;
    var j := TheOnlySlot(t, r);
    k := 0;
    assert ParentOk(t, g) && NodeOk(t, g);
    if g != t.root {
      ParentFacts(t, g);
      k := TheOnlySlot(t, g);
      ChildFacts(t, t.pages[g].parent, k);
    }
    if !t.pages[l].isLeaf {
      forall j: nat | j < |t.pages[l].rids| ensures Inside(t, l, r, t.pages[l].rids[j].pageNo) {
        ChildFacts(t, l, j);
      }
      forall j: nat | j < |t.pages[r].rids| ensures Inside(t, l, r, t.pages[r].rids[j].pageNo) {
        ChildFacts(t, r, j);
      }
    }
  }

  /** A child of l or r is a page of its own. */
  ghost predicate Inside(t: Tree, l: PageNo, r: PageNo, c: PageNo) {
    c in t.pages && l in t.pages && c != l && c != r && c != t.pages[l].parent
  }

  lemma FirstCrosses<T>(x: seq<T>, y: seq<T>)
    requires y != []
    ensures Splice(x, |x|, [y[0]]) == (x + y)[..|x| + 1] && Cut(y, 0) == (x + y)[|x| + 1..]
  {
  }

  lemma LastCrosses<T>(x: seq<T>, y: seq<T>)
    requires x != []
    ensures Splice(y, 0, [x[|x| - 1]]) == (x + y)[|x| - 1..] && Cut(x, |x| - 1) == (x + y)[..|x| - 1]
  {
  }

  lemma SameSize<K, V>(m: map<K, V>, x: K, y: K, v: V, w: V)
    requires x in m && y in m
    ensures |m[x := v][y := w]| == |m|
  {
    assert m[x := v][y := w].Keys == m.Keys;
  }

  lemma OneLess<K, V>(m: map<K, V>, x: K, y: K, v: V)
    requires x in m && y in m && x != y
    ensures |(m - {x})[y := v]| == |m| - 1
  {
    assert (m - {x})[y := v].Keys == m.Keys - {x};
  }

  /** What moving one entry from a sibling to the short page p needs and achieves. */
  lemma PlanShift(t: Tree, l: PageNo, r: PageNo, i: nat, p: PageNo, max: nat) returns (k: nat, u: Tree)
    requires WellFormed(t) && Siblings(t, l, r, i) && SizesOk(t, max, p) && max >= 4 && (p == l || p == r)
    requires |t.pages[p].keys| + 1 == MinSize(max) && |t.pages[l].keys| + |t.pages[r].keys| >= 2 * MinSize(max)
    ensures var a, o, cut := t.pages, if p == l then r else l, if p == l then |t.pages[l].keys| + 1 else |t.pages[l].keys| - 1;
            && ShiftReady(a, l, r, i, k) && |a[o].keys| > 1 && |a[o].keys| == |a[o].rids| && 0 < cut < |a[l].keys + a[r].keys| && cut < |a[l].rids + a[r].rids|
            && (!a[l].isLeaf ==> Inside(t, l, r, a[o].rids[if p == l then 0 else |a[o].rids| - 1].pageNo))
            && (!a[r].isLeaf ==> (a[l].rids + a[r].rids)[if cut > |a[l].rids| then cut - 1 else cut].pageNo in a)
            && u.pages == ShiftPages(a, l, r, i, cut) && u.root == t.root && u.leaves == t.leaves
            && WellFormed(u) && Entries(u) == Entries(t) && SizesOk(u, max, NO_PAGE)
            && |u.extents| == |t.extents| && u.extents.Keys == t.extents.Keys && u.pages.Keys == a.Keys
            && u.root in u.pages && u.pages[u.root].keys != []
  {
    SiblingFacts(t, l, r, i);
    var o := if p == l then r else l;
    assert SizeOk(t, max, o);
    var cut := if p == l then |t.pages[l].keys| + 1 else |t.pages[l].keys| - 1;
    k := ReadyToShift(t, l, r, i);
    u := Shift(t, l, r, i, cut);
    ShiftSizes(t, l, r, i, cut, u, p, max);
    SameSize(t.extents, l, r, u.extents[l], u.extents[r]);
    assert SizeOk(u, max, p);
    RootHasKeys(u, max, p);
  }

  /** What merging two siblings needs and achieves; p is the one that is short. */
  lemma PlanMerge(t: Tree, l: PageNo, r: PageNo, i: nat, p: PageNo, max: nat)
    requires WellFormed(t) && Siblings(t, l, r, i) && SizesOk(t, max, p) && max >= 4 && (p == l || p == r)
    requires |t.pages[l].keys| + |t.pages[r].keys| < 2 * MinSize(max)
    ensures Mergeable(t.pages, l, r) && (t.pages[r].isLeaf ==> r in t.leaves)
    ensures var u, g := Merge(t, l, r), t.pages[l].parent;
            && WellFormed(u) && Entries(u) == Entries(t) && SizesOk(u, max, g)
            && g in u.pages && g in u.extents && |u.pages[g].keys| < max
            && (g != u.root ==> |u.pages[g].keys| + 1 >= MinSize(max))
            && u.pages.Keys == t.pages.Keys && |u.extents| == |t.extents| - 1 && u.extents.Keys == t.extents.Keys - {r}
            && u.extents[g].height == t.extents[p].height + 1 && u.root in u.extents
            && u.extents[u.root].height == t.extents[t.root].height >= u.extents[g].height
            && u.leaves != [] && t.leaves != []
            && u.leaves[|u.leaves| - 1] == if t.pages[r].isLeaf && t.leaves[|t.leaves| - 1] == r then l else t.leaves[|t.leaves| - 1]
  {
    SiblingFacts(t, l, r, i);
    MergeViewed(t, l, r, i);
    MergeWellFormed(t, l, r, i);
    var u, g := Merge(t, l, r), t.pages[l].parent;
    MergeEntries(t, l, r, i, u);
    MergeSizes(t, l, r, i, u, p, max);
    OneLess(t.extents, r, l, u.extents[l]);
    assert ParentOk(t, g) && ParentOk(t, l);
    if t.pages[r].isLeaf {
      LeafSiblings(t, l, r, i);
      var s, j := t.leaves, IndexOf(t.leaves, r);
      Once(s, j, |s| - 1);
    }
  }

  /** What the page moves of a merge find. */
  lemma ReadyToMerge(t: Tree, l: PageNo, r: PageNo, i: nat)
    requires WellFormed(t) && Siblings(t, l, r, i)
    ensures var a, g := t.pages, t.pages[l].parent;
            && Mergeable(a, l, r) && l != r && g != l && g != r && a[r].parent == g && g != NO_PAGE
            && |a[l].keys| == |a[l].rids| && |a[r].keys| == |a[r].rids| && a[l].isLeaf == a[r].isLeaf
            && OnlySlot(a[g], r, i + 1) && IndexOf(a[g].rids, Child(r)) == i + 1
            && (a[r].isLeaf ==> a[r].prev == l && a[r].next != l && a[r].next != r && a[r].next != g)
            && (!a[r].isLeaf ==> forall j: nat :: j < |a[r].rids| ==>
                  var c := a[r].rids[j].pageNo; a[r].rids[j] == Child(c) && c in a && c != l && c != r && c != g)
  {
    SiblingFacts(t, l, r, i);
    MergeViewed(t, l, r, i);
    var k := TheOnlySlot(t, r);
    var g := t.pages[l].parent;
    if t.pages[r].isLeaf {
      LeafSiblings(t, l, r, i);
    } else {
      forall j: nat | j < |t.pages[r].rids|
        ensures var c := t.pages[r].rids[j].pageNo;
                t.pages[r].rids[j] == Child(c) && c in t.pages && c != l && c != r && c != g
      {
        ChildFacts(t, r, j);
      }
    }
  }

  lemma RootHasKeys(t: Tree, max: nat, p: PageNo)
    requires WellFormed(t) && SizesOk(t, max, NO_PAGE) && max >= 4
    requires p in t.extents && |t.pages[p].keys| >= MinSize(max)
    ensures t.pages[t.root].keys != []
  {
    assert NodeOk(t, t.root);
    if p != t.root && t.pages[t.root].isLeaf {
      EmptyRoot(t);
    }
  }
}
