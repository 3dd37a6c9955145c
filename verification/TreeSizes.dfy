/**
 How full the pages of the tree are, and the page maps that the steps of the index handle
 produce, matched against the edits on trees.
 */
module TreeSizes {
  import opened TreeShape
  import opened TreeSplit
  import opened TreeSplitProof
  import opened TreeMerge
  import opened TreeRoot
  import opened TreeContents
  import opened TreeRecut
  import opened IndexNode

  /** No page is full between two calls; all but the root are at least half full. */
  ghost predicate SizeOk(t: Tree, max: nat, x: PageNo)
    requires x in t.pages
  {
    && |t.pages[x].keys| < max
    && if x == t.root then t.pages[x].isLeaf || |t.pages[x].keys| >= 2 else |t.pages[x].keys| >= MinSize(max)
  }

  /** Every page has an admissible size, with the possible exception of one page. */
  ghost predicate SizesOk(t: Tree, max: nat, except: PageNo) {
    forall x {:trigger SizeOk(t, max, x)} :: x in t.extents && x in t.pages && x != except ==> SizeOk(t, max, x)
  }

  // ---------------------------------------------------------------- adopting children one by one

  lemma AdoptNone(pages: map<PageNo, Node>, g: PageNo)
    ensures Adopt(pages, [], g) == pages
  {
  }

  lemma AdoptStep(pages: map<PageNo, Node>, kids: seq<Rid>, i: nat, c: PageNo, g: PageNo)
    requires i < |kids| && kids[i] == Child(c) && c in pages
    ensures Adopt(pages, kids[..i + 1], g) == Adopt(pages, kids[..i], g)[c := Adopt(pages, kids[..i], g)[c].(parent := g)]
  {
    assert kids[..i + 1] == kids[..i] + [kids[i]];
  }

  // ---------------------------------------------------------------- splits

  /** Splitting the old root and putting both halves under a new root is raising the root first. */
  lemma GrowPages(t: Tree, q: PageNo, r: PageNo, cut: nat)
    requires SplitReady(t, t.root, q, cut) && WellFormed(t) && q !in t.pages
    requires r !in t.pages && r != q && r >= INIT_ROOT_PAGE
    ensures var p, k := t.root, t.pages[t.root].keys[cut];
            var u := RaiseRoot(t, r);
            && Splittable(t.pages, p, cut) && (t.pages[p].isLeaf ==> p in t.leaves)
            && WellFormed(u) && SplitReady(u, p, q, cut) && p != u.root
            && Splittable(u.pages, p, cut) && (u.pages[p].isLeaf ==> p in u.leaves)
            && Linkable(SplitPages(u.pages, p, q, cut, BLANK), p, q)
            && var b := SplitPages(t.pages, p, q, cut, BLANK);
            && r !in b && p in b && q in b
            && SplitLink(u, p, q, cut, BLANK).pages ==
               b[r := BLANK.(parent := NO_PAGE, keys := [t.pages[p].keys[0], k], rids := [Child(p), Child(q)])]
                [p := b[p].(parent := r)][q := b[q].(parent := r)]
  {
    var p := t.root;
    SplitDefined(t, p, q, cut);
    SplitPagesView(t, p, q, cut, BLANK);
    RaiseRootWellFormed(t, r);
    var u := RaiseRoot(t, r);
    SplitLinkViewed(u, p, q, cut, BLANK);
    GrowPagesEqual(t, q, r, cut);
  }

  lemma GrowPagesEqual(t: Tree, q: PageNo, r: PageNo, cut: nat)
    requires SplitReady(t, t.root, q, cut) && WellFormed(t) && q !in t.pages
    requires r !in t.pages && r != q && r >= INIT_ROOT_PAGE
    requires Splittable(t.pages, t.root, cut)
    requires Splittable(RaiseRoot(t, r).pages, t.root, cut)
    requires Linkable(SplitPages(RaiseRoot(t, r).pages, t.root, q, cut, BLANK), t.root, q)
    requires SplitView(t.pages, t.root, q, cut, SplitPages(t.pages, t.root, q, cut, BLANK))
    ensures var p, k, b := t.root, t.pages[t.root].keys[cut], SplitPages(t.pages, t.root, q, cut, BLANK);
            && r !in b && p in b && q in b
            && LinkPages(SplitPages(RaiseRoot(t, r).pages, p, q, cut, BLANK), p, q) ==
               b[r := BLANK.(parent := NO_PAGE, keys := [t.pages[p].keys[0], k], rids := [Child(p), Child(q)])]
                [p := b[p].(parent := r)][q := b[q].(parent := r)]
  {
    var p := t.root;
    var n := t.pages[p];
    assert NodeOk(t, p) && ParentOk(t, p);
    if n.isLeaf {
      LeafFacts(t, p);
      LeafGrowPages(t.pages, p, q, r, cut);
    } else {
      forall i | 0 <= i < |n.rids| ensures n.rids[i] != Child(r) && n.rids[i] != Child(p) && n.rids[i] != Child(q) {
        ChildFacts(t, p, i);
      }
      InnerGrowPages(t.pages, p, q, r, cut);
    }
  }

  lemma LeafGrowPages(a: map<PageNo, Node>, p: PageNo, q: PageNo, r: PageNo, cut: nat)
    requires p in a && q !in a && r !in a && q != r && a[p].isLeaf && a[p].parent == NO_PAGE && a[p].next != p
    requires Splittable(a, p, cut) && Splittable(RaisePages(a, p, r), p, cut)
    requires Linkable(SplitPages(RaisePages(a, p, r), p, q, cut, BLANK), p, q)
    ensures var k, b := a[p].keys[cut], SplitPages(a, p, q, cut, BLANK);
            && r !in b && p in b && q in b
            && LinkPages(SplitPages(RaisePages(a, p, r), p, q, cut, BLANK), p, q) ==
               b[r := BLANK.(parent := NO_PAGE, keys := [a[p].keys[0], k], rids := [Child(p), Child(q)])]
                [p := b[p].(parent := r)][q := b[q].(parent := r)]
  {
    var n, b := a[p], SplitPages(a, p, q, cut, BLANK);
    var u := SplitPages(RaisePages(a, p, r), p, q, cut, BLANK);
    var top := BLANK.(parent := NO_PAGE, keys := [n.keys[0]], rids := [Child(p)]);
    assert u == b[r := top][p := b[p].(parent := r)][q := b[q].(parent := r)];
    assert Splice([n.keys[0]], 1, [n.keys[cut]]) == [n.keys[0], n.keys[cut]];
    assert Splice([Child(p)], 1, [Child(q)]) == [Child(p), Child(q)];
  }

  lemma InnerGrowPages(a: map<PageNo, Node>, p: PageNo, q: PageNo, r: PageNo, cut: nat)
    requires p in a && q !in a && r !in a && q != r && !a[p].isLeaf && a[p].parent == NO_PAGE
    requires Splittable(a, p, cut) && Splittable(RaisePages(a, p, r), p, cut)
    requires forall i :: 0 <= i < |a[p].rids| ==> a[p].rids[i] != Child(r) && a[p].rids[i] != Child(p) && a[p].rids[i] != Child(q)
    requires Linkable(SplitPages(RaisePages(a, p, r), p, q, cut, BLANK), p, q)
    ensures var k, b := a[p].keys[cut], SplitPages(a, p, q, cut, BLANK);
            && r !in b && p in b && q in b
            && LinkPages(SplitPages(RaisePages(a, p, r), p, q, cut, BLANK), p, q) ==
               b[r := BLANK.(parent := NO_PAGE, keys := [a[p].keys[0], k], rids := [Child(p), Child(q)])]
                [p := b[p].(parent := r)][q := b[q].(parent := r)]
  {
    var n, kids := a[p], a[p].rids[cut..];
    assert forall i :: 0 <= i < |kids| ==> kids[i] == n.rids[cut + i];
    assert forall x :: x in kids ==> x != Child(r) && x != Child(p) && x != Child(q);
    var left, right := n.(keys := n.keys[..cut], rids := n.rids[..cut]), BLANK.(parent := NO_PAGE, keys := n.keys[cut..], rids := kids);
    var b := SplitPages(a, p, q, cut, BLANK);
    assert b == Adopt(a[p := left][q := right], kids, q);
    assert b[p] == left && b[q] == right;
    var u := SplitPages(RaisePages(a, p, r), p, q, cut, BLANK);
    var top := BLANK.(parent := NO_PAGE, keys := [n.keys[0]], rids := [Child(p)]);
    assert u == Adopt(RaisePages(a, p, r)[p := left.(parent := r)][q := right.(parent := r)], kids, q);
    assert u[p] == left.(parent := r) && u[q] == right.(parent := r) && u[r] == top;
    assert u == b[r := top][p := left.(parent := r)][q := right.(parent := r)];
    assert Splice([n.keys[0]], 1, [n.keys[cut]]) == [n.keys[0], n.keys[cut]];
    assert Splice([Child(p)], 1, [Child(q)]) == [Child(p), Child(q)];
  }

  /** After a split in the middle the two halves are at least half full and not full. */
  lemma SplitSizes(t: Tree, p: PageNo, q: PageNo, cut: nat, u: Tree, max: nat)
    requires Split(t, p, q, cut, u) && max >= 4
    requires forall x {:trigger SizeOk(t, max, x)} ::
               x in t.extents && x in t.pages && x != p && x != t.pages[p].parent ==> SizeOk(t, max, x)
    requires |t.pages[p].keys| == max && cut == (max + 1) / 2
    ensures SizesOk(u, max, t.pages[p].parent)
    ensures var g := t.pages[p].parent;
            g in u.extents && g in u.pages && g in t.pages && |u.pages[g].keys| == |t.pages[g].keys| + 1 && u.root == t.root
  {
    ParentFacts(t, p);
    var g := t.pages[p].parent;
    forall x {:trigger SizeOk(u, max, x)} | x in u.extents && x in u.pages && x != g ensures SizeOk(u, max, x) {
      if x != p && x != q {
        assert x in t.extents && x in t.pages && SizeOk(t, max, x);
        assert u.pages[x] == Moved(t.pages, p, q, cut, x);
      }
    }
  }

  /** The tree after the right half of a split page entered the parent, which may now be full. */
  lemma LinkFacts(t: Tree, p: PageNo, q: PageNo, cut: nat, max: nat)
    requires WellFormed(t) && SplitReady(t, p, q, cut) && p != t.root && SizesOk(t, max, p) && max >= 4
    requires |t.pages[p].keys| == max && cut == (max + 1) / 2
    ensures Splittable(t.pages, p, cut) && (t.pages[p].isLeaf ==> p in t.leaves)
    ensures Linkable(SplitPages(t.pages, p, q, cut, BLANK), p, q)
    ensures var u, g, b := SplitLink(t, p, q, cut, BLANK), t.pages[p].parent, SplitPages(t.pages, p, q, cut, BLANK);
            && WellFormed(u) && Entries(u) == Entries(t) && SizesOk(u, max, g)
            && g in u.extents && g in u.pages && !u.pages[g].isLeaf && |u.pages[g].keys| <= max
            && (|u.pages[g].keys| < max ==> SizesOk(u, max, NO_PAGE))
            && b[p].parent == g && g != q && b.Keys == t.pages.Keys + {q} == u.pages.Keys && |b[g].keys| < max
            && u.extents[g].height == t.extents[p].height + 1 && u.root in u.extents
            && u.extents[u.root].height == t.extents[t.root].height >= u.extents[g].height
            && (forall i: nat :: i < |b[g].rids| && b[g].rids[i].pageNo == p ==> i == IndexOf(b[g].rids, Child(p)))
  {
    SplitLinkViewed(t, p, q, cut, BLANK);
    SplitPagesView(t, p, q, cut, BLANK);
    SplitLinkWellFormed(t, p, q, cut, BLANK);
    var u, g := SplitLink(t, p, q, cut, BLANK), t.pages[p].parent;
    SplitEntries(t, p, q, cut, u);
    SplitSizes(t, p, q, cut, u, max);
    ParentFacts(t, p);
    assert SizeOk(t, max, g);
    if |u.pages[g].keys| < max {
      assert SizeOk(u, max, g);
    }
    assert ParentOk(t, g) && ParentOk(t, p);
    SplitKeepsParent(t, p, q, cut);
    assert NodeOk(t, g);
    forall i: nat | i < |t.pages[g].rids| && t.pages[g].rids[i].pageNo == p
      ensures i == IndexOf(t.pages[g].rids, Child(p))
    {
      ChildFacts(t, g, i);
      Once(t.pages[g].rids, i, IndexOf(t.pages[g].rids, Child(p)));
    }
  }

  /** What the split of a page finds before it starts. */
  lemma SplitFacts(t: Tree, p: PageNo, q: PageNo, cut: nat)
    requires SplitReady(t, p, q, cut) && WellFormed(t)
    ensures var n := t.pages[p];
            && Splittable(t.pages, p, cut) && (n.isLeaf ==> p in t.leaves)
            && (n.isLeaf ==> n.next in t.pages && n.next != p && n.next != NO_PAGE)
            && (!n.isLeaf ==> forall i :: 0 <= i < |n.rids| ==>
                  n.rids[i] == Child(n.rids[i].pageNo) && n.rids[i].pageNo in t.pages)
            && SplitPages(t.pages, p, q, cut, BLANK).Keys == t.pages.Keys + {q}
            && SplitPages(t.pages, p, q, cut, BLANK)[q].keys != []
  {
    SplitDefined(t, p, q, cut);
    SplitPagesView(t, p, q, cut, BLANK);
    if t.pages[p].isLeaf {
      LeafFacts(t, p);
    } else {
      forall i: nat | i < |t.pages[p].rids|
        ensures t.pages[p].rids[i] == Child(t.pages[p].rids[i].pageNo) && t.pages[p].rids[i].pageNo in t.pages
      {
        ChildFacts(t, p, i);
      }
    }
  }

  /** The tree after the root was split and a new root r was put on top. */
  lemma GrowRootOk(t: Tree, p: PageNo, q: PageNo, r: PageNo, cut: nat, max: nat, u: Tree)
    requires WellFormed(t) && SplitReady(t, p, q, cut) && p == t.root && q !in t.pages && SizesOk(t, max, p) && max >= 4
    requires |t.pages[p].keys| == max && cut == (max + 1) / 2
    requires r !in t.pages && r != q && r >= INIT_ROOT_PAGE
    requires Splittable(t.pages, p, cut) && (t.pages[p].isLeaf ==> p in t.leaves)
    requires var b := SplitPages(t.pages, p, q, cut, BLANK);
             && p in b && q in b
             && u.pages == b[r := BLANK.(parent := NO_PAGE, keys := [t.pages[p].keys[0], t.pages[p].keys[cut]], rids := [Child(p), Child(q)])]
                            [p := b[p].(parent := r)][q := b[q].(parent := r)]
    requires u.root == r && u.leaves == SplitLeaves(t, p, q)
    requires u.extents == SplitAt(t, p, q, cut, BLANK).extents[r := Extent(Below, Above, t.extents[p].height + 1)]
    ensures WellFormed(u) && Entries(u) == Entries(t) && SizesOk(u, max, NO_PAGE)
  {
    GrowPages(t, q, r, cut);
    SwapUpdates(t.extents, p, q, r, u.extents[p], u.extents[q], u.extents[r]);
    assert u == SplitLink(RaiseRoot(t, r), p, q, cut, BLANK);
    RaisedAndSplit(t, p, q, r, cut, max);
  }

  lemma SwapUpdates<K, V>(m: map<K, V>, p: K, q: K, r: K, x: V, y: V, z: V)
    requires r != p && r != q
    ensures m[p := x][q := y][r := z] == m[r := z][p := x][q := y]
  {
  }

  lemma RaisedAndSplit(t: Tree, p: PageNo, q: PageNo, r: PageNo, cut: nat, max: nat)
    requires WellFormed(t) && r !in t.pages && r != q && r >= INIT_ROOT_PAGE && t.pages[t.root].keys != []
    requires p == t.root && SizesOk(t, max, p) && max >= 4 && |t.pages[p].keys| == max && cut == (max + 1) / 2
    requires var v := RaiseRoot(t, r); WellFormed(v) && SplitReady(v, p, q, cut) && p == t.root && p != v.root
    ensures var v := RaiseRoot(t, r);
            && Splittable(v.pages, p, cut) && (v.pages[p].isLeaf ==> p in v.leaves)
            && Linkable(SplitPages(v.pages, p, q, cut, BLANK), p, q)
            && var u := SplitLink(v, p, q, cut, BLANK);
            && WellFormed(u) && Entries(u) == Entries(t) && SizesOk(u, max, NO_PAGE)
  {
    var v := RaiseRoot(t, r);
    SplitLinkViewed(v, p, q, cut, BLANK);
    SplitLinkWellFormed(v, p, q, cut, BLANK);
    var u := SplitLink(v, p, q, cut, BLANK);
    SplitEntries(v, p, q, cut, u);
    RaiseEntries(t, r);
    RaiseSizes(t, r, max);
    SplitSizes(v, p, q, cut, u, max);
    assert SizeOk(u, max, r);
  }

  lemma RaiseEntries(t: Tree, r: PageNo)
    requires WellFormed(t) && r !in t.pages && t.pages[t.root].keys != []
    ensures Entries(RaiseRoot(t, r)) == Entries(t)
  {
    var u := RaiseRoot(t, r);
    forall c | c in t.leaves ensures PageEntries(u.pages, c) == PageEntries(t.pages, c) {
      assert Listed(t, c);
    }
    FlattenFrame(t.pages, u.pages, t.leaves);
  }

  lemma RaiseSizes(t: Tree, r: PageNo, max: nat)
    requires WellFormed(t) && r !in t.pages && t.pages[t.root].keys != [] && SizesOk(t, max, t.root)
    ensures forall x :: x in t.extents && x != t.root ==>
              x in RaiseRoot(t, r).pages && |t.pages[x].keys| == |RaiseRoot(t, r).pages[x].keys|
    ensures forall x {:trigger SizeOk(RaiseRoot(t, r), max, x)} :: x in t.extents && x != t.root && x in RaiseRoot(t, r).pages ==> SizeOk(RaiseRoot(t, r), max, x)
  {
    forall x {:trigger SizeOk(RaiseRoot(t, r), max, x)} | x in t.extents && x != t.root && x in RaiseRoot(t, r).pages
      ensures SizeOk(RaiseRoot(t, r), max, x)
    {
      assert SizeOk(t, max, x);
    }
  }

  // ---------------------------------------------------------------- one leaf

  /** A key that is new enters the covering leaf at its lower bound. */
  lemma LeafInsert(t: Tree, p: PageNo, pos: nat, k: Key, v: Rid, max: nat)
    requires WellFormed(t) && SizesOk(t, max, NO_PAGE) && p in t.extents && t.pages[p].isLeaf && Covers(t.extents[p], k)
    requires |t.pages[p].keys| == |t.pages[p].rids| && pos <= |t.pages[p].keys|
    requires forall i :: 0 <= i < pos ==> t.pages[p].keys[i] < k
    requires forall i :: pos <= i < |t.pages[p].keys| ==> k < t.pages[p].keys[i]
    ensures var n := t.pages[p];
            var u := EditLeaf(t, p, Splice(n.keys, pos, [k]), Splice(n.rids, pos, [v]));
            && WellFormed(u) && Entries(u) == Inserted(Entries(t), k, v)
            && |u.pages[p].keys| <= max && SizesOk(u, max, p)
            && (|u.pages[p].keys| < max ==> SizesOk(u, max, NO_PAGE))
  {
    var n := t.pages[p];
    assert NodeOk(t, p) && SizeOk(t, max, p);
    var ks, rs := Splice(n.keys, pos, [k]), Splice(n.rids, pos, [v]);
    SpliceLeafOk(n, t.extents[p], pos, k, v);
    EditLeafWellFormed(t, p, ks, rs);
    var u := EditLeaf(t, p, ks, rs);
    var pre, post := AroundLeaf(t, p, k);
    EditLeafEntries(t, p, u);
    SpliceIsInserted(n.keys, n.rids, pos, k, v);
    InsertedLocal(pre, PageEntries(t.pages, p), post, k, v);
    EditLeafSizes(t, p, u, max);
  }

  lemma SpliceLeafOk(n: Node, e: Extent, pos: nat, k: Key, v: Rid)
    requires LeafOk(n, e) && Covers(e, k) && |n.keys| == |n.rids| && pos <= |n.keys|
    requires forall i :: 0 <= i < pos ==> n.keys[i] < k
    requires forall i :: pos <= i < |n.keys| ==> k < n.keys[i]
    ensures LeafOk(n.(keys := Splice(n.keys, pos, [k]), rids := Splice(n.rids, pos, [v])), e)
  {
    var ks := Splice(n.keys, pos, [k]);
    assert forall i :: 0 <= i < |ks| ==> ks[i] == if i < pos then n.keys[i] else if i == pos then k else n.keys[i - 1];
  }

  /** Editing one leaf leaves the sizes of all other pages alone. */
  lemma EditLeafSizes(t: Tree, p: PageNo, u: Tree, max: nat)
    requires SizesOk(t, max, NO_PAGE) && NO_PAGE !in t.extents && p in t.extents && p in t.pages && t.pages[p].isLeaf
    requires u.extents == t.extents && u.root == t.root && u.pages.Keys == t.pages.Keys && u.pages[p].isLeaf
    requires forall c :: c in t.pages && c != p ==> u.pages[c] == t.pages[c]
    ensures SizesOk(u, max, p)
    ensures |u.pages[p].keys| < max && |u.pages[p].keys| >= |t.pages[p].keys| ==> SizesOk(u, max, NO_PAGE)
  {
    forall x {:trigger SizeOk(u, max, x)} | x in u.extents && x in u.pages && x != p ensures SizeOk(u, max, x) {
      assert SizeOk(t, max, x);
    }
    assert p != NO_PAGE ==> SizeOk(t, max, p);
    if |u.pages[p].keys| < max && |u.pages[p].keys| >= |t.pages[p].keys| {
      forall x {:trigger SizeOk(u, max, x)} | x in u.extents && x in u.pages && x != NO_PAGE ensures SizeOk(u, max, x) {
        assert SizeOk(t, max, x);
      }
    }
  }

  /** A key that is present leaves the covering leaf. */
  lemma LeafRemove(t: Tree, p: PageNo, pos: nat, k: Key, max: nat)
    requires WellFormed(t) && SizesOk(t, max, NO_PAGE) && p in t.extents && t.pages[p].isLeaf && Covers(t.extents[p], k)
    requires |t.pages[p].keys| == |t.pages[p].rids| && pos < |t.pages[p].keys| && t.pages[p].keys[pos] == k
    ensures var n := t.pages[p];
            var u := EditLeaf(t, p, Cut(n.keys, pos), Cut(n.rids, pos));
            && WellFormed(u) && Entries(u) == Removed(Entries(t), k) && SizesOk(u, max, p)
  {
    var n := t.pages[p];
    assert NodeOk(t, p);
    var ks, rs := Cut(n.keys, pos), Cut(n.rids, pos);
    assert forall i :: 0 <= i < |ks| ==> ks[i] == n.keys[if i < pos then i else i + 1];
    EditLeafWellFormed(t, p, ks, rs);
    var u := EditLeaf(t, p, ks, rs);
    var pre, post := AroundLeaf(t, p, k);
    EditLeafEntries(t, p, u);
    CutIsRemoved(n.keys, n.rids, pos, k);
    RemovedLocal(pre, PageEntries(t.pages, p), post, k);
    EditLeafSizes(t, p, u, max);
  }

  /** The last leaf after leaf p was split: the new one if p was last. */
  lemma LastAfterSplit(t: Tree, p: PageNo, q: PageNo)
    requires ChainOk(t) && p in t.leaves && p in t.pages && t.pages[p].isLeaf
    ensures var s, w := t.leaves, SplitLeaves(t, p, q);
            w != [] && w[|w| - 1] == if p == s[|s| - 1] then q else s[|s| - 1]
  {
    Once(t.leaves, IndexOf(t.leaves, p), |t.leaves| - 1);
  }
}
