/**
 The index handle: insertion into and deletion from the B+ tree, from the covering leaf on.

 Pages live in a map from page numbers to page contents.  Every access to a page goes through
 Page and Write, which may be called for pinned pages only.
 */
module IndexHandle {
  import opened TreeShape
  import opened TreeSplit
  import opened TreeSplitProof
  import opened TreeMerge
  import opened TreeRoot
  import opened TreeContents
  import opened TreeRecut
  import opened TreeSizes
  import opened TreeShrink
  import opened IndexNode

  lemma SpliceEmpty<T>(xs: seq<T>)
    ensures Splice([], 0, xs) == xs
  {
  }

  lemma RootOrNot(t: Tree, p: PageNo)
    requires WellFormed(t) && p in t.extents
    ensures p in t.pages && (t.pages[p].parent == NO_PAGE <==> p == t.root)
  {
    assert ParentOk(t, p);
  }

  lemma PresentKey(t: Tree, p: PageNo, i: nat, v: Rid)
    requires WellFormed(t) && p in t.extents && t.pages[p].isLeaf && |t.pages[p].keys| == |t.pages[p].rids|
    requires i < |t.pages[p].keys|
    ensures Inserted(Entries(t), t.pages[p].keys[i], v) == Entries(t)
  {
    assert NodeOk(t, p);
    var k := t.pages[p].keys[i];
    var pre, post := AroundLeaf(t, p, k);
    InsertedLocal(pre, PageEntries(t.pages, p), post, k, v);
    InsertedPresent(PageEntries(t.pages, p), k, v, i);
  }

  lemma SpliceEnd<T>(xs: seq<T>, ys: seq<T>)
    ensures Splice(xs, |xs|, ys) == xs + ys
  {
  }

  lemma KeyPresent(t: Tree, p: PageNo, i: nat)
    requires WellFormed(t) && p in t.extents && t.pages[p].isLeaf && i < |t.pages[p].keys| == |t.pages[p].rids|
    ensures (t.pages[p].keys[i], t.pages[p].rids[i]) in Entries(t)
    ensures HasKey(Entries(t), t.pages[p].keys[i])
  {
    assert NodeOk(t, p);
    var pre, post := AroundLeaf(t, p, t.pages[p].keys[i]);
    var e := PageEntries(t.pages, p)[i];
    assert e in Entries(t);
  }

  lemma KeyAbsent(t: Tree, p: PageNo, k: Key)
    requires WellFormed(t) && p in t.extents && t.pages[p].isLeaf && Covers(t.extents[p], k) && k !in t.pages[p].keys
    ensures !HasKey(Entries(t), k) && Removed(Entries(t), k) == Entries(t)
  {
    var pre, post := AroundLeaf(t, p, k);
    forall e | e in Entries(t) ensures e.0 != k {
      if e in PageEntries(t.pages, p) {
        var i: nat :| i < |PageEntries(t.pages, p)| && PageEntries(t.pages, p)[i] == e;
        assert t.pages[p].keys[i] == e.0;
      }
    }
    RemovedAbsent(Entries(t), k);
  }

  /** A tree whose root has keys holds at least one entry. */
  lemma NotEmpty(t: Tree, max: nat)
    requires WellFormed(t) && SizesOk(t, max, NO_PAGE) && max >= 4 && t.pages[t.root].keys != []
    ensures Entries(t) != []
  {
    var p := t.leaves[0];
    assert Listed(t, p) && NodeOk(t, p) && SizeOk(t, max, p);
    assert |PageEntries(t.pages, p)| > 0;
  }

  datatype Option<+T> = None | Some(value: T)

  /** The start of a deletion: the pins of others, the pages of the tree, its root, and what had been dropped or refused. */
  datatype Watch = Watch(held: multiset<PageNo>, live: set<PageNo>, root: PageNo, dropped: set<PageNo>, refused: set<PageNo>)

  /**
   No page has come to the tree since.  Those that left it, other than the root, went to the pool to
   be dropped, and it refused exactly those that others hold.
   */
  ghost predicate Drops(w: Watch, live: set<PageNo>, dropped: set<PageNo>, refused: set<PageNo>) {
    && live <= w.live
    && dropped + refused == w.dropped + w.refused + (w.live - live - {w.root})
    && (forall p :: p in refused ==> p in w.refused || p in w.held)
    && (forall p :: p in dropped && p in w.held ==> p in w.dropped)
  }

  /** A page leaves the tree and is dropped, unless others hold it. */
  lemma DropsOneMore(w: Watch, live: set<PageNo>, dropped: set<PageNo>, refused: set<PageNo>, p: PageNo)
    requires Drops(w, live, dropped, refused) && p in live && p != w.root
    ensures if p in w.held then Drops(w, live - {p}, dropped, refused + {p}) else Drops(w, live - {p}, dropped + {p}, refused)
  {
    assert w.live - (live - {p}) - {w.root} == (w.live - live - {w.root}) + {p};
    assert dropped + (refused + {p}) == (dropped + refused) + {p} == (dropped + {p}) + refused;
  }

  lemma ThreePins(held: multiset<PageNo>, g: PageNo, index: nat, node: PageNo, neighbor: PageNo)
    ensures held + multiset{node} + multiset{g} + multiset{neighbor} ==
            held + multiset{g} + multiset{IxIndexHandle.Left(index, node, neighbor)} + multiset{IxIndexHandle.Right(index, node, neighbor)}
            == held + multiset{node} + multiset{neighbor} + multiset{g}
  {
  }

  lemma StillAccounted(w: Watch, live: set<PageNo>, now: set<PageNo>, dropped: set<PageNo>, refused: set<PageNo>)
    requires Drops(w, live, dropped, refused) && (now == live || now == live - {w.root})
    ensures Drops(w, now, dropped, refused)
  {
    assert w.live - now - {w.root} == w.live - live - {w.root};
  }

  class IxIndexHandle {
    const maxSize: nat
    const firstLeaf: PageNo := INIT_ROOT_PAGE
    var pages: map<PageNo, Node>
    var root: PageNo
    var lastLeaf: PageNo
    var numPages: int
    var nextPage: PageNo
    var pins: multiset<PageNo>
    var dropped: set<PageNo>

    ghost var refused: set<PageNo>
    ghost var extents: map<PageNo, Extent>
    ghost var leaves: seq<PageNo>

    ghost function View(): Tree
      reads this`pages, this`root, this`extents, this`leaves
    {
      Tree(pages, root, extents, leaves)
    }

    /** Page numbers come from a counter; the file holds two header pages and the tree. */
    ghost predicate CountersOk()
      reads this`pages, this`nextPage, this`numPages, this`extents
    {
      && maxSize >= 4
      && nextPage > INIT_ROOT_PAGE && (forall p :: p in pages ==> p < nextPage)
      && numPages == 2 + |extents|
    }

    ghost predicate LastLeafOk()
      reads this`leaves, this`lastLeaf
    {
      leaves != [] && lastLeaf == leaves[|leaves| - 1]
    }

    /** What holds between any two calls while the index is not empty. */
    ghost predicate Valid()
      reads this`pages, this`root, this`extents, this`leaves, this`nextPage, this`numPages, this`lastLeaf
    {
      CountersOk() && WellFormed(View()) && SizesOk(View(), maxSize, NO_PAGE) && LastLeafOk()
    }

    /** The key-rid pairs of the index, in chain order. */
    ghost function Contents(): seq<Entry>
      reads this`pages, this`root, this`extents, this`leaves
    {
      Entries(View())
    }

    /** create_index and open_index: an empty root leaf in a ring with the leaf header page. */
    constructor (order: nat)
      requires order > 2
      ensures Valid() && Contents() == [] && maxSize == MaxSize(order) && pins == multiset{} && dropped == refused == {} && root == INIT_ROOT_PAGE
    {
      maxSize := order + 1;
      pages := map[
        LEAF_HEADER_PAGE := Node(true, NO_PAGE, INIT_ROOT_PAGE, INIT_ROOT_PAGE, [], []),
        INIT_ROOT_PAGE := Node(true, NO_PAGE, LEAF_HEADER_PAGE, LEAF_HEADER_PAGE, [], [])];
      root, lastLeaf := INIT_ROOT_PAGE, INIT_ROOT_PAGE;
      numPages, nextPage := 3, 3;
      pins, dropped, refused := multiset{}, {}, {};
      extents := map[INIT_ROOT_PAGE := Extent(Below, Above, 0)];
      leaves := [INIT_ROOT_PAGE];
      new;
      assert forall p :: Listed(View(), p);
      assert NodeOk(View(), root) && ParentOk(View(), root);
      assert LinkOk(pages, leaves, -1) && LinkOk(pages, leaves, 0);
      FlattenOne(pages, root);
    }

    // ---------------------------------------------------------------- pages and pins

    function Page(p: PageNo): Node
      requires p in pins && p in pages
      reads this
    {
      pages[p]
    }

    method Write(p: PageNo, n: Node)
      requires p in pins && p in pages
      modifies this`pages
      ensures pages == old(pages)[p := n]
    {
      pages := pages[p := n];
    }

    method FetchNode(p: PageNo)
      requires p in pages
      modifies this`pins
      ensures pins == old(pins) + multiset{p}
    {
      pins := pins + multiset{p};
    }

    method UnpinPage(p: PageNo) returns (ok: bool)
      modifies this`pins
      ensures pins == old(pins) - multiset{p} && ok == (p in old(pins))
    {
      ok := p in pins;
      pins := pins - multiset{p};
    }

    method UnpinThree(a: PageNo, b: PageNo, c: PageNo, ghost held: multiset<PageNo>)
      requires pins == held + multiset{a} + multiset{b} + multiset{c}
      modifies this`pins
      ensures pins == held
    {
      var _ := UnpinPage(a);
      var _ := UnpinPage(b);
      var _ := UnpinPage(c);
    }

    /** Drops a page from the pool unless it is pinned.  Only pages outside the tree are dropped. */
    method DeletePage(p: PageNo) returns (ok: bool)
      requires p !in extents
      modifies this`dropped, this`refused
      ensures ok <==> p !in pins
      ensures dropped == if ok then old(dropped) + {p} else old(dropped)
      ensures refused == if ok then old(refused) else old(refused) + {p}
    {
      ok := p !in pins;
      if ok {
        dropped := dropped + {p};
      } else {
        refused := refused + {p};
      }
    }

    /** What the pool was asked to drop since w is accounted for. */
    ghost predicate Accounted(w: Watch)
      reads this`extents, this`dropped, this`refused
    {
      Drops(w, extents.Keys, dropped, refused)
    }

    method CreateNode() returns (q: PageNo)
      modifies this`numPages, this`pages, this`nextPage, this`pins
      ensures q == old(nextPage) && nextPage == q + 1 && numPages == old(numPages) + 1
      ensures pages == old(pages)[q := BLANK] && pins == old(pins) + multiset{q}
    {
      numPages := numPages + 1;
      q := nextPage;
      nextPage := nextPage + 1;
      pages := pages[q := BLANK];
      pins := pins + multiset{q};
    }

    method ReleaseNodeHandle()
      modifies this`numPages
      ensures numPages == old(numPages) - 1
    {
      numPages := numPages - 1;
    }

    /** There is room in a page for maxSize entries. */
    method InsertPairs(p: PageNo, pos: nat, ks: seq<Key>, rs: seq<Rid>)
      requires p in pins && p in pages && pos <= |pages[p].keys| == |pages[p].rids| && |ks| == |rs|
      requires |pages[p].keys| + |ks| <= maxSize
      modifies this`pages
      ensures pages == old(pages)[p := old(pages)[p].(keys := Splice(old(pages)[p].keys, pos, ks), rids := Splice(old(pages)[p].rids, pos, rs))]
    {
      var n := Page(p);
      Write(p, n.(keys := Splice(n.keys, pos, ks), rids := Splice(n.rids, pos, rs)));
    }

    method ErasePair(p: PageNo, pos: nat)
      requires p in pins && p in pages && pos < |pages[p].keys| == |pages[p].rids|
      modifies this`pages
      ensures pages == old(pages)[p := old(pages)[p].(keys := Cut(old(pages)[p].keys, pos), rids := Cut(old(pages)[p].rids, pos))]
    {
      var n := Page(p);
      Write(p, n.(keys := Cut(n.keys, pos), rids := Cut(n.rids, pos)));
    }

    /** The child in slot i of page p learns that p is its parent. */
    method MaintainChild(p: PageNo, i: nat)
      requires p in pins && p in pages && i < |pages[p].rids|
      requires !pages[p].isLeaf ==> pages[p].rids[i].pageNo in pages
      modifies this`pages, this`pins
      ensures pins == old(pins)
      ensures pages == if old(pages)[p].isLeaf then old(pages)
                       else var c := old(pages)[p].rids[i].pageNo; old(pages)[c := old(pages)[c].(parent := p)]
    {
      if !Page(p).isLeaf {
        var c := Page(p).rids[i].pageNo;
        FetchNode(c);
        Write(c, Page(c).(parent := p));
        var _ := UnpinPage(c);
        assert pins == old(pins);
      }
    }

    /** The loop that Split and Coalesce run over the children that changed page. */
    method MaintainChildren(p: PageNo, from: nat)
      requires p in pins && p in pages && from <= |pages[p].rids| && !pages[p].isLeaf
      requires forall i :: from <= i < |pages[p].rids| ==>
                 pages[p].rids[i] == Child(pages[p].rids[i].pageNo) && pages[p].rids[i].pageNo in pages
      modifies this`pages, this`pins
      ensures pins == old(pins)
      ensures pages == Adopt(old(pages), old(pages)[p].rids[from..], p)
    {
      ghost var base, kids := pages, pages[p].rids[from..];
      AdoptNone(base, p);
      assert kids[..0] == [];
      var i := from;
      while i < |Page(p).rids|
        invariant from <= i <= from + |kids| && p in pages && p in pins && pins == old(pins)
        invariant pages[p].rids == base[p].rids && !pages[p].isLeaf
        invariant pages == Adopt(base, kids[..i - from], p)
        decreases from + |kids| - i
      {
        AdoptStep(base, kids, i - from, kids[i - from].pageNo, p);
        MaintainChild(p, i);
        i := i + 1;
      }
      assert kids[..i - from] == kids;
    }

    // ---------------------------------------------------------------- search in the covering leaf

    /** The leaf that is responsible for the key, as FindLeafPage is documented to return. */
    ghost predicate CoveringLeaf(leaf: PageNo, key: Key)
      reads this
    {
      Responsible(View(), leaf, key)
    }

    method GetValue(leaf: PageNo, key: Key) returns (value: Option<Rid>)
      requires Valid() && CoveringLeaf(leaf, key)
      modifies this`pins
      ensures pins == old(pins)
      ensures value.Some? <==> HasKey(Contents(), key)
      ensures value.Some? ==> (key, value.value) in Contents()
    {
      FetchNode(leaf);
      assert NodeOk(View(), leaf);
      var n := Page(leaf);
      var i := LowerBound(n.keys, key);
      if i < |n.keys| && n.keys[i] == key {
        value := Some(n.rids[i]);
        KeyPresent(View(), leaf, i);
      } else {
        value := None;
        KeyAbsent(View(), leaf, key);
      }
      var _ := UnpinPage(leaf);
    }

    // ---------------------------------------------------------------- splits

    /** Leaf q enters the chain behind leaf p. */
    method LinkNewLeaf(p: PageNo, q: PageNo)
      requires p in pins && q in pins && p in pages && q in pages && p != q
      requires pages[p].next in pages && pages[p].next != p && pages[p].next != q && pages[p].next != NO_PAGE
      modifies this`pages, this`pins
      ensures pins == old(pins)
      ensures var a, n := old(pages), old(pages)[p];
              pages == a[n.next := a[n.next].(prev := q)][p := n.(next := q)][q := a[q].(prev := p, next := n.next)]
    {
      var next := Page(p).next;
      Write(q, Page(q).(next := next, prev := p));
      if next != NO_PAGE {
        FetchNode(next);
        Write(next, Page(next).(prev := q));
        var _ := UnpinPage(next);
        assert pins == old(pins);
      }
      Write(p, Page(p).(next := q));
    }

    /** What Split does to the pages: q takes over the upper half of p; moved children and the chain follow. */
    method MoveUpperHalf(p: PageNo) returns (q: PageNo)
      requires p in pins && p in pages && maxSize >= |pages[p].keys| == |pages[p].rids| >= 2
      requires forall c :: c in pages ==> c < nextPage
      requires pages[p].isLeaf ==> pages[p].next in pages && pages[p].next != p && pages[p].next != NO_PAGE
      requires !pages[p].isLeaf ==> forall i :: 0 <= i < |pages[p].rids| ==>
                 pages[p].rids[i] == Child(pages[p].rids[i].pageNo) && pages[p].rids[i].pageNo in pages
      modifies this`pages, this`pins, this`numPages, this`nextPage
      ensures q == old(nextPage) && nextPage == q + 1 && numPages == old(numPages) + 1
      ensures Splittable(old(pages), p, (|old(pages)[p].keys| + 1) / 2)
      ensures pages == SplitPages(old(pages), p, q, (|old(pages)[p].keys| + 1) / 2, BLANK)
      ensures pins == old(pins) + multiset{q}
    {
      q := CreateNode();
      var n := Page(p);
      var total := |n.keys|;
      var mid := (total + 1) / 2;
      Write(q, Page(q).(isLeaf := n.isLeaf, parent := n.parent));
      InsertPairs(q, 0, n.keys[mid..], n.rids[mid..]);
      Write(p, n.(keys := n.keys[..mid], rids := n.rids[..mid]));
      SpliceEmpty(n.keys[mid..]);
      SpliceEmpty(n.rids[mid..]);
      assert pages == old(pages)[p := n.(keys := n.keys[..mid], rids := n.rids[..mid])]
                      [q := BLANK.(isLeaf := n.isLeaf, parent := n.parent, keys := n.keys[mid..], rids := n.rids[mid..])];
      if n.isLeaf {
        LinkNewLeaf(p, q);
      } else {
        MaintainChildren(q, 0);
        assert n.rids[mid..][0..] == n.rids[mid..];
      }
    }

    /** A new page q takes over the upper half of page p of the tree, but is not in its parent yet. */
    method Split(p: PageNo) returns (q: PageNo)
      requires CountersOk() && WellFormed(View()) && p in extents && p in pins && maxSize >= |pages[p].keys| >= 2
      modifies this`pages, this`pins, this`root, this`lastLeaf, this`numPages, this`nextPage, this`extents, this`leaves
      ensures q == old(nextPage) && q !in old(pages) && CountersOk() && lastLeaf == old(lastLeaf)
      ensures SplitReady(old(View()), p, q, (|old(pages)[p].keys| + 1) / 2)
      ensures Splittable(old(pages), p, (|old(pages)[p].keys| + 1) / 2) && (old(pages)[p].isLeaf ==> p in old(leaves))
      ensures View() == SplitAt(old(View()), p, q, (|old(pages)[p].keys| + 1) / 2, BLANK)
      ensures pins == old(pins) + multiset{q} && q in pages && pages[q].keys != []
    {
      ghost var t, mid := View(), (|pages[p].keys| + 1) / 2;
      assert nextPage !in pages;
      SplitFacts(t, p, nextPage, mid);
      q := MoveUpperHalf(p);
      leaves := SplitLeaves(t, p, q);
      extents := extents[p := extents[p].(hi := At(t.pages[p].keys[mid]))][q := extents[p].(lo := At(t.pages[p].keys[mid]))];
    }

    // ---------------------------------------------------------------- insertion

    /** Page p of tree t has just been split in the middle; its right half q is still without a slot. */
    ghost predicate JustSplit(t: Tree, p: PageNo, q: PageNo, cut: nat)
      reads this`pages, this`root, this`extents, this`leaves
    {
      && WellFormed(t) && SplitReady(t, p, q, cut) && q !in t.pages && SizesOk(t, maxSize, p)
      && |t.pages[p].keys| == maxSize && cut == (maxSize + 1) / 2
      && Splittable(t.pages, p, cut) && (t.pages[p].isLeaf ==> p in t.leaves)
      && View() == SplitAt(t, p, q, cut, BLANK)
    }

    /** A new root page with the two pages p and q as its children. */
    method MakeRoot(p: PageNo, key: Key, q: PageNo) returns (r: PageNo)
      requires p in pins && q in pins && p in pages && q in pages && p != q && pages[p].keys != []
      requires maxSize >= 2 && forall c :: c in pages ==> c < nextPage
      modifies this`pages, this`pins, this`numPages, this`nextPage, this`root
      ensures r == old(nextPage) && nextPage == r + 1 && numPages == old(numPages) + 1 && root == r && pins == old(pins)
      ensures pages == old(pages)[r := BLANK.(parent := NO_PAGE, keys := [old(pages)[p].keys[0], key], rids := [Child(p), Child(q)])]
                                 [p := old(pages)[p].(parent := r)][q := old(pages)[q].(parent := r)]
    {
      r := CreateNode();
      Write(r, Page(r).(isLeaf := false, parent := NO_PAGE));
      FillRoot(r, Page(p).keys[0], p, key, q);
      assert pages == old(pages)[r := BLANK.(parent := NO_PAGE, keys := [old(pages)[p].keys[0], key], rids := [Child(p), Child(q)])];
      Write(p, Page(p).(parent := r));
      Write(q, Page(q).(parent := r));
      root := r;
      var _ := UnpinPage(r);
      assert pins == old(pins);
    }

    method FillRoot(r: PageNo, first: Key, p: PageNo, key: Key, q: PageNo)
      requires r in pins && r in pages && pages[r].keys == [] && pages[r].rids == [] && maxSize >= 2
      modifies this`pages
      ensures pages == old(pages)[r := old(pages)[r].(keys := [first, key], rids := [Child(p), Child(q)])]
    {
      SpliceEmpty([first]);
      SpliceEmpty([Child(p)]);
      InsertPairs(r, 0, [first], [Child(p)]);
      assert Splice([first], 1, [key]) == [first, key] && Splice([Child(p)], 1, [Child(q)]) == [Child(p), Child(q)];
      InsertPairs(r, 1, [key], [Child(q)]);
    }

    /** Page q goes behind page p in the parent of p, which stays pinned. */
    method EnterParent(p: PageNo, key: Key, q: PageNo) returns (g: PageNo)
      requires p in pins && q in pins && Linkable(pages, p, q) && key == pages[q].keys[0] && pages[p].parent != q
      requires |pages[pages[p].parent].keys| < maxSize
      requires var n := pages[pages[p].parent];
               forall i: nat :: i < |n.rids| && n.rids[i].pageNo == p ==> i == IndexOf(n.rids, Child(p))
      modifies this`pages, this`pins
      ensures g == old(pages)[p].parent && pages == LinkPages(old(pages), p, q) && pins == old(pins) + multiset{g}
    {
      g := Page(p).parent;
      FetchNode(g);
      var i := FindChild(Page(g).rids, p);
      InsertPairs(g, i + 1, [key], [Child(q)]);
      Write(q, Page(q).(parent := g));
    }

    /**
     Enters the right half q of the split page p into the parent, which may split in turn, and so
     on up to a new root.
     */
    method InsertIntoParent(p: PageNo, key: Key, q: PageNo, ghost t: Tree, ghost cut: nat)
      requires CountersOk() && JustSplit(t, p, q, cut) && p in pins && q in pins
      requires q in pages && pages[q].keys != [] && key == pages[q].keys[0]
      modifies this`pages, this`pins, this`root, this`lastLeaf, this`numPages, this`nextPage, this`extents, this`leaves
      ensures CountersOk() && WellFormed(View()) && SizesOk(View(), maxSize, NO_PAGE)
      ensures Contents() == Entries(t) && leaves == old(leaves) && lastLeaf == old(lastLeaf) && pins == old(pins)
      decreases t.extents[t.root].height - t.extents[p].height, 1
    {
      SplitPagesView(t, p, q, cut, BLANK);
      RootOrNot(t, p);
      if Page(p).parent == NO_PAGE {
        GrowRoot(p, key, q, t, cut);
      } else {
        LinkInParent(p, key, q, t, cut);
      }
    }

    /** The root was split: a new root gets its two halves as children. */
    method GrowRoot(p: PageNo, key: Key, q: PageNo, ghost t: Tree, ghost cut: nat)
      requires CountersOk() && JustSplit(t, p, q, cut) && p in pins && q in pins && p == t.root
      requires q in pages && pages[q].keys != [] && key == pages[q].keys[0]
      modifies this`pages, this`pins, this`root, this`lastLeaf, this`numPages, this`nextPage, this`extents, this`leaves
      ensures CountersOk() && WellFormed(View()) && SizesOk(View(), maxSize, NO_PAGE)
      ensures Contents() == Entries(t) && leaves == old(leaves) && lastLeaf == old(lastLeaf) && pins == old(pins)
    {
      SplitPagesView(t, p, q, cut, BLANK);
      var r := MakeRoot(p, key, q);
      extents := extents[r := Extent(Below, Above, t.extents[p].height + 1)];
      GrowRootOk(t, p, q, r, cut, maxSize, View());
    }

    /** The split page has a parent: the right half goes behind the left one. */
    method LinkInParent(p: PageNo, key: Key, q: PageNo, ghost t: Tree, ghost cut: nat)
      requires CountersOk() && JustSplit(t, p, q, cut) && p in pins && q in pins && p != t.root
      requires q in pages && pages[q].keys != [] && key == pages[q].keys[0]
      modifies this`pages, this`pins, this`root, this`lastLeaf, this`numPages, this`nextPage, this`extents, this`leaves
      ensures CountersOk() && WellFormed(View()) && SizesOk(View(), maxSize, NO_PAGE)
      ensures Contents() == Entries(t) && leaves == old(leaves) && lastLeaf == old(lastLeaf) && pins == old(pins)
      decreases t.extents[t.root].height - t.extents[p].height, 0
    {
      LinkFacts(t, p, q, cut, maxSize);
      var g := EnterParent(p, key, q);
      SplitIfFull(g);
      var _ := UnpinPage(g);
      assert pins == old(pins);
    }

    /** The second half of InsertIntoParent: a page that became full is split as well. */
    method SplitIfFull(g: PageNo)
      requires CountersOk() && WellFormed(View()) && g in extents && g in pins && !pages[g].isLeaf
      requires SizesOk(View(), maxSize, g) && |pages[g].keys| <= maxSize
      requires |pages[g].keys| < maxSize ==> SizesOk(View(), maxSize, NO_PAGE)
      modifies this`pages, this`pins, this`root, this`lastLeaf, this`numPages, this`nextPage, this`extents, this`leaves
      ensures CountersOk() && WellFormed(View()) && SizesOk(View(), maxSize, NO_PAGE)
      ensures Contents() == old(Contents()) && leaves == old(leaves) && lastLeaf == old(lastLeaf) && pins == old(pins)
      decreases extents[root].height - extents[g].height, 2
    {
      if |Page(g).keys| == maxSize {
        ghost var u, cut := View(), (maxSize + 1) / 2;
        var h := Split(g);
        InsertIntoParent(g, Page(h).keys[0], h, u, cut);
        var _ := UnpinPage(h);
        assert pins == old(pins);
      }
    }

    /** Insert on the covering leaf: the new pair goes to its sorted place unless the key is there. */
    method InsertInLeaf(leaf: PageNo, key: Key, value: Rid) returns (size: nat)
      requires Valid() && CoveringLeaf(leaf, key) && leaf in pins
      modifies this`pages
      ensures CountersOk() && WellFormed(View()) && SizesOk(View(), maxSize, leaf)
      ensures leaf in pages && pages[leaf].isLeaf && size == |pages[leaf].keys| <= maxSize
      ensures size < maxSize ==> SizesOk(View(), maxSize, NO_PAGE)
      ensures Contents() == Inserted(old(Contents()), key, value)
    {
      ghost var t := View();
      assert NodeOk(t, leaf) && SizeOk(t, maxSize, leaf);
      var n := Page(leaf);
      var pos := LowerBound(n.keys, key);
      if pos < |n.keys| && n.keys[pos] == key {
        PresentKey(t, leaf, pos, value);
        return |n.keys|;
      }
      LeafInsert(t, leaf, pos, key, value, maxSize);
      InsertPairs(leaf, pos, [key], [value]);
      size := |Page(leaf).keys|;
    }

    /** Inserts the pair, splitting pages up to the root where they become full. */
    method InsertEntry(leaf: PageNo, key: Key, value: Rid) returns (ok: bool)
      requires Valid() && CoveringLeaf(leaf, key)
      modifies this`pages, this`pins, this`root, this`lastLeaf, this`numPages, this`nextPage, this`extents, this`leaves
      ensures Valid() && ok && pins == old(pins)
      ensures Contents() == Inserted(old(Contents()), key, value)
    {
      FetchNode(leaf);
      var size := InsertInLeaf(leaf, key, value);
      if size == maxSize {
        SplitFullLeaf(leaf);
      }
      var _ := UnpinPage(leaf);
      assert pins == old(pins);
      ok := true;
    }

    /** A full leaf is split and its right half enters the parent. */
    method SplitLeaf(leaf: PageNo) returns (q: PageNo)
      requires CountersOk() && WellFormed(View()) && SizesOk(View(), maxSize, leaf) && LastLeafOk()
      requires leaf in extents && leaf in pins && leaf in pages && pages[leaf].isLeaf && |pages[leaf].keys| == maxSize
      modifies this`pages, this`pins, this`root, this`lastLeaf, this`numPages, this`nextPage, this`extents, this`leaves
      ensures CountersOk() && WellFormed(View()) && SizesOk(View(), maxSize, NO_PAGE)
      ensures pins == old(pins) + multiset{q} && Contents() == old(Contents()) && lastLeaf == old(lastLeaf)
      ensures leaves != [] && leaves[|leaves| - 1] == if leaf == lastLeaf then q else lastLeaf
    {
      ghost var t, cut := View(), (maxSize + 1) / 2;
      q := Split(leaf);
      LastAfterSplit(t, leaf, q);
      InsertIntoParent(leaf, Page(q).keys[0], q, t, cut);
    }

    /** If the leaf that was split was the last one, the new leaf is the last one now. */
    method SplitFullLeaf(leaf: PageNo)
      requires CountersOk() && WellFormed(View()) && SizesOk(View(), maxSize, leaf) && LastLeafOk()
      requires leaf in extents && leaf in pins && leaf in pages && pages[leaf].isLeaf && |pages[leaf].keys| == maxSize
      modifies this`pages, this`pins, this`root, this`lastLeaf, this`numPages, this`nextPage, this`extents, this`leaves
      ensures Valid() && pins == old(pins) && Contents() == old(Contents())
    {
      var isLastLeaf := leaf == lastLeaf;
      var newLeaf := SplitLeaf(leaf);
      if isLastLeaf {
        lastLeaf := newLeaf;
      }
      var _ := UnpinPage(newLeaf);
      assert pins == old(pins);
    }

    // ---------------------------------------------------------------- keys of the parents

    /**
     The key of page p in its parent follows the first key of p, and so on upwards while keys
     change.  Slot i >= 1 of the parent changes, so its own first key and all above it stay.
     */
    method MaintainParent(p: PageNo, ghost i: nat, ghost k: nat)
      requires p in pins && p in pages && pages[p].keys != []
      requires pages[p].parent != NO_PAGE && pages[p].parent in pins && pages[p].parent in pages && pages[p].parent != p
      requires i > 0 && OnlySlot(pages[pages[p].parent], p, i) && UpperSlot(pages, pages[p].parent, k)
      modifies this`pages, this`pins
      ensures pins == old(pins)
      ensures var g := old(pages)[p].parent;
              pages == old(pages)[g := old(pages)[g].(keys := old(pages)[g].keys[i := old(pages)[p].keys[0]])]
    {
      ghost var base, g := pages, pages[p].parent;
      ghost var target := base[g := base[g].(keys := base[g].keys[i := base[p].keys[0]])];
      var curr := p;
      var changed := true;
      assert base[p] == target[p];
      while changed && Page(curr).parent != NO_PAGE
        invariant pins == old(pins) && curr in pins && curr in pages
        invariant if curr == p && changed then pages == base else pages == target
        invariant curr == p || curr == g
        decreases changed, if curr == p then 1 else 0
      {
        var parent := Page(curr).parent;
        changed := MaintainSlot(curr, parent, if curr == p then i else k);
        if changed {
          curr := parent;
        } else if curr == p {
          assert base[g].keys[i := base[p].keys[0]] == base[g].keys;
        }
      }
    }

    /** The turn of the loop for page curr: its slot in its parent gets its first key, unless it has it. */
    method MaintainSlot(curr: PageNo, parent: PageNo, ghost slot: nat) returns (changed: bool)
      requires curr in pins && curr in pages && pages[curr].keys != [] && parent in pages && parent != curr
      requires OnlySlot(pages[parent], curr, slot)
      modifies this`pages, this`pins
      ensures pins == old(pins)
      ensures changed <==> old(pages)[parent].keys[slot] != old(pages)[curr].keys[0]
      ensures pages == if !changed then old(pages)
        else old(pages)[parent := old(pages)[parent].(keys := old(pages)[parent].keys[slot := old(pages)[curr].keys[0]])]
    {
      FetchNode(parent);
      assert Page(parent).rids[slot].pageNo == curr;
      var rank := FindChild(Page(parent).rids, curr);
      assert rank == slot;
      changed := Page(parent).keys[rank] != Page(curr).keys[0];
      if changed {
        Write(parent, Page(parent).(keys := Page(parent).keys[rank := Page(curr).keys[0]]));
      }
      var _ := UnpinPage(parent);
    }

    // ---------------------------------------------------------------- redistribution

    /** The right sibling r gives its first entry to the short page l. */
    method TakeFirst(l: PageNo, r: PageNo, ghost i: nat, ghost k: nat)
      requires ShiftReady(pages, l, r, i, k) && l in pins && r in pins && pages[l].parent in pins && |pages[r].keys| > 1
      requires |pages[l].keys| < maxSize
      requires !pages[l].isLeaf ==> var c := pages[r].rids[0].pageNo; c in pages && c != l && c != r && c != pages[l].parent
      modifies this`pages, this`pins
      ensures pins == old(pins)
      ensures var a, cut := old(pages), |old(pages)[l].keys| + 1;
              && |a[l].keys| == |a[l].rids| && cut < |a[l].keys + a[r].keys| && cut < |a[l].rids + a[r].rids|
              && (!a[r].isLeaf ==> (a[l].rids + a[r].rids)[cut - 1].pageNo in a)
              && pages == ShiftPages(a, l, r, i, cut)
    {
      ghost var a := pages;
      FirstCrosses(a[l].keys, a[r].keys);
      FirstCrosses(a[l].rids, a[r].rids);
      InsertPairs(l, |Page(l).keys|, [Page(r).keys[0]], [Page(r).rids[0]]);
      ErasePair(r, 0);
      MaintainParent(r, i + 1, k);
      MaintainChild(l, |Page(l).keys| - 1);
      assert pages == ShiftPages(a, l, r, i, |a[l].keys| + 1);
    }

    /** The left sibling l gives its last entry to the short page r. */
    method TakeLast(l: PageNo, r: PageNo, ghost i: nat, ghost k: nat)
      requires ShiftReady(pages, l, r, i, k) && l in pins && r in pins && pages[l].parent in pins && |pages[l].keys| > 1
      requires |pages[r].keys| < maxSize
      requires !pages[l].isLeaf ==> var c := pages[l].rids[|pages[l].rids| - 1].pageNo; c in pages && c != l && c != r && c != pages[l].parent
      modifies this`pages, this`pins
      ensures pins == old(pins)
      ensures var a, cut := old(pages), |old(pages)[l].keys| - 1;
              && |a[l].keys| == |a[l].rids| && cut < |a[l].keys + a[r].keys| && cut < |a[l].rids + a[r].rids|
              && (!a[r].isLeaf ==> (a[l].rids + a[r].rids)[cut].pageNo in a)
              && pages == ShiftPages(a, l, r, i, cut)
    {
      ghost var a := pages;
      LastCrosses(a[l].keys, a[r].keys);
      LastCrosses(a[l].rids, a[r].rids);
      var last := |Page(l).keys| - 1;
      InsertPairs(r, 0, [Page(l).keys[last]], [Page(l).rids[last]]);
      ErasePair(l, last);
      MaintainParent(r, i + 1, k);
      MaintainChild(r, 0);
      assert pages == ShiftPages(a, l, r, i, |a[l].keys| - 1);
    }

    /** Slot 0 has its neighbour on the right, all other slots use the one on the left. */
    static function Left(index: nat, node: PageNo, neighbor: PageNo): PageNo { if index == 0 then node else neighbor }
    static function Right(index: nat, node: PageNo, neighbor: PageNo): PageNo { if index == 0 then neighbor else node }
    static function LeftSlot(index: nat): nat { if index == 0 then 0 else index - 1 }

    /** Pages l and r are siblings, node is the one of them that is one entry short. */
    ghost predicate Short(l: PageNo, r: PageNo, i: nat, node: PageNo)
      reads this`pages, this`root, this`extents, this`leaves
    {
      && WellFormed(View()) && Siblings(View(), l, r, i) && SizesOk(View(), maxSize, node)
      && l in pages && r in pages && (node == l || node == r) && |pages[node].keys| + 1 == MinSize(maxSize)
    }

    /** One entry, key and rid, has moved over the boundary of the neighbours l and r of the old pages a. */
    ghost predicate Recut(a: map<PageNo, Node>, l: PageNo, r: PageNo, toLeft: bool)
      reads this`pages
    {
      && l in a && r in a && l in pages && r in pages
      && var cut := if toLeft then |a[l].keys| + 1 else |a[l].keys| - 1;
      && 0 <= cut <= |a[l].keys + a[r].keys| && cut <= |a[l].rids + a[r].rids|
      && pages[l].keys == (a[l].keys + a[r].keys)[..cut] && pages[r].keys == (a[l].keys + a[r].keys)[cut..]
      && pages[l].rids == (a[l].rids + a[r].rids)[..cut] && pages[r].rids == (a[l].rids + a[r].rids)[cut..]
    }

    /** Moves one entry from the neighbour to the short page; index 0 means that the neighbour is on the right. */
    method Redistribute(neighbor: PageNo, node: PageNo, g: PageNo, index: nat)
      requires CountersOk() && neighbor in pins && node in pins && g in pins && node in pages && pages[node].parent == g
      requires neighbor in pages && pages[neighbor].parent == g
      requires Short(Left(index, node, neighbor), Right(index, node, neighbor), LeftSlot(index), node)
      requires |pages[node].keys| + |pages[neighbor].keys| >= 2 * MinSize(maxSize)
      modifies this`pages, this`pins, this`extents
      ensures pins == old(pins) && CountersOk() && WellFormed(View()) && SizesOk(View(), maxSize, NO_PAGE)
      ensures Contents() == old(Contents()) && root in pages && pages[root].keys != []
      ensures Recut(old(pages), Left(index, node, neighbor), Right(index, node, neighbor), index == 0)
      ensures extents.Keys == old(extents.Keys)
    {
      if index == 0 {
        TakeFromRight(node, neighbor, 0);
      } else {
        TakeFromLeft(neighbor, node, index - 1);
      }
    }

    method TakeFromRight(node: PageNo, neighbor: PageNo, ghost i: nat)
      requires CountersOk() && neighbor in pins && node in pins && Short(node, neighbor, i, node) && pages[node].parent in pins
      requires |pages[node].keys| + |pages[neighbor].keys| >= 2 * MinSize(maxSize)
      modifies this`pages, this`pins, this`extents
      ensures pins == old(pins) && CountersOk() && WellFormed(View()) && SizesOk(View(), maxSize, NO_PAGE)
      ensures Contents() == old(Contents()) && root in pages && pages[root].keys != []
      ensures Recut(old(pages), node, neighbor, true) && extents.Keys == old(extents.Keys)
    {
      ghost var k, u := PlanShift(View(), node, neighbor, i, node, maxSize);
      TakeFirst(node, neighbor, i, k);
      extents := u.extents;
      assert View() == u;
    }

    method TakeFromLeft(neighbor: PageNo, node: PageNo, ghost i: nat)
      requires CountersOk() && neighbor in pins && node in pins && Short(neighbor, node, i, node) && pages[neighbor].parent in pins
      requires |pages[node].keys| + |pages[neighbor].keys| >= 2 * MinSize(maxSize)
      modifies this`pages, this`pins, this`extents
      ensures pins == old(pins) && CountersOk() && WellFormed(View()) && SizesOk(View(), maxSize, NO_PAGE)
      ensures Contents() == old(Contents()) && root in pages && pages[root].keys != []
      ensures Recut(old(pages), neighbor, node, false) && extents.Keys == old(extents.Keys)
    {
      ghost var k, u := PlanShift(View(), neighbor, node, i, node, maxSize);
      TakeLast(neighbor, node, i, k);
      extents := u.extents;
      assert View() == u;
    }

    // ---------------------------------------------------------------- merging

    /** Takes a leaf out of the chain. */
    method EraseLeaf(leaf: PageNo)
      requires leaf in pins && leaf in pages && pages[leaf].prev in pages && pages[leaf].next in pages
      requires pages[leaf].prev != leaf && pages[leaf].next != leaf
      modifies this`pages, this`pins
      ensures pins == old(pins)
      ensures var a, x, y := old(pages), old(pages)[leaf].prev, old(pages)[leaf].next;
              var b := a[x := a[x].(next := y)];
              pages == b[y := b[y].(prev := x)]
    {
      var prev := Page(leaf).prev;
      FetchNode(prev);
      Write(prev, Page(prev).(next := Page(leaf).next));
      var _ := UnpinPage(prev);
      var next := Page(leaf).next;
      FetchNode(next);
      Write(next, Page(next).(prev := Page(leaf).prev));
      var _ := UnpinPage(next);
      assert pins == old(pins);
    }

    /** What Coalesce does to the pages: l takes everything over from r, which leaves chain and parent. */
    method MoveAll(l: PageNo, r: PageNo, g: PageNo, ghost i: nat)
      requires l in pins && r in pins && g in pins && Mergeable(pages, l, r) && g == pages[l].parent && l != r && g != l && g != r
      requires |pages[l].keys| == |pages[l].rids| && |pages[r].keys| == |pages[r].rids| && pages[l].isLeaf == pages[r].isLeaf
      requires |pages[l].keys| + |pages[r].keys| <= maxSize
      requires OnlySlot(pages[g], r, i) && IndexOf(pages[g].rids, Child(r)) == i
      requires pages[r].isLeaf ==> pages[r].prev == l && pages[r].next != l && pages[r].next != r && pages[r].next != g
      requires !pages[r].isLeaf ==> forall j: nat :: j < |pages[r].rids| ==>
                 var c := pages[r].rids[j].pageNo; pages[r].rids[j] == Child(c) && c in pages && c != l && c != r && c != g
      modifies this`pages, this`pins, this`lastLeaf
      ensures pins == old(pins) && pages == MergePages(old(pages), l, r)
      ensures lastLeaf == if old(pages)[r].isLeaf && old(lastLeaf) == r then l else old(lastLeaf)
    {
      ghost var a := pages;
      var rightSize := |Page(r).keys|;
      SpliceEnd(a[l].keys, a[r].keys);
      SpliceEnd(a[l].rids, a[r].rids);
      InsertPairs(l, |Page(l).keys|, Page(r).keys, Page(r).rids);
      if !Page(r).isLeaf {
        assert pages[l].rids[|a[l].rids|..] == a[r].rids;
        MaintainChildren(l, |Page(l).keys| - rightSize);
      } else {
        if r == lastLeaf {
          lastLeaf := l;
        }
        EraseLeaf(r);
      }
      assert pages == JoinPages(a, l, r) && pages[g] == a[g];
      var j := FindChild(Page(g).rids, r);
      ErasePair(g, j);
    }

    /** Merges the short page and its neighbour into the left one of them and drops the right one. */
    method Coalesce(neighbor: PageNo, node: PageNo, g: PageNo, index: nat, ghost w: Watch) returns (deleted: bool)
      requires CountersOk() && LastLeafOk() && node in pages && pages[node].parent == g && neighbor in pages && pages[neighbor].parent == g
      requires Short(Left(index, node, neighbor), Right(index, node, neighbor), LeftSlot(index), node)
      requires |pages[node].keys| + |pages[neighbor].keys| < 2 * MinSize(maxSize)
      requires pins == w.held + multiset{g} + multiset{Left(index, node, neighbor)} + multiset{Right(index, node, neighbor)}
      requires Accounted(w) && w.root == root
      modifies this
      ensures Settled(old(Contents()), old(root), deleted) && pins == w.held && Accounted(w)
      decreases extents[root].height - extents[node].height, 0
    {
      MergeAndDrop(Left(index, node, neighbor), Right(index, node, neighbor), g, LeftSlot(index), node, w);
      deleted := CoalesceOrRedistribute(g, w);
    }

    /** The merge, after which the right page is dropped and only the parent is still pinned. */
    method MergeAndDrop(l: PageNo, r: PageNo, g: PageNo, ghost i: nat, ghost node: PageNo, ghost w: Watch)
      requires CountersOk() && LastLeafOk() && Short(l, r, i, node) && pages[l].parent == g
      requires |pages[l].keys| + |pages[r].keys| < 2 * MinSize(maxSize)
      requires pins == w.held + multiset{g} + multiset{l} + multiset{r} && Accounted(w) && w.root == root
      modifies this`pages, this`pins, this`lastLeaf, this`numPages, this`extents, this`leaves, this`dropped, this`refused
      ensures CountersOk() && LastLeafOk() && WellFormed(View()) && SizesOk(View(), maxSize, g)
      ensures g in extents && g in pages && |pages[g].keys| < maxSize
      ensures g != root ==> |pages[g].keys| + 1 >= MinSize(maxSize)
      ensures Contents() == old(Contents()) && pins == w.held + multiset{g} && Accounted(w)
      ensures root in extents && extents[g].height <= extents[root].height
      ensures old(node in extents) && extents[root].height - extents[g].height < old(extents[root].height - extents[node].height)
    {
      MergeSiblings(l, r, g, i, node);
      GiveBack(l, r, g, w);
    }

    /** The right page, which has left the tree, is given back and dropped, the left one given back. */
    method GiveBack(l: PageNo, r: PageNo, g: PageNo, ghost w: Watch)
      requires r !in extents && r != l && r != g && r != w.root
      requires pins == w.held + multiset{g} + multiset{l} + multiset{r} && Drops(w, extents.Keys + {r}, dropped, refused)
      modifies this`pins, this`dropped, this`refused
      ensures Accounted(w) && pins == w.held + multiset{g}
    {
      DropsOneMore(w, extents.Keys + {r}, dropped, refused, r);
      assert extents.Keys + {r} - {r} == extents.Keys;
      var _ := UnpinPage(r);
      var _ := DeletePage(r);
      var _ := UnpinPage(l);
    }

    /** The merge itself: the left page takes everything, the right one leaves the tree. */
    method MergeSiblings(l: PageNo, r: PageNo, g: PageNo, ghost i: nat, ghost node: PageNo)
      requires CountersOk() && LastLeafOk() && l in pins && r in pins && g in pins && Short(l, r, i, node) && pages[l].parent == g
      requires |pages[l].keys| + |pages[r].keys| < 2 * MinSize(maxSize)
      modifies this`pages, this`pins, this`lastLeaf, this`numPages, this`extents, this`leaves
      ensures CountersOk() && LastLeafOk() && WellFormed(View()) && SizesOk(View(), maxSize, g)
      ensures r !in extents && old(extents.Keys) == extents.Keys + {r}
      ensures g in extents && g in pages && |pages[g].keys| < maxSize && l != r && g != l && g != r
      ensures g != root ==> |pages[g].keys| + 1 >= MinSize(maxSize)
      ensures Contents() == old(Contents()) && pins == old(pins)
      ensures root in extents && extents[g].height <= extents[root].height
      ensures old(node in extents) && extents[root].height - extents[g].height < old(extents[root].height - extents[node].height)
    {
      PlanMerge(View(), l, r, i, node, maxSize);
      MergeView(l, r, g, i, node);
    }

    method MergeView(l: PageNo, r: PageNo, g: PageNo, ghost i: nat, ghost node: PageNo)
      requires l in pins && r in pins && g in pins && Short(l, r, i, node) && pages[l].parent == g && maxSize >= 4
      requires |pages[l].keys| + |pages[r].keys| < 2 * MinSize(maxSize)
      requires Mergeable(pages, l, r) && (pages[r].isLeaf ==> r in leaves)
      modifies this`pages, this`pins, this`lastLeaf, this`numPages, this`extents, this`leaves
      ensures View() == Merge(old(View()), l, r) && pins == old(pins) && numPages == old(numPages) - 1
      ensures lastLeaf == if old(pages)[r].isLeaf && old(lastLeaf) == r then l else old(lastLeaf)
      ensures l != r && g != l && g != r
    {
      ghost var t := View();
      ReadyToMerge(t, l, r, i);
      MoveAll(l, r, g, i + 1);
      ReleaseNodeHandle();
      ghost var u := Merge(t, l, r);
      extents, leaves := u.extents, u.leaves;
    }

    // ---------------------------------------------------------------- deletion

    /**
     The index after restructuring a tree with the entries es below oldRoot: well-formed with the
     same entries, or, if there are none left, without a root.
     */
    ghost predicate Settled(es: seq<Entry>, oldRoot: PageNo, deleted: bool)
      reads this`pages, this`root, this`extents, this`leaves, this`nextPage, this`numPages, this`lastLeaf
    {
      && (deleted <==> root != oldRoot)
      && if root == NO_PAGE then es == [] && numPages == 2
         else Valid() && Contents() == es && root in pages && pages[root].keys != []
    }

    /** A root with a single child hands over to it; an empty root leaf leaves the index without root. */
    method AdjustRoot(p: PageNo) returns (deleted: bool)
      requires CountersOk() && LastLeafOk() && WellFormed(View()) && SizesOk(View(), maxSize, p) && p == root && p in pins
      requires |pages[p].keys| < MinSize(maxSize)
      modifies this`pages, this`pins, this`root, this`lastLeaf, this`numPages, this`extents, this`leaves
      ensures Settled(old(Contents()), old(root), deleted) && pins == old(pins)
      ensures (extents.Keys == old(extents.Keys) || extents.Keys == old(extents.Keys) - {p})
    {
      ghost var t := View();
      assert NodeOk(t, p);
      if !Page(p).isLeaf && |Page(p).keys| == 1 {
        LowerFacts(t, maxSize);
        LowerTheRoot(p);
        return true;
      }
      if Page(p).isLeaf && |Page(p).keys| == 0 {
        EmptyRoot(t);
        root := NO_PAGE;
        ReleaseNodeHandle();
        assert |t.extents.Keys| == 1;
        return true;
      }
      assert SizeOk(t, maxSize, p);
      return false;
    }

    /** RemoveAndReturnOnlyChild, and the child becomes the root. */
    method HandOver(p: PageNo)
      requires p in pins && p in pages && |pages[p].rids| == |pages[p].keys| == 1
      requires pages[p].rids[0].pageNo in pages && pages[p].rids[0].pageNo != p
      modifies this`pages, this`pins, this`root, this`numPages
      ensures pages == LowerPages(old(pages), p) && root == old(pages)[p].rids[0].pageNo
      ensures pins == old(pins) && numPages == old(numPages) - 1
    {
      var n := Page(p);
      var c := n.rids[0].pageNo;
      ErasePair(p, 0);
      assert Cut(n.keys, 0) == [] && Cut(n.rids, 0) == [];
      FetchNode(c);
      Write(c, Page(c).(parent := NO_PAGE));
      var _ := UnpinPage(c);
      root := c;
      ReleaseNodeHandle();
      assert pins == old(pins);
    }

    method LowerTheRoot(p: PageNo)
      requires CountersOk() && LastLeafOk() && WellFormed(View()) && p == root && p in pins
      requires |pages[p].rids| == |pages[p].keys| == 1
      requires var c := pages[p].rids[0].pageNo; c in extents && c in pages && c != p && pages[c].keys != []
      requires WellFormed(LowerRoot(View())) && SizesOk(LowerRoot(View()), maxSize, NO_PAGE)
      modifies this`pages, this`pins, this`root, this`lastLeaf, this`numPages, this`extents, this`leaves
      ensures View() == LowerRoot(old(View())) && root != old(root) && Valid() && pins == old(pins)
      ensures extents.Keys == old(extents.Keys) - {p}
      ensures root in pages && pages[root].keys != []
    {
      ghost var t := View();
      HandOver(p);
      extents := extents - {p};
      assert extents.Keys == t.extents.Keys - {p};
      assert View() == LowerRoot(t);
    }

    /** Restores the sizes after page p lost an entry: p borrows from a sibling, merges with it, or is the root. */
    method CoalesceOrRedistribute(p: PageNo, ghost w: Watch) returns (deleted: bool)
      requires CountersOk() && LastLeafOk() && WellFormed(View()) && SizesOk(View(), maxSize, p)
      requires p in extents && p in pages && |pages[p].keys| < maxSize
      requires pins == w.held + multiset{p} && Accounted(w) && w.root == root
      requires p != root ==> |pages[p].keys| + 1 >= MinSize(maxSize)
      requires root in extents && extents[p].height <= extents[root].height
      modifies this
      ensures Settled(old(Contents()), old(root), deleted) && pins == w.held && Accounted(w)
      decreases extents[root].height - extents[p].height, 3
    {
      if |Page(p).keys| >= MinSize(maxSize) {
        assert SizeOk(View(), maxSize, p);
        RootHasKeys(View(), maxSize, p);
        var _ := UnpinPage(p);
        return false;
      }
      RootOrNot(View(), p);
      if Page(p).parent == NO_PAGE {
        deleted := AtRoot(p, w);
      } else {
        deleted := WithSibling(p, w);
      }
    }

    method AtRoot(p: PageNo, ghost w: Watch) returns (deleted: bool)
      requires CountersOk() && LastLeafOk() && WellFormed(View()) && SizesOk(View(), maxSize, p) && p == root && p in pages
      requires pins == w.held + multiset{p} && Accounted(w) && w.root == root && |pages[p].keys| < MinSize(maxSize)
      modifies this
      ensures Settled(old(Contents()), old(root), deleted) && pins == w.held && Accounted(w)
    {
      deleted := AdjustRoot(p);
      StillAccounted(w, old(extents.Keys), extents.Keys, dropped, refused);
      var _ := UnpinPage(p);
    }

    /** Finds a sibling, to the left if there is one. */
    method WithSibling(p: PageNo, ghost w: Watch) returns (deleted: bool)
      requires CountersOk() && LastLeafOk() && WellFormed(View()) && SizesOk(View(), maxSize, p)
      requires p in extents && p in pages && p != root && |pages[p].keys| + 1 == MinSize(maxSize)
      requires pins == w.held + multiset{p} && Accounted(w) && w.root == root && pages[p].parent != NO_PAGE
      modifies this
      ensures Settled(old(Contents()), old(root), deleted) && pins == w.held && Accounted(w)
      decreases extents[root].height - extents[p].height, 2
    {
      ghost var slot := SiblingOf(View(), p, maxSize);
      var g := Page(p).parent;
      FetchNode(g);
      var index := FindChild(Page(g).rids, p);
      var neighbor := Page(g).rids[if index > 0 then index - 1 else index + 1].pageNo;
      deleted := Rebalance(p, neighbor, g, index, w);
    }

    /** The second half of CoalesceOrRedistribute: enough entries for two pages, or only for one? */
    method Rebalance(p: PageNo, neighbor: PageNo, g: PageNo, index: nat, ghost w: Watch) returns (deleted: bool)
      requires CountersOk() && LastLeafOk() && p in pages && pages[p].parent == g
      requires pins == w.held + multiset{p} + multiset{g} && Accounted(w) && w.root == root
      requires Short(Left(index, p, neighbor), Right(index, p, neighbor), LeftSlot(index), p)
      requires neighbor in pages && pages[neighbor].parent == g
      modifies this
      ensures Settled(old(Contents()), old(root), deleted) && pins == w.held && Accounted(w)
      decreases extents[root].height - extents[p].height, 1
    {
      FetchNode(neighbor);
      ThreePins(w.held, g, index, p, neighbor);
      if |Page(p).keys| + |Page(neighbor).keys| >= 2 * MinSize(maxSize) {
        Borrow(neighbor, p, g, index, w.held);
        deleted := false;
      } else {
        deleted := Coalesce(neighbor, p, g, index, w);
      }
    }

    /** Redistribution, after which all three pages are given back. */
    method Borrow(neighbor: PageNo, node: PageNo, g: PageNo, index: nat, ghost held: multiset<PageNo>)
      requires CountersOk() && LastLeafOk() && node in pages && pages[node].parent == g
      requires pins == held + multiset{node} + multiset{neighbor} + multiset{g}
      requires neighbor in pages && pages[neighbor].parent == g
      requires Short(Left(index, node, neighbor), Right(index, node, neighbor), LeftSlot(index), node)
      requires |pages[node].keys| + |pages[neighbor].keys| >= 2 * MinSize(maxSize)
      modifies this`pages, this`pins, this`extents
      ensures Settled(old(Contents()), old(root), false) && extents.Keys == old(extents.Keys)
      ensures pins == held
    {
      Redistribute(neighbor, node, g, index);
      UnpinThree(node, neighbor, g, held);
    }

    /** Removes the entry of the key, merging pages up to the root where they become too small. */
    method DeleteEntry(leaf: PageNo, key: Key) returns (found: bool)
      requires Valid() && CoveringLeaf(leaf, key)
      modifies this
      ensures pins == old(pins) && (found <==> HasKey(old(Contents()), key))
      ensures root == NO_PAGE <==> Removed(old(Contents()), key) == [] != old(Contents())
      ensures root == NO_PAGE ==> numPages == 2
      ensures root != NO_PAGE ==> Valid() && Contents() == Removed(old(Contents()), key)
      ensures Drops(Watch(pins, old(extents.Keys), old(root), old(dropped), old(refused)), extents.Keys, dropped, refused)
    {
      ghost var w := Watch(pins, extents.Keys, root, dropped, refused);
      FetchNode(leaf);
      found := RemoveFromLeaf(leaf, key);
      if !found {
        var _ := UnpinPage(leaf);
        assert pins == old(pins);
        return;
      }
      var _ := CoalesceOrRedistribute(leaf, w);
      if root != NO_PAGE {
        NotEmpty(View(), maxSize);
      }
    }

    /** Remove on the covering leaf. */
    method RemoveFromLeaf(leaf: PageNo, key: Key) returns (found: bool)
      requires Valid() && CoveringLeaf(leaf, key) && leaf in pins
      modifies this`pages
      ensures CountersOk() && WellFormed(View()) && SizesOk(View(), maxSize, leaf) && LastLeafOk()
      ensures leaf in pages && |pages[leaf].keys| < maxSize && extents[leaf].height <= extents[root].height
      ensures leaf != root ==> |pages[leaf].keys| + 1 >= MinSize(maxSize)
      ensures found <==> HasKey(old(Contents()), key)
      ensures Contents() == Removed(old(Contents()), key)
      ensures !found ==> View() == old(View())
    {
      ghost var t := View();
      assert NodeOk(t, leaf) && SizeOk(t, maxSize, leaf) && ParentOk(t, leaf);
      var n := Page(leaf);
      var pos := LowerBound(n.keys, key);
      if pos < |n.keys| && n.keys[pos] == key {
        LeafRemove(t, leaf, pos, key, maxSize);
        KeyPresent(t, leaf, pos);
        ErasePair(leaf, pos);
        return true;
      }
      KeyAbsent(t, leaf, key);
      return false;
    }
  }
}
