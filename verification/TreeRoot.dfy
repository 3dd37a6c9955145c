/**
 Edits of a tree at its two ends: a leaf gets other entries, the tree grows a level above the
 root, the tree loses its root.  All three keep the tree well-formed.
 */
module TreeRoot {
  import opened TreeShape
  import opened TreeSplit

  // ---------------------------------------------------------------- entries of one leaf

  function EditLeaf(t: Tree, p: PageNo, ks: seq<Key>, rs: seq<Rid>): Tree
    requires p in t.pages
  {
    t.(pages := t.pages[p := t.pages[p].(keys := ks, rids := rs)])
  }

  lemma EditLeafWellFormed(t: Tree, p: PageNo, ks: seq<Key>, rs: seq<Rid>)
    requires WellFormed(t) && p in t.extents && t.pages[p].isLeaf && |ks| == |rs|
    requires LeafOk(t.pages[p].(keys := ks, rids := rs), t.extents[p])
    ensures WellFormed(EditLeaf(t, p, ks, rs))
  {
    var u := EditLeaf(t, p, ks, rs);
    forall x {:trigger NodeOk(u, x)} | x in u.extents ensures NodeOk(u, x) {
      assert NodeOk(t, x);
      if !t.pages[x].isLeaf {
        forall i: nat | i < |u.pages[x].rids| ensures SlotOk(u, x, i) {
          assert SlotOk(t, x, i);
        }
      }
    }
    forall x {:trigger ParentOk(u, x)} | x in u.extents ensures ParentOk(u, x) {
      assert ParentOk(t, x);
    }
    SameChain(t, u);
  }

  /** The chain depends on the kinds, the links and the intervals of the pages only. */
  lemma SameChain(t: Tree, u: Tree)
    requires ChainOk(t) && u.leaves == t.leaves
    requires forall x :: x in t.pages ==>
               x in u.pages && u.pages[x].isLeaf == t.pages[x].isLeaf
               && u.pages[x].next == t.pages[x].next && u.pages[x].prev == t.pages[x].prev
    requires forall x :: x in t.pages && t.pages[x].isLeaf && x in t.extents ==>
               x in u.extents && u.extents[x].lo == t.extents[x].lo && u.extents[x].hi == t.extents[x].hi
    requires forall x :: x in u.extents && x in u.pages && u.pages[x].isLeaf ==> x in t.pages && x in t.extents
    ensures ChainOk(u)
  {
    var s := t.leaves;
    forall x ensures Listed(u, x) {
      assert Listed(t, x);
    }
    assert Listed(t, s[0]) && Listed(t, s[|s| - 1]);
    forall i | 0 <= i < |s| - 1 ensures StepOk(u, s, i) {
      assert StepOk(t, s, i) && Listed(t, s[i]) && Listed(t, s[i + 1]);
    }
    forall i | -1 <= i < |s| ensures LinkOk(u.pages, s, i) {
      assert LinkOk(t.pages, s, i);
    }
  }

  // ---------------------------------------------------------------- a new root

  function RaisePages(pages: map<PageNo, Node>, p: PageNo, r: PageNo): map<PageNo, Node>
    requires p in pages && pages[p].keys != []
  {
    pages[r := BLANK.(parent := NO_PAGE, keys := [pages[p].keys[0]], rids := [Child(p)])]
         [p := pages[p].(parent := r)]
  }

  /** Page r becomes the root, with the old root as its only child. */
  function RaiseRoot(t: Tree, r: PageNo): Tree
    requires t.root in t.pages && t.pages[t.root].keys != [] && t.root in t.extents
  {
    Tree(RaisePages(t.pages, t.root, r), r,
         t.extents[r := Extent(Below, Above, t.extents[t.root].height + 1)], t.leaves)
  }

  lemma RaiseRootWellFormed(t: Tree, r: PageNo)
    requires WellFormed(t) && r !in t.pages && r >= INIT_ROOT_PAGE && t.pages[t.root].keys != []
    ensures WellFormed(RaiseRoot(t, r))
  {
    var u, p := RaiseRoot(t, r), t.root;
    assert NodeOk(t, p) && ParentOk(t, p);
    forall x {:trigger NodeOk(u, x)} | x in u.extents ensures x in u.pages && NodeOk(u, x) {
      if x == r {
        assert SlotOk(u, r, 0);
      } else {
        assert NodeOk(t, x);
        if !t.pages[x].isLeaf {
          forall i: nat | i < |u.pages[x].rids| ensures SlotOk(u, x, i) {
            ChildFacts(t, x, i);
          }
        }
      }
    }
    forall x {:trigger ParentOk(u, x)} | x in u.extents ensures x in u.pages && ParentOk(u, x) {
      if x == p {
        assert u.pages[r].rids[0] == Child(p);
      } else if x != r {
        assert ParentOk(t, x);
      }
    }
    SameChain(t, u);
  }

  // ---------------------------------------------------------------- a root with a single child

  function LowerPages(pages: map<PageNo, Node>, p: PageNo): map<PageNo, Node>
    requires p in pages && |pages[p].rids| == 1 && pages[p].rids[0].pageNo in pages
  {
    var c := pages[p].rids[0].pageNo;
    pages[p := pages[p].(keys := [], rids := [])][c := pages[c].(parent := NO_PAGE)]
  }

  /** The only child of the root becomes the root. */
  function LowerRoot(t: Tree): Tree
    requires t.root in t.pages && |t.pages[t.root].rids| == 1 && t.pages[t.root].rids[0].pageNo in t.pages
  {
    Tree(LowerPages(t.pages, t.root), t.pages[t.root].rids[0].pageNo, t.extents - {t.root}, t.leaves)
  }

  lemma LowerRootWellFormed(t: Tree)
    requires WellFormed(t) && !t.pages[t.root].isLeaf && |t.pages[t.root].rids| == 1
    ensures t.pages[t.root].rids[0].pageNo in t.extents && WellFormed(LowerRoot(t))
  {
    var p := t.root;
    ChildFacts(t, p, 0);
    var u, c := LowerRoot(t), t.pages[p].rids[0].pageNo;
    assert NodeOk(t, p) && ParentOk(t, p) && ParentOk(t, c);
    forall x {:trigger NodeOk(u, x)} | x in u.extents ensures NodeOk(u, x) {
      assert NodeOk(t, x);
      if !t.pages[x].isLeaf {
        forall i: nat | i < |u.pages[x].rids| ensures SlotOk(u, x, i) {
          ChildFacts(t, x, i);
        }
      }
    }
    forall x {:trigger ParentOk(u, x)} | x in u.extents ensures ParentOk(u, x) {
      assert ParentOk(t, x);
      if x != c && t.pages[x].parent == p {
        var i := SlotOf(t, p, x);
        assert false;
      } else if x != c {
        ParentFacts(t, x);
        assert ParentOk(t, t.pages[x].parent);
      }
    }
    assert Listed(t, p);
    SameChain(t, u);
  }
}
