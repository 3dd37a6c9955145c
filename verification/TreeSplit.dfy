/**
 Splitting a page of the tree in two and entering the new page into the parent, as functions
 on trees, with what they write into every page.
 */
module TreeSplit {
  import opened TreeShape

  /** Where x sits in s. */
  ghost function IndexOf<T>(s: seq<T>, x: T): (i: nat)
    requires x in s
    ensures i < |s| && s[i] == x
  {
    var i: nat :| i < |s| && s[i] == x;
    i
  }

  function Splice<T>(s: seq<T>, pos: nat, xs: seq<T>): seq<T>
    requires pos <= |s|
  {
    s[..pos] + xs + s[pos..]
  }

  function Cut<T>(s: seq<T>, pos: nat): seq<T>
    requires pos < |s|
  {
    s[..pos] + s[pos + 1..]
  }

  /** Every page that kids points to gets g as its parent. */
  function Adopt(pages: map<PageNo, Node>, kids: seq<Rid>, g: PageNo): map<PageNo, Node> {
    map c | c in pages :: if Child(c) in kids then pages[c].(parent := g) else pages[c]
  }

  predicate Splittable(pages: map<PageNo, Node>, p: PageNo, cut: nat) {
    && p in pages && |pages[p].keys| == |pages[p].rids| && 0 < cut < |pages[p].keys|
    && (pages[p].isLeaf ==> pages[p].next in pages)
  }

  function SplitPages(pages: map<PageNo, Node>, p: PageNo, q: PageNo, cut: nat, blank: Node): map<PageNo, Node>
    requires Splittable(pages, p, cut)
  {
    var n := pages[p];
    var left := n.(keys := n.keys[..cut], rids := n.rids[..cut]);
    var right := blank.(isLeaf := n.isLeaf, parent := n.parent, keys := n.keys[cut..], rids := n.rids[cut..]);
    if n.isLeaf then
      pages[n.next := pages[n.next].(prev := q)][p := left.(next := q)][q := right.(prev := p, next := n.next)]
    else
      Adopt(pages[p := left][q := right], right.rids, q)
  }

  ghost function SplitLeaves(t: Tree, p: PageNo, q: PageNo): seq<PageNo>
    requires p in t.pages && (t.pages[p].isLeaf ==> p in t.leaves)
  {
    if t.pages[p].isLeaf then Splice(t.leaves, IndexOf(t.leaves, p) + 1, [q]) else t.leaves
  }

  /** Page p keeps its first cut entries, page q becomes its right neighbour with the rest. */
  ghost function SplitAt(t: Tree, p: PageNo, q: PageNo, cut: nat, blank: Node): Tree
    requires Splittable(t.pages, p, cut) && p in t.extents && (t.pages[p].isLeaf ==> p in t.leaves)
  {
    var k, e := At(t.pages[p].keys[cut]), t.extents[p];
    Tree(SplitPages(t.pages, p, q, cut, blank),
         t.root,
         t.extents[p := e.(hi := k)][q := e.(lo := k)],
         SplitLeaves(t, p, q))
  }

  predicate Linkable(pages: map<PageNo, Node>, p: PageNo, q: PageNo) {
    && p in pages && q in pages && pages[p].parent in pages && pages[q].keys != []
    && var n := pages[pages[p].parent];
    && |n.keys| == |n.rids| && Child(p) in n.rids
  }

  ghost function LinkPages(pages: map<PageNo, Node>, p: PageNo, q: PageNo): map<PageNo, Node>
    requires Linkable(pages, p, q)
  {
    var g := pages[p].parent;
    var n := pages[g];
    var i := IndexOf(n.rids, Child(p));
    pages[g := n.(keys := Splice(n.keys, i + 1, [pages[q].keys[0]]), rids := Splice(n.rids, i + 1, [Child(q)]))]
         [q := pages[q].(parent := g)]
  }

  /** Page q enters the parent of page p, right behind p. */
  ghost function Link(t: Tree, p: PageNo, q: PageNo): Tree
    requires Linkable(t.pages, p, q)
  {
    t.(pages := LinkPages(t.pages, p, q))
  }

  // ---------------------------------------------------------------- facts read off a well-formed tree

  lemma ChildFacts(t: Tree, p: PageNo, i: nat)
    requires NodesOk(t) && p in t.extents && !t.pages[p].isLeaf && i < |t.pages[p].rids|
    ensures |t.pages[p].keys| == |t.pages[p].rids|
    ensures SlotOk(t, p, i) && t.pages[p].rids[i].pageNo != p && t.pages[p].rids[i].pageNo != t.pages[p].parent
    ensures t.pages[p].rids[i].pageNo != t.root
  {
    assert NodeOk(t, p) && SlotOk(t, p, i);
    var c := t.pages[p].rids[i].pageNo;
    assert ParentOk(t, p) && ParentOk(t, c);
    if c == t.pages[p].parent {
      ParentFacts(t, p);
    }
  }

  lemma Once<T>(s: seq<T>, i: nat, j: nat)
    requires NoRepeats(s) && i < |s| && j < |s|
    ensures s[i] == s[j] ==> i == j
  {
    if i < j {
      assert Differ(s, i, j);
    } else if j < i {
      assert Differ(s, j, i);
    }
  }

  /** A page other than the root sits in a slot of its parent. */
  lemma ParentFacts(t: Tree, p: PageNo)
    requires NodesOk(t) && p in t.extents && p != t.root
    ensures var g := t.pages[p].parent;
            && g in t.extents && g in t.pages && g != p && !t.pages[g].isLeaf && Child(p) in t.pages[g].rids
            && |t.pages[g].keys| == |t.pages[g].rids|
            && SlotOk(t, g, IndexOf(t.pages[g].rids, Child(p)))
            && t.extents[g].height == t.extents[p].height + 1
  {
    var g := t.pages[p].parent;
    assert ParentOk(t, p) && NodeOk(t, g);
    assert SlotOk(t, g, IndexOf(t.pages[g].rids, Child(p)));
  }

  /** The slot of page c in page p, when c names p as its parent. */
  lemma SlotOf(t: Tree, p: PageNo, c: PageNo) returns (i: nat)
    requires NodesOk(t) && p in t.extents && c in t.extents && c != t.root && t.pages[c].parent == p
    ensures i < |t.pages[p].rids| && t.pages[p].rids[i] == Child(c)
  {
    ParentFacts(t, c);
    i := IndexOf(t.pages[p].rids, Child(c));
  }

  /** A leaf page, its position in the chain and its two neighbours. */
  lemma LeafFacts(t: Tree, p: PageNo)
    requires ChainOk(t) && p in t.extents && p in t.pages && t.pages[p].isLeaf
    requires LEAF_HEADER_PAGE !in t.extents
    ensures p in t.leaves && t.pages[p].next in t.pages && t.pages[p].next != p
    ensures t.pages[p].next == Ring(t.leaves, IndexOf(t.leaves, p) + 1)
    ensures t.pages[p].prev == Ring(t.leaves, IndexOf(t.leaves, p) - 1)
    ensures t.pages[p].prev in t.pages && t.pages[p].prev != p
    ensures t.pages[p].next in t.extents ==> t.pages[t.pages[p].next].isLeaf
    ensures t.pages[p].prev in t.extents ==> t.pages[t.pages[p].prev].isLeaf
    ensures t.pages[p].next == LEAF_HEADER_PAGE || t.pages[p].next in t.extents
  {
    assert Listed(t, p);
    var j: int := IndexOf(t.leaves, p);
    assert LinkOk(t.pages, t.leaves, j) && LinkOk(t.pages, t.leaves, j - 1);
    assert Listed(t, t.pages[p].next) && Listed(t, t.pages[p].prev);
    if j + 1 < |t.leaves| { assert Differ(t.leaves, j, j + 1); }
    if j > 0 { assert Differ(t.leaves, j - 1, j); }
  }

  // ---------------------------------------------------------------- what the split writes

  ghost predicate SplitReady(t: Tree, p: PageNo, q: PageNo, cut: nat) {
    && NodesOk(t) && p in t.extents && q !in t.extents && q >= INIT_ROOT_PAGE
    && 0 < cut < |t.pages[p].keys|
  }

  lemma SplitDefined(t: Tree, p: PageNo, q: PageNo, cut: nat)
    requires SplitReady(t, p, q, cut) && ChainOk(t)
    ensures Splittable(t.pages, p, cut) && (t.pages[p].isLeaf ==> p in t.leaves)
  {
    assert NodeOk(t, p);
    if t.pages[p].isLeaf {
      LeafFacts(t, p);
    }
  }

  /** Page c after the children from position cut of page p moved to page q. */
  function Moved(a: map<PageNo, Node>, p: PageNo, q: PageNo, cut: nat, c: PageNo): Node
    requires p in a && c in a && cut <= |a[p].rids|
  {
    if a[p].isLeaf then
      if c == a[p].next then a[c].(prev := q) else a[c]
    else
      if Child(c) in a[p].rids[cut..] then a[c].(parent := q) else a[c]
  }

  ghost predicate SplitView(a: map<PageNo, Node>, p: PageNo, q: PageNo, cut: nat, b: map<PageNo, Node>)
    requires p in a && cut < |a[p].keys| == |a[p].rids|
  {
    && b.Keys == a.Keys + {q}
    && b[p] == a[p].(keys := a[p].keys[..cut], rids := a[p].rids[..cut], next := if a[p].isLeaf then q else a[p].next)
    && b[q].isLeaf == a[p].isLeaf && b[q].parent == a[p].parent
    && b[q].keys == a[p].keys[cut..] && b[q].rids == a[p].rids[cut..]
    && (a[p].isLeaf ==> b[q].prev == p && b[q].next == a[p].next)
    && (forall c :: c in a && c != p && c != q ==> b[c] == Moved(a, p, q, cut, c))
  }

  lemma SplitPagesView(t: Tree, p: PageNo, q: PageNo, cut: nat, blank: Node)
    requires SplitReady(t, p, q, cut) && ChainOk(t) && Splittable(t.pages, p, cut)
    ensures SplitView(t.pages, p, q, cut, SplitPages(t.pages, p, q, cut, blank))
  {
    var n := t.pages[p];
    if n.isLeaf {
      LeafFacts(t, p);
    } else {
      forall i | cut <= i < |n.rids| ensures n.rids[i] != Child(p) && n.rids[i] != Child(q) {
        ChildFacts(t, p, i);
      }
      assert forall r :: r in n.rids[cut..] ==> r != Child(p) && r != Child(q);
    }
  }

  ghost function SplitLink(t: Tree, p: PageNo, q: PageNo, cut: nat, blank: Node): Tree
    requires Splittable(t.pages, p, cut) && p in t.extents && (t.pages[p].isLeaf ==> p in t.leaves)
    requires Linkable(SplitPages(t.pages, p, q, cut, blank), p, q)
  {
    Link(SplitAt(t, p, q, cut, blank), p, q)
  }

  /** What the split and the insertion into the parent write into every page. */
  ghost predicate SplitLinkView(t: Tree, p: PageNo, q: PageNo, cut: nat, u: Tree)
    requires p in t.pages && p in t.extents && cut < |t.pages[p].keys|
  {
    var a, b, g := t.pages, u.pages, t.pages[p].parent;
    && g in a && g != p && g != q && |a[g].keys| == |a[g].rids| && Child(p) in a[g].rids
    && |a[p].keys| == |a[p].rids|
    && var j := IndexOf(a[g].rids, Child(p)) + 1;
    var n := a[g].(keys := Splice(a[g].keys, j, [a[p].keys[cut]]), rids := Splice(a[g].rids, j, [Child(q)]));
    && SplitView(a, p, q, cut, b[g := a[g]])
    && g in b && b[g] == n
    && u.root == t.root
    && u.extents == t.extents[p := t.extents[p].(hi := At(a[p].keys[cut]))][q := t.extents[p].(lo := At(a[p].keys[cut]))]
  }

  /** Neither the split nor the relinking of the chain touches the parent of the page. */
  lemma SplitKeepsParent(t: Tree, p: PageNo, q: PageNo, cut: nat)
    requires SplitReady(t, p, q, cut) && p != t.root && ChainOk(t)
    ensures var g := t.pages[p].parent;
            && |t.pages[p].keys| == |t.pages[p].rids| && g in t.pages
            && Moved(t.pages, p, q, cut, g) == t.pages[g]
  {
    ParentFacts(t, p);
    assert NodeOk(t, p);
    var n := t.pages[p];
    if n.isLeaf {
      LeafFacts(t, p);
    } else if Child(n.parent) in n.rids[cut..] {
      var i :| cut <= i < |n.rids| && n.rids[i] == Child(n.parent);
      ChildFacts(t, p, i);
    }
  }

  lemma SplitLinkViewed(t: Tree, p: PageNo, q: PageNo, cut: nat, blank: Node)
    requires SplitReady(t, p, q, cut) && p != t.root && ChainOk(t)
    ensures Splittable(t.pages, p, cut) && (t.pages[p].isLeaf ==> p in t.leaves)
    ensures Linkable(SplitPages(t.pages, p, q, cut, blank), p, q)
    ensures SplitLinkView(t, p, q, cut, SplitLink(t, p, q, cut, blank))
    ensures SplitLink(t, p, q, cut, blank).leaves == SplitLeaves(t, p, q)
  {
    SplitDefined(t, p, q, cut);
    SplitPagesView(t, p, q, cut, blank);
    SplitKeepsParent(t, p, q, cut);
    ParentFacts(t, p);
    LinkView(t, p, q, cut, SplitAt(t, p, q, cut, blank));
  }

  /** Linking q in changes the parent of p only. */
  lemma LinkView(t: Tree, p: PageNo, q: PageNo, cut: nat, u: Tree)
    requires p in t.pages && p in t.extents && cut < |t.pages[p].keys| == |t.pages[p].rids|
    requires SplitView(t.pages, p, q, cut, u.pages)
    requires var a, g := t.pages, t.pages[p].parent;
             && g in a && g != p && g != q && |a[g].keys| == |a[g].rids| && Child(p) in a[g].rids
             && Moved(a, p, q, cut, g) == a[g]
    requires u.root == t.root
    requires u.extents == t.extents[p := t.extents[p].(hi := At(t.pages[p].keys[cut]))]
                                   [q := t.extents[p].(lo := At(t.pages[p].keys[cut]))]
    ensures Linkable(u.pages, p, q) && SplitLinkView(t, p, q, cut, Link(u, p, q))
  {
    var b, g := u.pages, t.pages[p].parent;
    assert b[g] == t.pages[g];
    assert b[q].(parent := g) == b[q];
    assert LinkPages(b, p, q)[g := t.pages[g]] == b;
  }
}
