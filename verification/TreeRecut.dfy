/**
 Moving the boundary between two sibling pages: merging them and splitting the result at another
 place.  Redistribution moves the boundary by one entry in either direction.
 */
module TreeRecut {
  import opened TreeShape
  import opened TreeSplit
  import opened TreeSplitProof
  import opened TreeMerge
  import opened TreeContents

  /** Siblings l and r of page g share their entries anew: the first cut go to l, the others to r. */
  ghost predicate RecutView(t: Tree, l: PageNo, r: PageNo, i: nat, cut: nat, u: Tree)
    requires l in t.pages && r in t.pages && l in t.extents && r in t.extents
  {
    var a, b, g := t.pages, u.pages, t.pages[l].parent;
    var ks, rs := a[l].keys + a[r].keys, a[l].rids + a[r].rids;
    && cut < |ks| && cut < |rs|
    && b.Keys == a.Keys
    && b[l] == a[l].(keys := ks[..cut], rids := rs[..cut])
    && b[r] == a[r].(keys := ks[cut..], rids := rs[cut..])
    && g in a && i + 1 < |a[g].keys|
    && b[g] == a[g].(keys := a[g].keys[i + 1 := ks[cut]])
    && (forall c :: c in a && c != l && c != r && c != g ==> b[c] == Reshared(a, l, r, cut, c))
    && u.root == t.root && u.leaves == t.leaves
    && u.extents == t.extents[l := t.extents[l].(hi := At(ks[cut]))][r := t.extents[r].(lo := At(ks[cut]))]
  }

  function Reshared(a: map<PageNo, Node>, l: PageNo, r: PageNo, cut: nat, c: PageNo): Node
    requires l in a && r in a && c in a && cut <= |a[l].rids + a[r].rids|
  {
    var rs := a[l].rids + a[r].rids;
    if a[r].isLeaf then a[c]
    else if Child(c) in rs[cut..] then a[c].(parent := r)
    else if Child(c) in rs[..cut] then a[c].(parent := l)
    else a[c]
  }

  /** The intermediate tree in which l holds everything. */
  lemma MergeThenSplit(t: Tree, l: PageNo, r: PageNo, i: nat, cut: nat) returns (m: Tree, u: Tree)
    requires Siblings(t, l, r, i) && ChainOk(t) && 0 < cut < |t.pages[l].keys + t.pages[r].keys|
    ensures Merged(t, l, r, i, m) && (t.pages[r].isLeaf ==> r in t.leaves) && m.leaves == MergeLeaves(t, r)
    ensures Split(m, l, r, cut, u) && (m.pages[l].isLeaf ==> l in m.leaves) && u.leaves == SplitLeaves(m, l, r)
    ensures !m.pages[l].isLeaf ==> u.pages[r].prev == t.pages[r].prev && u.pages[r].next == t.pages[r].next
    ensures WellFormed(m) && WellFormed(u) && Entries(u) == Entries(t)
  {
    SiblingFacts(t, l, r, i);
    MergeViewed(t, l, r, i);
    MergeWellFormed(t, l, r, i);
    m := Merge(t, l, r);
    MergeEntries(t, l, r, i, m);
    SplitLinkViewed(m, l, r, cut, t.pages[r]);
    SplitLinkWellFormed(m, l, r, cut, t.pages[r]);
    u := SplitLink(m, l, r, cut, t.pages[r]);
    SplitEntries(m, l, r, cut, u);
    if !m.pages[l].isLeaf {
      BlankLinks(m, l, r, cut, t.pages[r]);
    }
  }

  lemma BlankLinks(m: Tree, p: PageNo, q: PageNo, cut: nat, blank: Node)
    requires Splittable(m.pages, p, cut) && p in m.extents && !m.pages[p].isLeaf
    requires Linkable(SplitPages(m.pages, p, q, cut, blank), p, q) && m.pages[p].parent != q && p != q
    ensures SplitLink(m, p, q, cut, blank).pages[q].prev == blank.prev
    ensures SplitLink(m, p, q, cut, blank).pages[q].next == blank.next
  {
  }

  lemma RecutOtherPage(t: Tree, l: PageNo, r: PageNo, i: nat, cut: nat, m: Tree, u: Tree, c: PageNo)
    requires Merged(t, l, r, i, m) && Split(m, l, r, cut, u) && WellFormed(t)
    requires c in t.pages && c != l && c != r && c != t.pages[l].parent
    requires cut < |t.pages[l].rids + t.pages[r].rids|
    ensures c in u.pages && u.pages[c] == Reshared(t.pages, l, r, cut, c)
  {
    SiblingFacts(t, l, r, i);
    assert m.pages[c] == Joined(t.pages, l, r, c);
    assert u.pages[c] == Moved(m.pages, l, r, cut, c);
    var a, rs := t.pages, t.pages[l].rids + t.pages[r].rids;
    assert m.pages[l].rids == rs;
    if a[r].isLeaf {
      LeafSiblings(t, l, r, i);
      LeafFacts(t, r);
      var j: int := IndexOf(t.leaves, r);
      assert LinkOk(t.pages, t.leaves, j);
    } else if Child(c) in rs[..cut] && Child(c) !in rs[cut..] {
      var k :| 0 <= k < cut && rs[k] == Child(c);
      if k < |a[l].rids| {
        ChildFacts(t, l, k);
      } else {
        assert a[r].rids[k - |a[l].rids|] == Child(c);
      }
    } else if Child(c) !in rs[cut..] {
      assert rs == rs[..cut] + rs[cut..];
      assert Child(c) !in rs;
    }
  }

  lemma RecutLeaves(t: Tree, l: PageNo, r: PageNo, i: nat, m: Tree)
    requires Merged(t, l, r, i, m) && WellFormed(t) && t.pages[r].isLeaf && r in t.leaves
    requires m.leaves == MergeLeaves(t, r) && m.pages[l].isLeaf && l in m.leaves
    ensures SplitLeaves(m, l, r) == t.leaves
  {
    SiblingFacts(t, l, r, i);
    LeafSiblings(t, l, r, i);
    CutAndBack(t.leaves, IndexOf(t.leaves, r));
  }

  /** Taking element j out and entering it behind its left neighbour changes nothing. */
  lemma CutAndBack<T>(s: seq<T>, j: nat)
    requires NoRepeats(s) && 0 < j < |s|
    ensures var w := Cut(s, j); s[j - 1] in w && Splice(w, IndexOf(w, s[j - 1]) + 1, [s[j]]) == s
  {
    var w := Cut(s, j);
    NoRepeatsCut(s, j);
    assert w[j - 1] == s[j - 1];
    Once(w, IndexOf(w, s[j - 1]), j - 1);
    SpliceOfCut(s, j);
  }

  lemma Replace<T>(s: seq<T>, j: nat, x: T)
    requires j < |s|
    ensures Splice(Cut(s, j), j, [x]) == s[j := x]
  {
  }

  lemma RecutParent(t: Tree, l: PageNo, r: PageNo, i: nat, cut: nat, m: Tree, u: Tree)
    requires Merged(t, l, r, i, m) && Split(m, l, r, cut, u) && NodesOk(m)
    ensures var g := t.pages[l].parent;
            && g in t.pages && g in u.pages && i + 1 < |t.pages[g].keys| && cut < |m.pages[l].keys|
            && u.pages[g] == t.pages[g].(keys := t.pages[g].keys[i + 1 := m.pages[l].keys[cut]])
  {
    SiblingFacts(t, l, r, i);
    var g := t.pages[l].parent;
    ParentFacts(m, l);
    assert m.pages[g].rids[i] == Child(l);
    assert NodeOk(m, g);
    Once(m.pages[g].rids, IndexOf(m.pages[g].rids, Child(l)), i);
    CutAndRefill(t.pages[g], m.pages[g], u.pages[g], i + 1, m.pages[l].keys[cut], Child(r));
  }

  /** A slot that is cut out and entered again under another key only changes its key. */
  lemma CutAndRefill(a: Node, m: Node, u: Node, j: nat, k: Key, r: Rid)
    requires j < |a.keys| == |a.rids| && a.rids[j] == r
    requires m == a.(keys := Cut(a.keys, j), rids := Cut(a.rids, j))
    requires u == m.(keys := Splice(m.keys, j, [k]), rids := Splice(m.rids, j, [r]))
    ensures u == a.(keys := a.keys[j := k])
  {
    Replace(a.keys, j, k);
    Replace(a.rids, j, r);
    assert a.rids[j := r] == a.rids;
  }

  lemma RecutEnds(t: Tree, l: PageNo, r: PageNo, i: nat, cut: nat, m: Tree, u: Tree)
    requires Merged(t, l, r, i, m) && Split(m, l, r, cut, u)
    requires t.pages[r].isLeaf ==> t.pages[l].next == r && t.pages[r].prev == l
    requires !t.pages[r].isLeaf ==> u.pages[r].prev == t.pages[r].prev && u.pages[r].next == t.pages[r].next
    ensures var a, b, ks, rs := t.pages, u.pages, t.pages[l].keys + t.pages[r].keys, t.pages[l].rids + t.pages[r].rids;
            && cut < |ks| && cut < |rs| && b.Keys == a.Keys && u.root == t.root
            && b[l] == a[l].(keys := ks[..cut], rids := rs[..cut])
            && b[r] == a[r].(keys := ks[cut..], rids := rs[cut..])
            && u.extents == t.extents[l := t.extents[l].(hi := At(ks[cut]))][r := t.extents[r].(lo := At(ks[cut]))]
  {
    SiblingFacts(t, l, r, i);
    var e, g := t.extents, t.pages[l].parent;
    assert u.pages[g := m.pages[g]].Keys == m.pages.Keys + {r} == t.pages.Keys;
    assert u.pages.Keys == u.pages.Keys + {g} == t.pages.Keys;
    assert m.extents[l] == e[l].(hi := e[r].hi);
    assert e[l].(lo := At(m.pages[l].keys[cut]), hi := e[r].hi) == e[r].(lo := At(m.pages[l].keys[cut]));
  }

  /** Moving the boundary between two siblings keeps the tree well-formed and its entries. */
  lemma Recut(t: Tree, l: PageNo, r: PageNo, i: nat, cut: nat) returns (u: Tree)
    requires Siblings(t, l, r, i) && ChainOk(t) && 0 < cut < |t.pages[l].keys + t.pages[r].keys|
    ensures RecutView(t, l, r, i, cut, u) && WellFormed(u) && Entries(u) == Entries(t)
  {
    SiblingFacts(t, l, r, i);
    var m: Tree;
    m, u := MergeThenSplit(t, l, r, i, cut);
    if t.pages[r].isLeaf {
      LeafSiblings(t, l, r, i);
      RecutLeaves(t, l, r, i, m);
    }
    RecutEnds(t, l, r, i, cut, m, u);
    RecutParent(t, l, r, i, cut, m, u);
    forall c | c in t.pages && c != l && c != r && c != t.pages[l].parent
      ensures c in u.pages && u.pages[c] == Reshared(t.pages, l, r, cut, c)
    {
      RecutOtherPage(t, l, r, i, cut, m, u, c);
    }
  }
}
