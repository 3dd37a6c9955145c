/**
 The shape of the B+ tree index: page contents, key intervals and the invariant that the
 operations of the index handle keep.

 A page of the index is a value; the index maps page numbers to pages.  Two pieces of ghost
 information accompany the pages: the extent of every page of the tree (the half-open interval
 of keys it is responsible for, and its height above the leaves), and the leaf pages from left
 to right.  Every clause of the invariant looks at one page and its children only.
 */
module TreeShape {

  type Key = int
  type PageNo = int

  const NO_PAGE: PageNo := -1
  const LEAF_HEADER_PAGE: PageNo := 1
  const INIT_ROOT_PAGE: PageNo := 2

  datatype Rid = Rid(pageNo: PageNo, slotNo: int)

  /** Entry of an internal page that points to page c. */
  function Child(c: PageNo): Rid { Rid(c, -1) }

  /** IxPageHdr with the key and rid arrays cut off at num_key. */
  datatype Node = Node(isLeaf: bool, parent: PageNo, prev: PageNo, next: PageNo, keys: seq<Key>, rids: seq<Rid>)

  /** What a freshly allocated page holds: NewPage hands out zeroed memory. */
  const BLANK: Node := Node(false, 0, 0, 0, [], [])

  datatype Bound = Below | At(key: Key) | Above

  predicate Lt(a: Bound, b: Bound) {
    match a
    case Below => b != Below
    case At(x) => (match b case Below => false case At(y) => x < y case Above => true)
    case Above => false
  }

  datatype Extent = Extent(lo: Bound, hi: Bound, height: nat)

  predicate Covers(e: Extent, k: Key) {
    !Lt(At(k), e.lo) && Lt(At(k), e.hi)
  }

  datatype Tree = Tree(pages: map<PageNo, Node>, root: PageNo, extents: map<PageNo, Extent>, leaves: seq<PageNo>)

  // ---------------------------------------------------------------- one page

  predicate Ascending(ks: seq<Key>) {
    forall i, j :: 0 <= i < j < |ks| ==> ks[i] < ks[j]
  }

  predicate Differ<T(==)>(s: seq<T>, i: nat, j: nat) {
    i < |s| && j < |s| && s[i] != s[j]
  }

  ghost predicate NoRepeats<T>(s: seq<T>) {
    forall i: nat, j: nat :: i < j < |s| ==> Differ(s, i, j)
  }

  predicate LeafOk(n: Node, e: Extent) {
    && Ascending(n.keys)
    && forall i :: 0 <= i < |n.keys| ==> Covers(e, n.keys[i])
  }

  /** Key 0 of an internal page is a dummy: its leftmost child starts where the page starts. */
  function SlotLo(n: Node, e: Extent, i: nat): Bound
    requires i < |n.keys|
  {
    if i == 0 then e.lo else At(n.keys[i])
  }

  function SlotHi(n: Node, e: Extent, i: nat): Bound
    requires i < |n.keys|
  {
    if i + 1 == |n.keys| then e.hi else At(n.keys[i + 1])
  }

  /** Slot i of internal page p agrees with the child page it points to. */
  ghost predicate SlotOk(t: Tree, p: PageNo, i: nat)
    requires p in t.pages && p in t.extents && i < |t.pages[p].keys| == |t.pages[p].rids|
  {
    var n, e, c := t.pages[p], t.extents[p], t.pages[p].rids[i].pageNo;
    && n.rids[i] == Child(c)
    && c in t.pages && c in t.extents
    && t.pages[c].parent == p
    && t.extents[c].lo == SlotLo(n, e, i)
    && t.extents[c].hi == SlotHi(n, e, i)
    && t.extents[c].height + 1 == e.height
    && (t.pages[c].isLeaf || (t.pages[c].keys != [] && t.pages[c].keys[0] == n.keys[i]))
  }

  ghost predicate InnerOk(t: Tree, p: PageNo)
    requires p in t.pages && p in t.extents && |t.pages[p].keys| == |t.pages[p].rids|
  {
    var n := t.pages[p];
    && n.keys != []
    && NoRepeats(n.rids)
    && (forall i :: 0 <= i < |n.rids| ==> SlotOk(t, p, i))
  }

  ghost predicate NodeOk(t: Tree, p: PageNo)
    requires p in t.pages && p in t.extents
  {
    var n, e := t.pages[p], t.extents[p];
    && |n.keys| == |n.rids|
    && Lt(e.lo, e.hi)
    && (n.isLeaf <==> e.height == 0)
    && if n.isLeaf then LeafOk(n, e) else InnerOk(t, p)
  }

  ghost predicate ParentOk(t: Tree, p: PageNo)
    requires p in t.pages && p in t.extents && t.root in t.extents
  {
    var g := t.pages[p].parent;
    if p == t.root then g == NO_PAGE && t.extents[p].lo == Below && t.extents[p].hi == Above
    else
      && g in t.pages && g in t.extents && !t.pages[g].isLeaf && Child(p) in t.pages[g].rids
      && t.extents[p].height < t.extents[t.root].height
  }

  // ---------------------------------------------------------------- the leaf chain

  /** The page at position i of the ring that starts and ends at the leaf header page. */
  function Ring(leaves: seq<PageNo>, i: int): PageNo {
    if 0 <= i < |leaves| then leaves[i] else LEAF_HEADER_PAGE
  }

  /** The pages at positions i and i + 1 of the ring point to each other. */
  ghost predicate LinkOk(pages: map<PageNo, Node>, leaves: seq<PageNo>, i: int) {
    var x, y := Ring(leaves, i), Ring(leaves, i + 1);
    x in pages && y in pages && pages[x].next == y && pages[y].prev == x
  }

  ghost predicate Linked(pages: map<PageNo, Node>, leaves: seq<PageNo>) {
    forall i :: -1 <= i < |leaves| ==> LinkOk(pages, leaves, i)
  }

  /** Leaf i of the chain ends where leaf i + 1 starts. */
  ghost predicate StepOk(t: Tree, s: seq<PageNo>, i: nat) {
    && i + 1 < |s| && s[i] in t.extents && s[i + 1] in t.extents
    && t.extents[s[i]].hi == t.extents[s[i + 1]].lo
  }

  /** The chain lists exactly the leaf pages of the tree. */
  ghost predicate Listed(t: Tree, p: PageNo) {
    p in t.leaves <==> p in t.extents && p in t.pages && t.pages[p].isLeaf
  }

  ghost predicate LeavesOk(t: Tree) {
    var s := t.leaves;
    && s != [] && s[0] == INIT_ROOT_PAGE
    && (forall p :: Listed(t, p))
    && NoRepeats(s)
    && (forall i :: 0 <= i < |s| - 1 ==> StepOk(t, s, i))
    && s[0] in t.extents && s[|s| - 1] in t.extents
    && t.extents[s[0]].lo == Below && t.extents[s[|s| - 1]].hi == Above
  }

  // ---------------------------------------------------------------- the whole tree

  ghost predicate NodesOk(t: Tree) {
    && t.root in t.extents
    && (forall p :: p in t.extents ==> p in t.pages && p >= INIT_ROOT_PAGE)
    && (forall p {:trigger NodeOk(t, p)} :: p in t.extents ==> NodeOk(t, p))
    && (forall p {:trigger ParentOk(t, p)} :: p in t.extents ==> ParentOk(t, p))
  }

  ghost predicate ChainOk(t: Tree) {
    LeavesOk(t) && Linked(t.pages, t.leaves)
  }

  ghost predicate WellFormed(t: Tree) {
    NodesOk(t) && ChainOk(t)
  }

  /** Leaf p is responsible for the key. */
  ghost predicate Responsible(t: Tree, p: PageNo, key: Key) {
    p in t.extents && p in t.pages && t.pages[p].isLeaf && Covers(t.extents[p], key)
  }
}
