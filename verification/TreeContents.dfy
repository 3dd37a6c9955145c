/**
 The entries of the index in chain order.  Splits and merges leave them alone; they ascend by
 key; an entry that enters or leaves the covering leaf enters or leaves them at its sorted place.
 */
module TreeContents {
  import opened TreeShape
  import opened TreeSplit
  import opened TreeSplitProof
  import opened TreeMerge

  type Entry = (Key, Rid)

  function Zip(ks: seq<Key>, rs: seq<Rid>): (es: seq<Entry>)
    ensures |ks| == |rs| ==> |es| == |ks|
  {
    seq(if |ks| <= |rs| then |ks| else |rs|, i requires 0 <= i < |ks| && i < |rs| => (ks[i], rs[i]))
  }

  function PageEntries(pages: map<PageNo, Node>, p: PageNo): seq<Entry> {
    if p in pages then Zip(pages[p].keys, pages[p].rids) else []
  }

  function Flatten(pages: map<PageNo, Node>, s: seq<PageNo>): seq<Entry> {
    if s == [] then [] else PageEntries(pages, s[0]) + Flatten(pages, s[1..])
  }

  /** All entries of the index, leaf by leaf along the chain. */
  function Entries(t: Tree): seq<Entry> {
    Flatten(t.pages, t.leaves)
  }

  lemma {:induction false} FlattenConcat(pages: map<PageNo, Node>, a: seq<PageNo>, b: seq<PageNo>)
    ensures Flatten(pages, a + b) == Flatten(pages, a) + Flatten(pages, b)
  {
    if a == [] {
      assert a + b == b;
    } else {
      FlattenConcat(pages, a[1..], b);
      assert (a + b)[1..] == a[1..] + b;
    }
  }

  lemma {:induction false} FlattenFrame(x: map<PageNo, Node>, y: map<PageNo, Node>, s: seq<PageNo>)
    requires forall p :: p in s ==> PageEntries(x, p) == PageEntries(y, p)
    ensures Flatten(x, s) == Flatten(y, s)
  {
    if s != [] {
      FlattenFrame(x, y, s[1..]);
    }
  }

  /** The entries before leaf number j, those of leaves j .. k - 1, and those behind. */
  lemma FlattenAround(pages: map<PageNo, Node>, s: seq<PageNo>, j: nat, k: nat)
    requires j <= k <= |s|
    ensures Flatten(pages, s) == Flatten(pages, s[..j]) + Flatten(pages, s[j..k]) + Flatten(pages, s[k..])
  {
    FlattenConcat(pages, s[..j], s[j..k]);
    FlattenConcat(pages, s[..j] + s[j..k], s[k..]);
    assert s[..j] + s[j..k] + s[k..] == s;
  }

  lemma FlattenOne(pages: map<PageNo, Node>, p: PageNo)
    ensures Flatten(pages, [p]) == PageEntries(pages, p)
  {
    assert Flatten(pages, []) == [];
  }

  lemma FlattenTwo(pages: map<PageNo, Node>, p: PageNo, q: PageNo)
    ensures Flatten(pages, [p, q]) == PageEntries(pages, p) + PageEntries(pages, q)
  {
    FlattenConcat(pages, [p], [q]);
    assert [p] + [q] == [p, q];
    FlattenOne(pages, p);
    FlattenOne(pages, q);
  }

  /** Leaf p of a stands against leaves p and q of b, in the same surroundings. */
  lemma FlattenRegroup(a: map<PageNo, Node>, b: map<PageNo, Node>, pre: seq<PageNo>, post: seq<PageNo>, p: PageNo, q: PageNo)
    requires forall c :: c in pre || c in post ==> PageEntries(a, c) == PageEntries(b, c)
    requires PageEntries(a, p) == PageEntries(b, p) + PageEntries(b, q)
    ensures Flatten(a, pre + [p] + post) == Flatten(b, pre + [p, q] + post)
  {
    FlattenConcat(a, pre + [p], post);
    FlattenConcat(a, pre, [p]);
    FlattenConcat(b, pre + [p, q], post);
    FlattenConcat(b, pre, [p, q]);
    FlattenOne(a, p);
    FlattenTwo(b, p, q);
    FlattenFrame(a, b, pre);
    FlattenFrame(a, b, post);
  }

  // ---------------------------------------------------------------- restructuring keeps the entries

  /** A page whose keys and rids stay keeps its entries. */
  lemma SplitKeepsEntries(t: Tree, p: PageNo, q: PageNo, cut: nat, u: Tree, c: PageNo)
    requires Split(t, p, q, cut, u) && c in t.pages && c != p && c != q && c != t.pages[p].parent
    ensures PageEntries(u.pages, c) == PageEntries(t.pages, c)
  {
    assert u.pages[c] == Moved(t.pages, p, q, cut, c);
  }

  lemma SplitEntries(t: Tree, p: PageNo, q: PageNo, cut: nat, u: Tree)
    requires Split(t, p, q, cut, u) && ChainOk(t) && (t.pages[p].isLeaf ==> p in t.leaves)
    requires u.leaves == SplitLeaves(t, p, q)
    ensures Entries(u) == Entries(t)
  {
    ParentFacts(t, p);
    assert Listed(t, p) && Listed(t, q) && Listed(t, t.pages[p].parent);
    forall c | c in t.leaves && c != p ensures PageEntries(u.pages, c) == PageEntries(t.pages, c) {
      assert Listed(t, c);
      SplitKeepsEntries(t, p, q, cut, u, c);
    }
    if t.pages[p].isLeaf {
      assert PageEntries(t.pages, p) == PageEntries(u.pages, p) + PageEntries(u.pages, q);
      LeafCutInTwo(t.pages, u.pages, t.leaves, IndexOf(t.leaves, p), q);
    } else {
      FlattenFrame(t.pages, u.pages, t.leaves);
    }
  }

  /** Leaf number j of a stands against that leaf and leaf q of b. */
  lemma LeafCutInTwo(a: map<PageNo, Node>, b: map<PageNo, Node>, s: seq<PageNo>, j: nat, q: PageNo)
    requires NoRepeats(s) && j < |s|
    requires forall c :: c in s && c != s[j] ==> PageEntries(b, c) == PageEntries(a, c)
    requires PageEntries(a, s[j]) == PageEntries(b, s[j]) + PageEntries(b, q)
    ensures Flatten(b, Splice(s, j + 1, [q])) == Flatten(a, s)
  {
    var pre, post := s[..j], s[j + 1..];
    forall c | c in pre || c in post ensures PageEntries(a, c) == PageEntries(b, c) {
      NotAt(s, j, c);
    }
    FlattenRegroup(a, b, pre, post, s[j], q);
    SpliceBehind(s, j, q);
  }

  /** Leaf number j - 1 of a stands against leaves j - 1 and j of b. */
  lemma LeavesJoined(a: map<PageNo, Node>, b: map<PageNo, Node>, s: seq<PageNo>, j: nat)
    requires NoRepeats(s) && 0 < j < |s|
    requires forall c :: c in s && c != s[j - 1] ==> PageEntries(a, c) == PageEntries(b, c)
    requires PageEntries(a, s[j - 1]) == PageEntries(b, s[j - 1]) + PageEntries(b, s[j])
    ensures Flatten(a, Cut(s, j)) == Flatten(b, s)
  {
    var w := Cut(s, j);
    NoRepeatsCut(s, j);
    assert w[j - 1] == s[j - 1];
    forall c | c in w && c != w[j - 1] ensures PageEntries(a, c) == PageEntries(b, c) {
      CutWithin(s, j, c);
    }
    SpliceOfCut(s, j);
    LeafCutInTwo(a, b, w, j - 1, s[j]);
  }

  lemma CutWithin<T>(s: seq<T>, j: nat, c: T)
    requires j < |s| && c in Cut(s, j)
    ensures c in s
  {
  }

  lemma SpliceOfCut<T>(s: seq<T>, j: nat)
    requires j < |s|
    ensures Splice(Cut(s, j), j, [s[j]]) == s
  {
  }

  lemma SpliceBehind<T>(s: seq<T>, j: nat, q: T)
    requires j < |s|
    ensures s == s[..j] + [s[j]] + s[j + 1..]
    ensures Splice(s, j + 1, [q]) == s[..j] + [s[j], q] + s[j + 1..]
  {
  }

  lemma NotAt<T>(s: seq<T>, j: nat, c: T)
    requires NoRepeats(s) && j < |s| && (c in s[..j] || c in s[j + 1..])
    ensures c in s && c != s[j]
  {
    var i: nat :| i < |s| && i != j && s[i] == c;
    Once(s, i, j);
  }

  lemma MergeKeepsEntries(t: Tree, l: PageNo, r: PageNo, i: nat, u: Tree, c: PageNo)
    requires Merged(t, l, r, i, u) && c in t.pages && c != l && c != t.pages[l].parent
    ensures PageEntries(u.pages, c) == PageEntries(t.pages, c)
  {
    assert u.pages[c] == Joined(t.pages, l, r, c);
  }

  lemma MergeEntries(t: Tree, l: PageNo, r: PageNo, i: nat, u: Tree)
    requires Merged(t, l, r, i, u) && WellFormed(t) && (t.pages[r].isLeaf ==> r in t.leaves)
    requires u.leaves == MergeLeaves(t, r)
    ensures Entries(u) == Entries(t)
  {
    SiblingFacts(t, l, r, i);
    assert Listed(t, l) && Listed(t, r) && Listed(t, t.pages[l].parent);
    forall c | c in t.leaves && c != l ensures PageEntries(u.pages, c) == PageEntries(t.pages, c) {
      assert Listed(t, c);
      MergeKeepsEntries(t, l, r, i, u, c);
    }
    if t.pages[r].isLeaf {
      LeafSiblings(t, l, r, i);
      assert PageEntries(u.pages, l) == PageEntries(t.pages, l) + PageEntries(t.pages, r);
      LeavesJoined(u.pages, t.pages, t.leaves, IndexOf(t.leaves, r));
    } else {
      FlattenFrame(t.pages, u.pages, t.leaves);
    }
  }

  // ---------------------------------------------------------------- the entries ascend

  predicate Sorted(es: seq<Entry>) {
    forall i, j :: 0 <= i < j < |es| ==> es[i].0 < es[j].0
  }

  /** Every key of leaves[i..j] lies between the start of leaf i and the end of leaf j - 1. */
  lemma {:induction false} EntriesBetween(t: Tree, i: nat, j: nat)
    requires WellFormed(t) && i < j <= |t.leaves|
    ensures t.leaves[i] in t.extents && t.leaves[j - 1] in t.extents
    ensures var es := Flatten(t.pages, t.leaves[i..j]);
            Sorted(es) && Within(es, t.extents[t.leaves[i]].lo, t.extents[t.leaves[j - 1]].hi)
    decreases j - i
  {
    var s := t.leaves;
    assert Listed(t, s[i]) && NodeOk(t, s[i]);
    var head, e := PageEntries(t.pages, s[i]), t.extents[s[i]];
    forall k | 0 <= k < |head| ensures !Lt(At(head[k].0), e.lo) && Lt(At(head[k].0), e.hi) {
      assert Covers(e, t.pages[s[i]].keys[k]);
    }
    if i + 1 < j {
      EntriesBetween(t, i + 1, j);
      assert StepOk(t, s, i);
      EndsAscend(t, i, j - 1);
      LeavesAscend(t, i, i + 1);
      assert s[i..j][1..] == s[i + 1..j];
      InOrder(head, Flatten(t.pages, s[i + 1..j]), e.lo, e.hi, t.extents[s[j - 1]].hi);
    } else {
      assert s[i..j] == [s[i]];
      FlattenOne(t.pages, s[i]);
    }
  }

  ghost predicate Within(es: seq<Entry>, lo: Bound, hi: Bound) {
    forall k :: 0 <= k < |es| ==> !Lt(At(es[k].0), lo) && Lt(At(es[k].0), hi)
  }

  /** Sorted entries below and from a bound on make up sorted entries. */
  lemma InOrder(head: seq<Entry>, tail: seq<Entry>, lo: Bound, mid: Bound, hi: Bound)
    requires Sorted(head) && Sorted(tail) && Within(head, lo, mid) && Within(tail, mid, hi) && Lt(lo, mid) && Lt(mid, hi)
    ensures Sorted(head + tail) && Within(head + tail, lo, hi)
  {
    var es := head + tail;
    forall a, b | 0 <= a < b < |es| ensures es[a].0 < es[b].0 {
      if a < |head| <= b {
        assert es[b] == tail[b - |head|] && es[a] == head[a];
      }
    }
    forall k | 0 <= k < |es| ensures !Lt(At(es[k].0), lo) && Lt(At(es[k].0), hi) {
      assert es[k] == if k < |head| then head[k] else tail[k - |head|];
    }
  }

  lemma {:induction false} EndsAscend(t: Tree, i: nat, j: nat)
    requires WellFormed(t) && i <= j < |t.leaves|
    ensures t.leaves[i] in t.extents && t.leaves[j] in t.extents
    ensures i < j ==> Lt(t.extents[t.leaves[i]].hi, t.extents[t.leaves[j]].hi)
    decreases j - i
  {
    assert Listed(t, t.leaves[i]) && Listed(t, t.leaves[j]);
    if i < j {
      assert StepOk(t, t.leaves, i) && Listed(t, t.leaves[i + 1]) && NodeOk(t, t.leaves[i + 1]);
      EndsAscend(t, i + 1, j);
    }
  }

  /** The entries of a well-formed tree ascend strictly by key: no key occurs twice. */
  lemma EntriesSorted(t: Tree)
    requires WellFormed(t)
    ensures Sorted(Entries(t))
  {
    EntriesBetween(t, 0, |t.leaves|);
    assert t.leaves[0..|t.leaves|] == t.leaves;
  }

  // ---------------------------------------------------------------- the covering leaf

  /** The leaf whose interval covers key k, with all smaller keys before it and all larger behind. */
  lemma AroundLeaf(t: Tree, p: PageNo, k: Key) returns (pre: seq<Entry>, post: seq<Entry>)
    requires WellFormed(t) && p in t.extents && t.pages[p].isLeaf && Covers(t.extents[p], k)
    ensures Entries(t) == pre + PageEntries(t.pages, p) + post
    ensures forall e :: e in pre ==> e.0 < k
    ensures forall e :: e in post ==> k < e.0
    ensures p in t.leaves
    ensures var j := IndexOf(t.leaves, p);
            pre == Flatten(t.pages, t.leaves[..j]) && post == Flatten(t.pages, t.leaves[j + 1..])
  {
    var s := t.leaves;
    assert Listed(t, p);
    var j := IndexOf(s, p);
    pre, post := Flatten(t.pages, s[..j]), Flatten(t.pages, s[j + 1..]);
    FlattenAround(t.pages, s, j, j + 1);
    assert s[j..j + 1] == [p];
    FlattenOne(t.pages, p);
    BeforeLeaf(t, j, k);
    BehindLeaf(t, j, k);
  }

  lemma BeforeLeaf(t: Tree, j: nat, k: Key)
    requires WellFormed(t) && j < |t.leaves| && t.leaves[j] in t.extents && !Lt(At(k), t.extents[t.leaves[j]].lo)
    ensures forall e :: e in Flatten(t.pages, t.leaves[..j]) ==> e.0 < k
  {
    if j > 0 {
      EntriesBetween(t, 0, j);
      assert t.leaves[0..j] == t.leaves[..j];
      assert StepOk(t, t.leaves, j - 1);
    }
  }

  lemma BehindLeaf(t: Tree, j: nat, k: Key)
    requires WellFormed(t) && j < |t.leaves| && t.leaves[j] in t.extents && Lt(At(k), t.extents[t.leaves[j]].hi)
    ensures forall e :: e in Flatten(t.pages, t.leaves[j + 1..]) ==> k < e.0
  {
    if j + 1 < |t.leaves| {
      EntriesBetween(t, j + 1, |t.leaves|);
      assert t.leaves[j + 1..|t.leaves|] == t.leaves[j + 1..];
      assert StepOk(t, t.leaves, j);
    }
  }

  /** Replacing the entries of one leaf replaces that stretch of the entries. */
  lemma EditLeafEntries(t: Tree, p: PageNo, u: Tree)
    requires WellFormed(t) && p in t.extents && t.pages[p].isLeaf && p in t.leaves && u.leaves == t.leaves
    requires forall c :: c in t.pages && c != p ==> c in u.pages && u.pages[c] == t.pages[c]
    ensures var j := IndexOf(t.leaves, p);
            Entries(u) == Flatten(t.pages, t.leaves[..j]) + PageEntries(u.pages, p) + Flatten(t.pages, t.leaves[j + 1..])
  {
    var s := t.leaves;
    var j := IndexOf(s, p);
    var pre, post := s[..j], s[j + 1..];
    forall c | c in pre || c in post ensures PageEntries(u.pages, c) == PageEntries(t.pages, c) {
      NotAt(s, j, c);
      assert Listed(t, c);
    }
    FlattenFrame(t.pages, u.pages, pre);
    FlattenFrame(t.pages, u.pages, post);
    FlattenAround(u.pages, s, j, j + 1);
    assert s[j..j + 1] == [p];
    FlattenOne(u.pages, p);
  }

  // ---------------------------------------------------------------- what insert and delete promise

  /** The entries with (k, v) spliced in at its sorted place, or unchanged if k is there already. */
  function Inserted(es: seq<Entry>, k: Key, v: Rid): seq<Entry> {
    if es == [] then [(k, v)]
    else if es[0].0 < k then [es[0]] + Inserted(es[1..], k, v)
    else if es[0].0 == k then es
    else [(k, v)] + es
  }

  /** The entries without the one of key k. */
  function Removed(es: seq<Entry>, k: Key): seq<Entry> {
    if es == [] then []
    else if es[0].0 == k then es[1..]
    else [es[0]] + Removed(es[1..], k)
  }

  predicate HasKey(es: seq<Entry>, k: Key) {
    exists e :: e in es && e.0 == k
  }

  lemma TailOfThree<T>(pre: seq<T>, mid: seq<T>, post: seq<T>)
    ensures pre != [] ==> (pre + mid + post)[0] == pre[0] && (pre + mid + post)[1..] == pre[1..] + mid + post
    ensures pre == [] && mid != [] ==> (pre + mid + post)[0] == mid[0] && (pre + mid + post)[1..] == [] + mid[1..] + post
  {
  }

  lemma {:induction false} InsertedLocal(pre: seq<Entry>, mid: seq<Entry>, post: seq<Entry>, k: Key, v: Rid)
    requires forall e :: e in pre ==> e.0 < k
    requires forall e :: e in post ==> k < e.0
    ensures Inserted(pre + mid + post, k, v) == pre + Inserted(mid, k, v) + post
  {
    if pre != [] {
      assert pre[0] in pre;
      InsertedLocal(pre[1..], mid, post, k, v);
      TailOfThree(pre, mid, post);
    } else if mid != [] {
      InsertedLocal([], mid[1..], post, k, v);
      TailOfThree(pre, mid, post);
    } else {
      assert pre + mid + post == post;
      if post != [] { assert post[0] in post; }
    }
  }

  lemma {:induction false} RemovedLocal(pre: seq<Entry>, mid: seq<Entry>, post: seq<Entry>, k: Key)
    requires forall e :: e in pre ==> e.0 < k
    requires forall e :: e in post ==> k < e.0
    ensures Removed(pre + mid + post, k) == pre + Removed(mid, k) + post
  {
    if pre != [] {
      TailOfThree(pre, mid, post);
      RemovedLocal(pre[1..], mid, post, k);
    } else if mid != [] {
      TailOfThree(pre, mid, post);
      RemovedLocal([], mid[1..], post, k);
    } else {
      assert pre + mid + post == post;
      RemovedAbsent(post, k);
    }
  }

  lemma {:induction false} RemovedAbsent(es: seq<Entry>, k: Key)
    requires forall e :: e in es ==> e.0 != k
    ensures Removed(es, k) == es
  {
    if es != [] {
      assert es[0] in es;
      RemovedAbsent(es[1..], k);
    }
  }

  /** Splicing at the lower bound of k is insertion at the sorted place. */
  lemma {:induction false} SpliceIsInserted(ks: seq<Key>, rs: seq<Rid>, pos: nat, k: Key, v: Rid)
    requires |ks| == |rs| && pos <= |ks|
    requires forall i :: 0 <= i < pos ==> ks[i] < k
    requires pos < |ks| ==> k < ks[pos]
    ensures Zip(Splice(ks, pos, [k]), Splice(rs, pos, [v])) == Inserted(Zip(ks, rs), k, v)
  {
    if pos == 0 {
      ZipCons(k, v, ks, rs);
      assert Splice(ks, 0, [k]) == [k] + ks && Splice(rs, 0, [v]) == [v] + rs;
    } else {
      var ks', rs' := ks[1..], rs[1..];
      SpliceIsInserted(ks', rs', pos - 1, k, v);
      assert Splice(ks, pos, [k]) == [ks[0]] + Splice(ks', pos - 1, [k]);
      assert Splice(rs, pos, [v]) == [rs[0]] + Splice(rs', pos - 1, [v]);
      ZipCons(ks[0], rs[0], Splice(ks', pos - 1, [k]), Splice(rs', pos - 1, [v]));
      ZipCons(ks[0], rs[0], ks', rs');
      assert [ks[0]] + ks' == ks && [rs[0]] + rs' == rs;
    }
  }

  lemma ZipCons(k: Key, r: Rid, ks: seq<Key>, rs: seq<Rid>)
    requires |ks| == |rs|
    ensures Zip([k] + ks, [r] + rs) == [(k, r)] + Zip(ks, rs)
  {
  }

  lemma {:induction false} InsertedPresent(es: seq<Entry>, k: Key, v: Rid, i: nat)
    requires Sorted(es) && i < |es| && es[i].0 == k
    ensures Inserted(es, k, v) == es
  {
    if i > 0 {
      InsertedPresent(es[1..], k, v, i - 1);
    }
  }

  /** Cutting out the position of key k removes exactly the entry of k. */
  lemma {:induction false} CutIsRemoved(ks: seq<Key>, rs: seq<Rid>, pos: nat, k: Key)
    requires |ks| == |rs| && pos < |ks| && ks[pos] == k
    requires forall i :: 0 <= i < pos ==> ks[i] < k
    ensures Zip(Cut(ks, pos), Cut(rs, pos)) == Removed(Zip(ks, rs), k)
  {
    var es := Zip(ks, rs);
    if pos > 0 {
      CutIsRemoved(ks[1..], rs[1..], pos - 1, k);
      assert es[1..] == Zip(ks[1..], rs[1..]);
      assert Cut(ks, pos) == [ks[0]] + Cut(ks[1..], pos - 1);
      assert Cut(rs, pos) == [rs[0]] + Cut(rs[1..], pos - 1);
    }
  }
}
