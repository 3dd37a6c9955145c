/**
 The descent from the root to a leaf as the index performs it, and exactly when it arrives at the
 leaf that is responsible for the key.
 */
module IndexDescent {
  import opened TreeShape
  import opened TreeSplit
  import opened TreeSplitProof
  import opened TreeContents
  import opened IndexNode
  import opened IndexHandle

  /**
   From page p down the descent takes the responsible slot on every level: the key is below all
   keys of the page, or not below the last one while the unused slot behind the last one still
   names the last child.  spare is what the unused slots name.
   */
  ghost predicate OnCourse(t: Tree, spare: PageNo -> PageNo, p: PageNo, key: Key)
    requires NodesOk(t) && p in t.extents
    decreases t.extents[p].height
  {
    if t.pages[p].isLeaf then true
    else
      assert NodeOk(t, p);
      var n, last := t.pages[p], |t.pages[p].keys| - 1;
      ChildFacts(t, p, 0);
      ChildFacts(t, p, last);
      if forall i :: 0 <= i <= last ==> key < n.keys[i] then OnCourse(t, spare, n.rids[0].pageNo, key)
      else n.keys[last] <= key && spare(p) == n.rids[last].pageNo && OnCourse(t, spare, spare(p), key)
  }

  /** The keys of an internal page ascend from slot 1 on. */
  lemma InnerKeysAscend(t: Tree, p: PageNo)
    requires NodesOk(t) && p in t.extents && !t.pages[p].isLeaf
    ensures t.pages[p].keys != [] && Ascending(t.pages[p].keys[1..])
  {
    assert NodeOk(t, p);
    var ks := t.pages[p].keys[1..];
    forall i: nat, j: nat | i < j < |ks| ensures ks[i] < ks[j] {
      InnerKeysBetween(t, p, i + 1, j + 1);
    }
  }

  lemma {:induction false} InnerKeysBetween(t: Tree, p: PageNo, i: nat, j: nat)
    requires NodesOk(t) && p in t.extents && !t.pages[p].isLeaf && 0 < i < j < |t.pages[p].keys|
    ensures t.pages[p].keys[i] < t.pages[p].keys[j]
    decreases j - i
  {
    assert NodeOk(t, p);
    ChildFacts(t, p, i);
    assert NodeOk(t, t.pages[p].rids[i].pageNo);
    if i + 1 < j {
      InnerKeysBetween(t, p, i + 1, j);
    }
  }

  /** Of the children of the page that covers the key, exactly the one in the responsible slot covers it. */
  lemma CoveringChild(t: Tree, p: PageNo, key: Key, i: nat)
    requires NodesOk(t) && p in t.extents && !t.pages[p].isLeaf && Covers(t.extents[p], key) && i < |t.pages[p].rids|
    ensures t.pages[p].rids[i].pageNo in t.extents && |t.pages[p].keys| == |t.pages[p].rids|
    ensures Covers(t.extents[t.pages[p].rids[i].pageNo], key) <==> ResponsibleSlot(t.pages[p].keys, key, i)
  {
    assert NodeOk(t, p);
    ChildFacts(t, p, i);
  }

  /** A child's interval lies inside its parent's. */
  lemma ChildInside(t: Tree, p: PageNo, key: Key, i: nat)
    requires NodesOk(t) && p in t.extents && !t.pages[p].isLeaf && i < |t.pages[p].rids|
    ensures t.pages[p].rids[i].pageNo in t.extents
    ensures Covers(t.extents[t.pages[p].rids[i].pageNo], key) ==> Covers(t.extents[p], key)
  {
    assert NodeOk(t, p);
    ChildFacts(t, p, i);
    if i > 0 { KeysAboveLo(t, p, i); }
    if i + 1 < |t.pages[p].rids| { KeysBelowHi(t, p, i + 1); }
  }

  /** The descent ended on a leaf, or it went on to a page that is no child of the page it was on. */
  datatype Descent = Arrived(leaf: PageNo) | Astray(page: PageNo)

  /**
   FindLeafPage.  The slot it descends into is the first one whose key is above the key sought,
   while the responsible child sits in the slot before.  Past the last key that is the unused slot,
   in which an entry may be left that was there once.  It finds the covering leaf if it stays on
   course.  Otherwise it ends on another leaf, or it goes astray where the unused slot does not name
   the last child; what it finds from there on is not said.
   */
  method FindLeafPage(ih: IxIndexHandle, spare: PageNo -> PageNo, key: Key) returns (r: Descent)
    requires ih.Valid()
    modifies ih`pins
    ensures r.Arrived? ==> r.leaf in ih.extents && r.leaf in ih.pages && ih.pages[r.leaf].isLeaf
    ensures ih.pins == if r.Arrived? then old(ih.pins) + multiset{r.leaf} else old(ih.pins)
    ensures r.Arrived? && ih.CoveringLeaf(r.leaf, key) <==> OnCourse(ih.View(), spare, ih.root, key)
    ensures r.Astray? ==> r.page in ih.extents && r.page in ih.pages && LeavesChildren(ih.pages[r.page], spare(r.page), key)
  {
    ghost var t, before := ih.View(), ih.pins;
    var node := ih.root;
    RootIsLive(ih, key);
    ih.FetchNode(node);
    while !ih.Page(node).isLeaf
      invariant node in t.extents && node in ih.pins && ih.pins == before + multiset{node} && ih.View() == t
      invariant SoFar(t, spare, node, key)
      decreases t.extents[node].height
    {
      var next := StepDown(ih, spare, node, key);
      if next.None? {
        return Astray(node);
      }
      node := next.value;
    }
    r := Arrived(node);
  }

  lemma RootIsLive(ih: IxIndexHandle, key: Key)
    requires ih.Valid()
    ensures ih.root in ih.extents && ih.root in ih.pages && Covers(ih.extents[ih.root], key)
  {
    assert ParentOk(ih.View(), ih.root);
  }

  /** Whether the whole descent stays on course depends on the rest of it, unless it is off already. */
  ghost predicate SoFar(t: Tree, spare: PageNo -> PageNo, p: PageNo, key: Key)
    requires NodesOk(t) && p in t.extents && t.root in t.extents
  {
    && (Covers(t.extents[p], key) ==> (OnCourse(t, spare, t.root, key) <==> OnCourse(t, spare, p, key)))
    && (!Covers(t.extents[p], key) ==> !OnCourse(t, spare, t.root, key))
  }

  /** One turn of the loop, on an internal page; without result if the slot names no child of the page. */
  method StepDown(ih: IxIndexHandle, spare: PageNo -> PageNo, p: PageNo, key: Key) returns (next: Option<PageNo>)
    requires ih.Valid() && p in ih.extents && p in ih.pins && p in ih.pages && !ih.pages[p].isLeaf
    requires ih.root in ih.extents && SoFar(ih.View(), spare, p, key)
    modifies ih`pins
    ensures ih.pins == old(ih.pins) - multiset{p} + if next.Some? then multiset{next.value} else multiset{}
    ensures next.Some? ==> next.value in ih.extents && next.value in ih.pages && ih.extents[next.value].height < ih.extents[p].height
    ensures next.Some? ==> SoFar(ih.View(), spare, next.value, key)
    ensures next.None? ==> LeavesChildren(ih.pages[p], spare(p), key) && !OnCourse(ih.View(), spare, ih.root, key)
  {
    assert NodeOk(ih.View(), p);
    InnerKeysAscend(ih.View(), p);
    var slot := UpperBound(ih.Page(p).keys, key);
    var rids := ih.Page(p).rids;
    var _ := ih.UnpinPage(p);
    var child := if slot == |rids| then spare(p) else rids[slot].pageNo;
    if slot == |rids| && child != rids[slot - 1].pageNo {
      return None;
    }
    OneLevelDown(ih.View(), spare, p, key, slot, child);
    ih.FetchNode(child);
    next := Some(child);
  }

  /** Past the last key, and the unused slot does not name the last child. */
  predicate LeavesChildren(n: Node, spare: PageNo, key: Key) {
    !n.isLeaf && n.keys != [] && |n.keys| == |n.rids| && n.keys[|n.keys| - 1] <= key && spare != n.rids[|n.rids| - 1].pageNo
  }

  lemma OneLevelDown(t: Tree, spare: PageNo -> PageNo, p: PageNo, key: Key, slot: nat, next: PageNo)
    requires NodesOk(t) && p in t.extents && !t.pages[p].isLeaf && slot <= |t.pages[p].rids| == |t.pages[p].keys|
    requires slot == 0 <==> forall i :: 0 <= i < |t.pages[p].keys| ==> key < t.pages[p].keys[i]
    requires t.pages[p].keys != [] && (slot == |t.pages[p].keys| <==> t.pages[p].keys[|t.pages[p].keys| - 1] <= key)
    requires slot < |t.pages[p].keys| ==> key < t.pages[p].keys[slot]
    requires next == if slot == |t.pages[p].rids| then spare(p) else t.pages[p].rids[slot].pageNo
    requires slot == |t.pages[p].rids| ==> next == t.pages[p].rids[slot - 1].pageNo
    ensures next in t.extents && next in t.pages && t.extents[next].height < t.extents[p].height
    ensures Covers(t.extents[next], key) ==> Covers(t.extents[p], key)
    ensures Covers(t.extents[p], key) && Covers(t.extents[next], key) ==> (OnCourse(t, spare, p, key) <==> OnCourse(t, spare, next, key))
    ensures Covers(t.extents[p], key) && !Covers(t.extents[next], key) ==> !OnCourse(t, spare, p, key)
  {
    assert NodeOk(t, p);
    var c := if slot == |t.pages[p].rids| then slot - 1 else slot;
    ChildFacts(t, p, c);
    ChildInside(t, p, key, c);
    if Covers(t.extents[p], key) {
      CoveringChild(t, p, key, c);
    }
  }

  /**
   A concrete page with two children: the key 1 is the smallest of the index and lives under slot
   0, but the only slot that meets what UpperBound promises is slot 1, whose child starts at 3.
   */
  lemma DescentMisses()
    ensures ResponsibleSlot([1, 3], 1, 0) && !ResponsibleSlot([1, 3], 1, 1)
    ensures forall l: nat :: l <= 2 && (l > 0 ==> [1, 3][l - 1] <= 1) && (l < 2 ==> 1 < [1, 3][l]) ==> l == 1
  {
    assert [1, 3][0] == 1 && [1, 3][1] == 3;
  }
}
