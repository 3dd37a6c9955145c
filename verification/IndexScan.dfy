/** The scan along the leaf chain from leaf_begin to leaf_end. */
module IndexScan {
  import opened TreeShape
  import opened TreeSplit
  import opened TreeContents
  import opened TreeSizes
  import opened TreeShrink
  import opened IndexNode
  import opened IndexHandle

  datatype Iid = Iid(pageNo: PageNo, slotNo: int)

  /** Slot i of leaf number j: an entry, or the end of the last leaf. */
  ghost predicate Position(t: Tree, at: Iid, j: nat) {
    && j < |t.leaves| && at.pageNo == t.leaves[j] && at.pageNo in t.pages
    && 0 <= at.slotNo <= |t.pages[at.pageNo].keys| == |t.pages[at.pageNo].rids|
    && (j + 1 < |t.leaves| ==> at.slotNo < |t.pages[at.pageNo].keys|)
  }

  /** The entries from a position of the scan on. */
  ghost function Ahead(t: Tree, at: Iid, j: nat): seq<Entry>
    requires Position(t, at, j)
  {
    PageEntries(t.pages, at.pageNo)[at.slotNo..] + Flatten(t.pages, t.leaves[j + 1..])
  }

  /** All leaves but the last hold entries. */
  lemma LeafNotEmpty(t: Tree, max: nat, j: nat)
    requires WellFormed(t) && SizesOk(t, max, NO_PAGE) && max >= 4 && j < |t.leaves|
    ensures t.leaves[j] in t.extents && t.leaves[j] in t.pages
    ensures |t.pages[t.leaves[j]].keys| == |t.pages[t.leaves[j]].rids|
    ensures |t.leaves| > 1 ==> t.pages[t.leaves[j]].keys != []
  {
    assert Listed(t, t.leaves[j]) && NodeOk(t, t.leaves[j]) && SizeOk(t, max, t.leaves[j]);
    if |t.leaves| > 1 && t.leaves[j] == t.root {
      EmptyRoot(t);
    }
  }

  lemma AheadAtBegin(t: Tree, max: nat)
    requires WellFormed(t) && SizesOk(t, max, NO_PAGE) && max >= 4
    ensures Position(t, Iid(INIT_ROOT_PAGE, 0), 0) && Ahead(t, Iid(INIT_ROOT_PAGE, 0), 0) == Entries(t)
  {
    LeafNotEmpty(t, max, 0);
    assert Entries(t) == PageEntries(t.pages, t.leaves[0]) + Flatten(t.pages, t.leaves[1..]);
  }

  /** One step of the scan consumes the first entry ahead. */
  lemma AheadStep(t: Tree, at: Iid, j: nat, to: Iid, j': nat, max: nat)
    requires WellFormed(t) && SizesOk(t, max, NO_PAGE) && max >= 4 && Position(t, at, j)
    requires at.slotNo < |t.pages[at.pageNo].keys|
    requires if j + 1 < |t.leaves| && at.slotNo + 1 == |t.pages[at.pageNo].keys|
             then j' == j + 1 && to == Iid(t.leaves[j + 1], 0) else j' == j && to == Iid(at.pageNo, at.slotNo + 1)
    ensures Position(t, to, j') && Ahead(t, at, j) != [] && Ahead(t, to, j') == Ahead(t, at, j)[1..]
    ensures Ahead(t, at, j)[0].1 == t.pages[at.pageNo].rids[at.slotNo]
  {
    var es := PageEntries(t.pages, at.pageNo);
    assert es[at.slotNo..] == [es[at.slotNo]] + es[at.slotNo + 1..];
    if j' == j + 1 {
      LeafNotEmpty(t, max, j + 1);
      assert es[at.slotNo + 1..] == [];
      assert t.leaves[j + 1..][1..] == t.leaves[j + 2..];
      assert Ahead(t, to, j') == Flatten(t.pages, t.leaves[j + 1..]);
    }
  }

  /** Leaf number j points to leaf number j + 1, and is the last leaf only if it comes last. */
  lemma NextLeaf(t: Tree, j: nat)
    requires WellFormed(t) && j < |t.leaves|
    ensures t.leaves[j] in t.pages
    ensures j + 1 < |t.leaves| ==> t.pages[t.leaves[j]].next == t.leaves[j + 1]
    ensures t.leaves[j] == t.leaves[|t.leaves| - 1] <==> j + 1 == |t.leaves|
  {
    assert LinkOk(t.pages, t.leaves, j);
    Once(t.leaves, j, |t.leaves| - 1);
  }

  /** The rids of a sequence of entries, in its order. */
  function Rids(es: seq<Entry>): (rids: seq<Rid>)
    ensures |rids| == |es| && forall i :: 0 <= i < |rids| ==> rids[i] == es[i].1
  {
    seq(|es|, i requires 0 <= i < |es| => es[i].1)
  }

  lemma RidsStep(done: seq<Rid>, es: seq<Entry>)
    requires es != []
    ensures done + Rids(es) == done + [es[0].1] + Rids(es[1..])
  {
  }

  class IxScan {
    const ih: IxIndexHandle
    const end: Iid
    var iid: Iid
    ghost var leaf: nat

    /** A scan over the whole index: from the first slot of first_leaf to behind the last slot of last_leaf. */
    constructor (ih: IxIndexHandle)
      requires ih.Valid()
      ensures this.ih == ih && Valid() && Remaining() == ih.Contents()
    {
      this.ih := ih;
      iid := Iid(ih.firstLeaf, 0);
      end := Iid(ih.lastLeaf, if ih.lastLeaf in ih.pages then |ih.pages[ih.lastLeaf].keys| else 0);
      leaf := 0;
      new;
      AheadAtBegin(ih.View(), ih.maxSize);
      LeafNotEmpty(ih.View(), ih.maxSize, |ih.leaves| - 1);
    }

    ghost predicate Valid()
      reads this, ih
    {
      && ih.Valid() && Position(ih.View(), iid, leaf)
      && ih.lastLeaf in ih.pages && end == Iid(ih.lastLeaf, |ih.pages[ih.lastLeaf].keys|)
    }

    ghost function Remaining(): seq<Entry>
      requires Valid()
      reads this, ih
    {
      Ahead(ih.View(), iid, leaf)
    }

    predicate IsEnd()
      reads this
    {
      iid == end
    }

    /** The scan has ended exactly when no entry is left. */
    lemma EndIffNothingLeft()
      requires Valid()
      ensures IsEnd() <==> Remaining() == []
      ensures !IsEnd() ==> iid.slotNo < |ih.pages[iid.pageNo].keys|
    {
      var t := ih.View();
      if leaf + 1 < |t.leaves| {
        Once(t.leaves, leaf, |t.leaves| - 1);
        assert PageEntries(t.pages, iid.pageNo)[iid.slotNo..] != [];
      } else {
        assert t.leaves[leaf + 1..] == [];
      }
    }

    /** The page fetched here is not unpinned: every step leaves one pin behind. */
    method Next()
      requires Valid() && !IsEnd()
      modifies this`iid, this`leaf, ih`pins
      ensures Valid() && old(Remaining()) != [] && Remaining() == old(Remaining())[1..]
      ensures ih.pins == old(ih.pins) + multiset{old(iid).pageNo}
    {
      EndIffNothingLeft();
      ghost var t, at, j := ih.View(), iid, leaf;
      NextLeaf(t, leaf);
      ih.FetchNode(iid.pageNo);
      var node := ih.Page(iid.pageNo);
      iid := Iid(iid.pageNo, iid.slotNo + 1);
      if iid.pageNo != ih.lastLeaf && iid.slotNo == |node.keys| {
        iid := Iid(node.next, 0);
        leaf := leaf + 1;
      }
      AheadStep(t, at, j, iid, leaf, ih.maxSize);
    }

    /** get_rid: past the last slot of a page there is no entry. */
    method GetRid() returns (rid: Option<Rid>)
      requires Valid()
      ensures rid == if Remaining() == [] then None else Some(Remaining()[0].1)
    {
      EndIffNothingLeft();
      var node := ih.pages[iid.pageNo];
      rid := if iid.slotNo >= |node.keys| then None else Some(node.rids[iid.slotNo]);
      if rid.Some? {
        assert PageEntries(ih.pages, iid.pageNo)[iid.slotNo..][0] == (node.keys[iid.slotNo], node.rids[iid.slotNo]);
      }
    }

    /** Runs the scan to its end. */
    method Drain() returns (rids: seq<Rid>)
      requires Valid()
      modifies this`iid, this`leaf, ih`pins
      ensures rids == Rids(old(Remaining()))
    {
      ghost var all := Rids(Remaining());
      rids := [];
      while !IsEnd()
        invariant Valid() && all == rids + Rids(Remaining())
        decreases |Remaining()|
      {
        EndIffNothingLeft();
        RidsStep(rids, Remaining());
        var rid := GetRid();
        rids := rids + [rid.value];
        Next();
      }
      EndIffNothingLeft();
    }
  }

  /** Scanning from leaf_begin to leaf_end yields the rid of every entry once, in ascending key order. */
  method ScanAll(ih: IxIndexHandle) returns (rids: seq<Rid>)
    requires ih.Valid()
    modifies ih`pins
    ensures rids == Rids(ih.Contents()) && Sorted(ih.Contents())
  {
    EntriesSorted(ih.View());
    var scan := new IxScan(ih);
    rids := scan.Drain();
  }
}
