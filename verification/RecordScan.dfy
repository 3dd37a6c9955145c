/** The scan of a record file (src/record/rm_scan.cpp). */
module RecordScan {
  import opened TreeShape
  import opened Bitmap
  import opened RecordPage
  import opened RecordState
  import opened RecordFile

  const END: Rid := Rid(RM_NO_PAGE, -1)

  predicate Before(a: Rid, b: Rid) {
    a.pageNo < b.pageNo || (a.pageNo == b.pageNo && a.slotNo < b.slotNo)
  }

  /** No live record lies after `a` and up to `b`. */
  ghost predicate NoneUpTo(f: File, a: Rid, b: Rid)
    requires PagesSized(f)
  {
    forall q: Rid :: LiveAt(f, q) && Before(a, q) ==> Before(b, q)
  }

  /** `q` is the first live record after `a`, or the end when there is none. */
  ghost predicate FirstAfter(f: File, a: Rid, q: Rid)
    requires PagesSized(f)
  {
    if q == END then forall x: Rid :: LiveAt(f, x) ==> !Before(a, x)
    else LiveAt(f, q) && Before(a, q) && forall x: Rid :: LiveAt(f, x) && Before(a, x) ==> x == q || Before(q, x)
  }

  /** All live records, each once, in page and slot order. */
  ghost predicate Enumerates(f: File, rids: seq<Rid>)
    requires PagesSized(f)
  {
    && (forall i, j :: 0 <= i < j < |rids| ==> Before(rids[i], rids[j]))
    && (forall r: Rid :: r in rids <==> LiveAt(f, r))
  }

  lemma NoneOnPage(f: File, a: Rid, p: int, s: int)
    requires PagesSized(f) && NoneUpTo(f, a, Rid(p, s))
    requires forall q: Rid :: LiveAt(f, q) && q.pageNo == p ==> q.slotNo <= s
    ensures NoneUpTo(f, a, Rid(p + 1, -1))
  {
    forall q: Rid | LiveAt(f, q) && Before(a, q) ensures Before(Rid(p + 1, -1), q) {
      assert Before(Rid(p, s), q);
    }
  }

  lemma FoundOnPage(f: File, a: Rid, p: int, s: int, t: nat)
    requires PagesSized(f) && NoneUpTo(f, a, Rid(p, s)) && (a == Rid(p, s) || Before(a, Rid(p, s)))
    requires LiveAt(f, Rid(p, t)) && s < t
    requires forall q: Rid :: LiveAt(f, q) && q.pageNo == p && s < q.slotNo ==> t <= q.slotNo
    ensures FirstAfter(f, a, Rid(p, t))
  {
    forall x: Rid | LiveAt(f, x) && Before(a, x) ensures x == Rid(p, t) || Before(Rid(p, t), x) {
      assert Before(Rid(p, s), x);
    }
  }

  class RmScan {
    const file: RmFileHandle
    var rid: Rid

    constructor (file: RmFileHandle)
      requires file.Valid()
      modifies file`pins
      ensures this.file == file && file.Valid() && file.State() == old(file.State()) && file.pins == old(file.pins)
      ensures FirstAfter(file.State(), Rid(0, 0), rid)
    {
      this.file := file;
      rid := Rid(1, -1);
      new;
      file.Untouched();
      assert forall q: Rid :: LiveAt(file.State(), q) ==> Before(Rid(1, -1), q) && Before(Rid(0, 0), q);
      if rid.pageNo >= file.hdr.numPages {
        rid := END;
        file.Untouched();
        return;
      }
      Next();
    }

    predicate IsEnd()
      reads this
    {
      rid.pageNo == RM_NO_PAGE
    }

    /** Moves to the first live record after the current position. */
    method Next()
      requires file.Valid() && 1 <= rid.pageNo && -1 <= rid.slotNo
      modifies this`rid, file`pins
      ensures file.Valid() && file.State() == old(file.State()) && file.pins == old(file.pins)
      ensures FirstAfter(file.State(), old(rid), rid)
    {
      ghost var f, from := file.State(), rid;
      while rid.pageNo < file.hdr.numPages
        invariant file.Valid() && file.State() == f && file.pins == old(file.pins)
        invariant 1 <= rid.pageNo && -1 <= rid.slotNo
        invariant from == rid || Before(from, rid)
        invariant NoneUpTo(f, from, rid)
        decreases file.hdr.numPages - rid.pageNo
      {
        var slotNo := NextOnPage(rid.pageNo, rid.slotNo);
        if slotNo < file.hdr.recordsPerPage {
          FoundOnPage(f, from, rid.pageNo, rid.slotNo, slotNo);
          rid := rid.(slotNo := slotNo);
          file.Untouched();
          return;
        }
        NoneOnPage(f, from, rid.pageNo, rid.slotNo);
        rid := Rid(rid.pageNo + 1, -1);
        file.Untouched();
      }
      rid := END;
      file.Untouched();
    }

    /** The first live slot of a page after `slotNo`, or the number of slots. */
    method NextOnPage(pageNo: int, slotNo: int) returns (s: nat)
      requires file.Valid() && 1 <= pageNo < file.hdr.numPages && -1 <= slotNo
      modifies file`pins
      ensures file.Valid() && file.State() == old(file.State()) && file.pins == old(file.pins)
      ensures s <= file.hdr.recordsPerPage
      ensures s < file.hdr.recordsPerPage ==> LiveAt(file.State(), Rid(pageNo, s)) && slotNo < s
      ensures forall q: Rid :: LiveAt(file.State(), q) && q.pageNo == pageNo && slotNo < q.slotNo ==> s <= q.slotNo
    {
      ghost var f := file.State();
      assert pageNo in f.pages;
      var page := file.FetchPageHandle(pageNo);
      var data := page.value.data;
      assert f.pages[pageNo].data == data[..];
      s := Bitmap.NextBit(true, data, BITMAP_START, file.hdr.recordsPerPage, slotNo);
      file.UnpinPage(pageNo);
      file.Untouched();
    }
  }

  /** A scan of an unchanged file ends, having met every live record once, in order. */
  method ScanAll(file: RmFileHandle) returns (rids: seq<Rid>)
    requires file.Valid()
    modifies file`pins
    ensures file.Valid() && file.State() == old(file.State()) && file.pins == old(file.pins)
    ensures Enumerates(file.State(), rids)
  {
    ghost var f := file.State();
    var scan := new RmScan(file);
    rids := [];
    while !scan.IsEnd()
      invariant fresh(scan) && scan.file == file && file.Valid() && file.State() == f && file.pins == old(file.pins)
      invariant FirstAfter(f, LastOr(rids, Rid(0, 0)), scan.rid)
      invariant Collected(f, rids)
      decreases if scan.IsEnd() then 0 else file.hdr.numPages - scan.rid.pageNo, file.hdr.recordsPerPage - scan.rid.slotNo
    {
      CollectOne(f, rids, scan.rid);
      rids := rids + [scan.rid];
      scan.Next();
    }
    assert forall q: Rid :: LiveAt(f, q) ==> Before(Rid(0, 0), q);
  }

  function LastOr(rids: seq<Rid>, r: Rid): Rid {
    if rids == [] then r else rids[|rids| - 1]
  }

  /** `rids` are the live records up to the last of them, in order. */
  ghost predicate Collected(f: File, rids: seq<Rid>)
    requires PagesSized(f)
  {
    && (forall i, j :: 0 <= i < j < |rids| ==> Before(rids[i], rids[j]))
    && (forall r: Rid :: r in rids <==> LiveAt(f, r) && !Before(LastOr(rids, Rid(0, 0)), r))
  }

  lemma CollectOne(f: File, rids: seq<Rid>, r: Rid)
    requires PagesSized(f) && Collected(f, rids)
    requires LiveAt(f, r) && FirstAfter(f, LastOr(rids, Rid(0, 0)), r)
    ensures Collected(f, rids + [r])
  {
  }
}
