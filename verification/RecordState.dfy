/**
 What a record file is as a value: its pages implement a finite map from record ids
 to records, and the pages with room are linked into the free list.
 */
module RecordState {
  import opened TreeShape
  import opened Bitmap
  import opened RecordPage

  datatype File = File(hdr: Header, pages: map<int, PageValue>)

  predicate HasSlot(f: File, r: Rid) {
    r.pageNo in f.pages && 0 <= r.slotNo < f.hdr.recordsPerPage
  }

  ghost predicate PagesSized(f: File) {
    LaidOut(f.hdr) && forall p :: p in f.pages ==> Sized(f.hdr, f.pages[p])
  }

  predicate LiveAt(f: File, r: Rid)
    requires LaidOut(f.hdr) && (r.pageNo in f.pages ==> Sized(f.hdr, f.pages[r.pageNo]))
  {
    HasSlot(f, r) && Live(f.hdr, f.pages[r.pageNo], r.slotNo)
  }

  function RecordAt(f: File, r: Rid): seq<byte>
    requires HasSlot(f, r) && Sized(f.hdr, f.pages[r.pageNo])
  {
    Record(f.hdr, f.pages[r.pageNo], r.slotNo)
  }

  /** The map the file stands for. */
  ghost function Records(f: File): imap<Rid, seq<byte>>
    requires PagesSized(f)
  {
    imap r: Rid | LiveAt(f, r) :: RecordAt(f, r)
  }

  // ---------------------------------------------------------------- the free list

  function HeadFrom(chain: seq<int>, i: nat): int {
    if i < |chain| then chain[i] else RM_NO_PAGE
  }

  predicate LinkOk(f: File, chain: seq<int>, i: nat) {
    i < |chain| ==> chain[i] in f.pages && f.pages[chain[i]].nextFree == HeadFrom(chain, i + 1)
  }

  predicate NotFull(f: File, p: int) {
    p in f.pages && f.pages[p].numRecords < f.hdr.recordsPerPage
  }

  /** The list has no cycle and no repetition, and holds exactly the pages that are not full. */
  ghost predicate FreeListOk(f: File, chain: seq<int>) {
    && f.hdr.firstFree == HeadFrom(chain, 0)
    && (forall i, j :: 0 <= i < j < |chain| ==> chain[i] != chain[j])
    && (forall i: nat :: LinkOk(f, chain, i))
    && (forall p :: p in chain <==> NotFull(f, p))
  }

  ghost predicate FileOk(f: File, chain: seq<int>) {
    && LaidOut(f.hdr) && 1 <= f.hdr.numPages
    && (forall p :: p in f.pages <==> 1 <= p < f.hdr.numPages)
    && (forall p :: p in f.pages ==> PageOk(f.hdr, f.pages[p]))
    && FreeListOk(f, chain)
  }

  lemma EmptyFileOk(recordSize: int)
    requires CreateFile(recordSize).Opened?
    ensures var f := File(CreateFile(recordSize).hdr, map[]); FileOk(f, []) && Records(f) == imap[]
  {
    CreatedFileIsLaidOut(recordSize);
  }

  /** Following the links from the header gives the list: there is only one. */
  lemma FreeListUnique(f: File, a: seq<int>, b: seq<int>)
    requires FreeListOk(f, a) && FreeListOk(f, b) && RM_NO_PAGE !in f.pages
    ensures a == b
  {
    forall i: nat ensures HeadFrom(a, i) == HeadFrom(b, i) {
      SameLinks(f, a, b, i);
    }
    assert LinkOk(f, a, |b|) && LinkOk(f, b, |a|);
    assert HeadFrom(a, |b|) == HeadFrom(b, |b|) && HeadFrom(b, |a|) == HeadFrom(a, |a|);
    assert |a| == |b|;
    assert forall i :: 0 <= i < |a| ==> a[i] == HeadFrom(a, i) == HeadFrom(b, i) == b[i];
  }

  lemma {:induction false} SameLinks(f: File, a: seq<int>, b: seq<int>, i: nat)
    requires FreeListOk(f, a) && FreeListOk(f, b) && RM_NO_PAGE !in f.pages
    ensures HeadFrom(a, i) == HeadFrom(b, i)
  {
    if i > 0 {
      SameLinks(f, a, b, i - 1);
      assert LinkOk(f, a, i - 1) && LinkOk(f, b, i - 1);
    }
  }

  // ---------------------------------------------------------------- the changes of the operations

  function WithPage(f: File, p: int, v: PageValue): File {
    f.(pages := f.pages[p := v])
  }

  /** insert_record once it has its page and slot. */
  function Inserted(f: File, r: Rid, buf: seq<byte>): File
    requires HasSlot(f, r) && Sized(f.hdr, f.pages[r.pageNo]) && |buf| == f.hdr.recordSize
  {
    var v := Filled(f.hdr, f.pages[r.pageNo], r.slotNo, buf);
    var g := WithPage(f, r.pageNo, v);
    if v.numRecords == f.hdr.recordsPerPage then g.(hdr := f.hdr.(firstFree := v.nextFree)) else g
  }

  function Deleted(f: File, r: Rid): File
    requires HasSlot(f, r) && Sized(f.hdr, f.pages[r.pageNo])
  {
    var v := Emptied(f.hdr, f.pages[r.pageNo], r.slotNo);
    if v.numRecords == f.hdr.recordsPerPage - 1 then
      WithPage(f, r.pageNo, v.(nextFree := f.hdr.firstFree)).(hdr := f.hdr.(firstFree := r.pageNo))
    else
      WithPage(f, r.pageNo, v)
  }

  function Updated(f: File, r: Rid, buf: seq<byte>): File
    requires HasSlot(f, r) && Sized(f.hdr, f.pages[r.pageNo]) && |buf| == f.hdr.recordSize
  {
    WithPage(f, r.pageNo, Put(f.hdr, f.pages[r.pageNo], r.slotNo, buf))
  }

  /** A new page with nothing in it; it becomes the whole free list. */
  function Grown(f: File, data: seq<byte>): File {
    File(f.hdr.(numPages := f.hdr.numPages + 1, firstFree := f.hdr.numPages),
         f.pages[f.hdr.numPages := PageValue(RM_NO_PAGE, 0, data)])
  }

  function ChainAfterInsert(f: File, chain: seq<int>, r: Rid): seq<int>
    requires r.pageNo in f.pages
  {
    if f.pages[r.pageNo].numRecords + 1 == f.hdr.recordsPerPage && chain != [] then chain[1..] else chain
  }

  function ChainAfterDelete(f: File, chain: seq<int>, r: Rid): seq<int>
    requires r.pageNo in f.pages
  {
    if f.pages[r.pageNo].numRecords == f.hdr.recordsPerPage then [r.pageNo] + chain else chain
  }

  // ---------------------------------------------------------------- what they do to the map

  /** The header fields that the layout of a page depends on. */
  predicate SameLayout(h: Header, k: Header) {
    k == h.(numPages := k.numPages, firstFree := k.firstFree)
  }

  lemma LayoutOnly(h: Header, k: Header, p: PageValue, s: nat)
    requires SameLayout(h, k) && Sized(h, p)
    ensures Sized(k, p)
    ensures Live(k, p, s) <==> Live(h, p, s)
    ensures s < h.recordsPerPage ==> Record(k, p, s) == Record(h, p, s)
  {
  }

  lemma PageOkLayoutOnly(h: Header, k: Header, p: PageValue)
    requires SameLayout(h, k) && PageOk(h, p)
    ensures PageOk(k, p)
  {
    assert LiveSlots(k, p) == LiveSlots(h, p);
  }

  lemma InsertedRecords(f: File, r: Rid, buf: seq<byte>)
    requires PagesSized(f) && HasSlot(f, r) && |buf| == f.hdr.recordSize
    ensures PagesSized(Inserted(f, r, buf))
    ensures Records(Inserted(f, r, buf)) == Records(f)[r := buf]
  {
    var g := Inserted(f, r, buf);
    forall q: Rid | HasSlot(f, q)
      ensures LiveAt(g, q) <==> q == r || LiveAt(f, q)
      ensures RecordAt(g, q) == if q == r then buf else RecordAt(f, q)
    {
      LayoutOnly(f.hdr, g.hdr, g.pages[q.pageNo], q.slotNo);
      if q.pageNo == r.pageNo {
        FilledChangesOneSlot(f.hdr, f.pages[r.pageNo], r.slotNo, buf, q.slotNo);
      }
    }
    assert forall q: Rid :: LiveAt(g, q) ==> HasSlot(f, q);
  }

  lemma DeletedAt(f: File, r: Rid, q: Rid)
    requires PagesSized(f) && HasSlot(f, r) && HasSlot(f, q)
    ensures PagesSized(Deleted(f, r)) && HasSlot(Deleted(f, r), q)
    ensures LiveAt(Deleted(f, r), q) <==> q != r && LiveAt(f, q)
    ensures RecordAt(Deleted(f, r), q) == RecordAt(f, q)
  {
    var g := Deleted(f, r);
    LayoutOnly(f.hdr, g.hdr, g.pages[q.pageNo], q.slotNo);
    if q.pageNo == r.pageNo {
      EmptiedChangesOneSlot(f.hdr, f.pages[r.pageNo], r.slotNo, q.slotNo);
    }
  }

  lemma DeletedRecords(f: File, r: Rid)
    requires PagesSized(f) && HasSlot(f, r)
    ensures PagesSized(Deleted(f, r))
    ensures Records(Deleted(f, r)) == Records(f) - {r}
  {
    var g := Deleted(f, r);
    forall q: Rid | HasSlot(f, q)
      ensures LiveAt(g, q) <==> q != r && LiveAt(f, q)
      ensures RecordAt(g, q) == RecordAt(f, q)
    {
      DeletedAt(f, r, q);
    }
    assert forall q: Rid :: LiveAt(g, q) ==> HasSlot(f, q);
  }

  lemma UpdatedRecords(f: File, r: Rid, buf: seq<byte>)
    requires PagesSized(f) && HasSlot(f, r) && |buf| == f.hdr.recordSize
    ensures PagesSized(Updated(f, r, buf))
    ensures Records(Updated(f, r, buf)) == if LiveAt(f, r) then Records(f)[r := buf] else Records(f)
  {
    var g := Updated(f, r, buf);
    forall q: Rid | HasSlot(f, q)
      ensures LiveAt(g, q) <==> LiveAt(f, q)
      ensures RecordAt(g, q) == if q == r then buf else RecordAt(f, q)
    {
      if q.pageNo == r.pageNo {
        PutChangesOneSlot(f.hdr, f.pages[r.pageNo], r.slotNo, buf, q.slotNo);
      }
    }
    assert forall q: Rid :: LiveAt(g, q) ==> HasSlot(f, q);
  }

  ghost predicate NoRecords(h: Header, data: seq<byte>) {
    Sized(h, PageValue(RM_NO_PAGE, 0, data)) && forall s: nat :: !Live(h, PageValue(RM_NO_PAGE, 0, data), s)
  }

  lemma GrownRecords(f: File, data: seq<byte>)
    requires PagesSized(f) && NoRecords(f.hdr, data) && f.hdr.numPages !in f.pages
    ensures PagesSized(Grown(f, data))
    ensures Records(Grown(f, data)) == Records(f)
  {
    var g := Grown(f, data);
    forall q: Rid | HasSlot(g, q)
      ensures LiveAt(g, q) <==> LiveAt(f, q)
      ensures LiveAt(f, q) ==> RecordAt(g, q) == RecordAt(f, q)
    {
      LayoutOnly(f.hdr, g.hdr, g.pages[q.pageNo], q.slotNo);
    }
    assert forall q: Rid :: LiveAt(f, q) ==> HasSlot(g, q);
  }

  // ---------------------------------------------------------------- what they keep

  lemma InsertedOk(f: File, chain: seq<int>, r: Rid, buf: seq<byte>)
    requires FileOk(f, chain) && HasSlot(f, r) && !LiveAt(f, r) && |buf| == f.hdr.recordSize
    requires r.pageNo == f.hdr.firstFree
    ensures FileOk(Inserted(f, r, buf), ChainAfterInsert(f, chain, r))
  {
    var g, c := Inserted(f, r, buf), ChainAfterInsert(f, chain, r);
    FilledOk(f.hdr, f.pages[r.pageNo], r.slotNo, buf);
    forall p | p in g.pages ensures PageOk(g.hdr, g.pages[p]) {
      PageOkLayoutOnly(f.hdr, g.hdr, g.pages[p]);
    }
    InsertedFreeList(f, chain, r, buf);
  }

  lemma InsertedFreeList(f: File, chain: seq<int>, r: Rid, buf: seq<byte>)
    requires FreeListOk(f, chain) && HasSlot(f, r) && |buf| == f.hdr.recordSize
    requires Sized(f.hdr, f.pages[r.pageNo]) && RM_NO_PAGE !in f.pages
    requires r.pageNo == f.hdr.firstFree
    ensures FreeListOk(Inserted(f, r, buf), ChainAfterInsert(f, chain, r))
  {
    var g, c := Inserted(f, r, buf), ChainAfterInsert(f, chain, r);
    assert chain != [] && chain[0] == r.pageNo;
    assert LinkOk(f, chain, 0);
    var d := |chain| - |c|;
    forall i: nat ensures LinkOk(g, c, i) {
      assert LinkOk(f, chain, i + d);
    }
    forall p ensures p in c <==> NotFull(g, p) {
      assert p in chain <==> NotFull(f, p);
      assert p in chain <==> p == chain[0] || p in chain[1..];
    }
  }

  lemma DeletedOk(f: File, chain: seq<int>, r: Rid)
    requires FileOk(f, chain) && LiveAt(f, r)
    ensures FileOk(Deleted(f, r), ChainAfterDelete(f, chain, r))
  {
    var g := Deleted(f, r);
    var page := f.pages[r.pageNo];
    EmptiedOk(f.hdr, page, r.slotNo);
    forall p | p in g.pages ensures PageOk(g.hdr, g.pages[p]) {
      if p == r.pageNo {
        PageOkHeaderOnly(f.hdr, Emptied(f.hdr, page, r.slotNo), g.pages[p]);
      }
      PageOkLayoutOnly(f.hdr, g.hdr, g.pages[p]);
    }
    FullIffNoFreeSlot(f.hdr, page);
    DeletedFreeList(f, chain, r);
  }

  lemma PageOkHeaderOnly(h: Header, p: PageValue, q: PageValue)
    requires PageOk(h, p) && q == p.(nextFree := q.nextFree)
    ensures PageOk(h, q)
  {
    assert LiveSlots(h, q) == LiveSlots(h, p);
  }

  lemma DeletedFreeList(f: File, chain: seq<int>, r: Rid)
    requires FreeListOk(f, chain) && HasSlot(f, r) && Sized(f.hdr, f.pages[r.pageNo])
    requires f.pages[r.pageNo].numRecords <= f.hdr.recordsPerPage
    ensures FreeListOk(Deleted(f, r), ChainAfterDelete(f, chain, r))
  {
    var g, c := Deleted(f, r), ChainAfterDelete(f, chain, r);
    assert r.pageNo in chain <==> NotFull(f, r.pageNo);
    var d := |c| - |chain|;
    forall i: nat ensures LinkOk(g, c, i) {
      if i >= d {
        assert LinkOk(f, chain, i - d);
      }
    }
    forall p ensures p in c <==> NotFull(g, p) {
      assert p in chain <==> NotFull(f, p);
    }
  }

  /**
   Deleting a record that is not there breaks the file: the count no longer
   matches the bitmap, whatever the free list.
   */
  lemma DeleteNeedsLive(f: File, chain: seq<int>, r: Rid)
    requires FileOk(f, chain) && HasSlot(f, r)
    ensures LiveAt(f, r) <==> exists c: seq<int> :: FileOk(Deleted(f, r), c)
  {
    if LiveAt(f, r) {
      DeletedOk(f, chain, r);
    } else {
      var g := Deleted(f, r);
      var e := Emptied(f.hdr, f.pages[r.pageNo], r.slotNo);
      EmptiedOk(f.hdr, f.pages[r.pageNo], r.slotNo);
      forall c: seq<int> ensures !FileOk(g, c) {
        if PageOk(g.hdr, g.pages[r.pageNo]) {
          PageOkLayoutOnly(g.hdr, f.hdr, g.pages[r.pageNo]);
          PageOkHeaderOnly(f.hdr, g.pages[r.pageNo], e);
        }
      }
    }
  }

  lemma UpdatedOk(f: File, chain: seq<int>, r: Rid, buf: seq<byte>)
    requires FileOk(f, chain) && HasSlot(f, r) && |buf| == f.hdr.recordSize
    ensures FileOk(Updated(f, r, buf), chain)
  {
    var g := Updated(f, r, buf);
    PutOk(f.hdr, f.pages[r.pageNo], r.slotNo, buf);
    forall i: nat ensures LinkOk(g, chain, i) {
      assert LinkOk(f, chain, i);
    }
    forall p ensures p in chain <==> NotFull(g, p) {
      assert p in chain <==> NotFull(f, p);
    }
  }

  lemma GrownOk(f: File, data: seq<byte>)
    requires FileOk(f, []) && NoRecords(f.hdr, data)
    ensures FileOk(Grown(f, data), [f.hdr.numPages])
  {
    var g := Grown(f, data);
    var c := [f.hdr.numPages];
    assert LiveSlots(f.hdr, PageValue(RM_NO_PAGE, 0, data)) == {};
    forall p | p in g.pages ensures PageOk(g.hdr, g.pages[p]) {
      PageOkLayoutOnly(f.hdr, g.hdr, g.pages[p]);
    }
    forall p ensures p in c <==> NotFull(g, p) {
      var none: seq<int> := [];
      assert p in none <==> NotFull(f, p);
    }
  }

  /** create_page_handle: a page is added only when none has room. */
  function Readied(f: File, data: seq<byte>): File {
    if f.hdr.firstFree == RM_NO_PAGE then Grown(f, data) else f
  }

  function ChainReadied(f: File, chain: seq<int>): seq<int> {
    if f.hdr.firstFree == RM_NO_PAGE then [f.hdr.numPages] else chain
  }

  /** Afterwards the first page of the free list has room, and no record has changed. */
  lemma ReadiedOk(f: File, chain: seq<int>, data: seq<byte>)
    requires FileOk(f, chain) && NoRecords(f.hdr, data)
    ensures FileOk(Readied(f, data), ChainReadied(f, chain))
    ensures NotFull(Readied(f, data), Readied(f, data).hdr.firstFree)
    ensures PagesSized(f) && PagesSized(Readied(f, data)) && Records(Readied(f, data)) == Records(f)
  {
    assert LinkOk(f, chain, 0);
    if f.hdr.firstFree == RM_NO_PAGE {
      assert chain == [];
      GrownOk(f, data);
      GrownRecords(f, data);
      assert LinkOk(Grown(f, data), [f.hdr.numPages], 0);
    }
  }

  lemma InsertOk(f: File, chain: seq<int>, r: Rid, buf: seq<byte>, g: File, newChain: seq<int>)
    requires FileOk(f, chain) && |buf| == f.hdr.recordSize
    requires HasSlot(f, r) && !LiveAt(f, r) && r.pageNo == f.hdr.firstFree
    requires g == Inserted(f, r, buf) && newChain == ChainAfterInsert(f, chain, r)
    ensures FileOk(g, newChain) && SameLayout(f.hdr, g.hdr)
    ensures PagesSized(f) && r !in Records(f)
    ensures PagesSized(g) && Records(g) == Records(f)[r := buf]
  {
    InsertedRecords(f, r, buf);
    InsertedOk(f, chain, r, buf);
  }

  /** delete_record as a whole. */
  lemma DeleteOk(f: File, chain: seq<int>, r: Rid, g: File, newChain: seq<int>)
    requires FileOk(f, chain) && HasSlot(f, r)
    requires g == Deleted(f, r) && newChain == ChainAfterDelete(f, chain, r)
    ensures FileOk(g, newChain) <==> LiveAt(f, r)
    ensures SameLayout(f.hdr, g.hdr)
    ensures PagesSized(f) && PagesSized(g) && Records(g) == Records(f) - {r}
  {
    DeletedRecords(f, r);
    DeleteNeedsLive(f, chain, r);
    if LiveAt(f, r) {
      DeletedOk(f, chain, r);
    }
  }

  lemma UpdateOk(f: File, chain: seq<int>, r: Rid, buf: seq<byte>, g: File)
    requires FileOk(f, chain) && HasSlot(f, r) && |buf| == f.hdr.recordSize
    requires g == Updated(f, r, buf)
    ensures FileOk(g, chain)
    ensures PagesSized(f) && PagesSized(g)
    ensures Records(g) == if r in Records(f) then Records(f)[r := buf] else Records(f)
  {
    UpdatedRecords(f, r, buf);
    UpdatedOk(f, chain, r, buf);
  }

  // ---------------------------------------------------------------- laws

  lemma FileOkSized(f: File, chain: seq<int>)
    requires FileOk(f, chain)
    ensures PagesSized(f)
  {
  }

  /**
   Deleting what was just inserted gives back the old records, and the slot
   and page are the next to be used again.
   */
  lemma DeleteUndoesInsert(f: File, chain: seq<int>, r: Rid, buf: seq<byte>)
    requires FileOk(f, chain) && HasSlot(f, r) && !LiveAt(f, r) && |buf| == f.hdr.recordSize
    requires r.pageNo == f.hdr.firstFree
    ensures PagesSized(Inserted(f, r, buf)) && PagesSized(Deleted(Inserted(f, r, buf), r))
    ensures Records(Deleted(Inserted(f, r, buf), r)) == Records(f)
    ensures Deleted(Inserted(f, r, buf), r).hdr.firstFree == r.pageNo
  {
    var g := Inserted(f, r, buf);
    FileOkSized(f, chain);
    InsertedRecords(f, r, buf);
    InsertedThenDeleted(f, g, r, buf);
    assert Emptied(g.hdr, g.pages[r.pageNo], r.slotNo).numRecords == f.pages[r.pageNo].numRecords;
    FullIffNoFreeSlot(f.hdr, f.pages[r.pageNo]);
  }

  lemma InsertedThenDeleted(f: File, g: File, r: Rid, buf: seq<byte>)
    requires PagesSized(f) && PagesSized(g) && HasSlot(g, r) && !LiveAt(f, r)
    requires Records(g) == Records(f)[r := buf]
    ensures PagesSized(Deleted(g, r)) && Records(Deleted(g, r)) == Records(f)
  {
    DeletedRecords(g, r);
    assert r !in Records(f);
  }
}
