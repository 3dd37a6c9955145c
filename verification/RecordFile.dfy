/**
 The record file handle (src/record/rm_file_handle.cpp).  A page is an object
 whose header fields and bytes are changed in place; a file holds its pages
 by page number.  `pins` counts, per page, the fetches not yet unpinned.
 */
module RecordFile {
  import opened TreeShape
  import opened Config
  import opened Bitmap
  import opened RecordPage
  import opened RecordState

  datatype Fetched<T> = Found(value: T) | PageNotExist

  class RmPage {
    var nextFree: int
    var numRecords: int
    const data: array<byte>

    /** What the pool hands out: bytes of the page size and nothing known of them. */
    constructor ()
      ensures data.Length == PAGE_SIZE && fresh(data)
    {
      data := new byte[PAGE_SIZE];
    }

    function Value(): PageValue
      reads this, data
    {
      PageValue(nextFree, numRecords, data[..])
    }

    method PutSlot(h: Header, s: nat, buf: seq<byte>)
      requires LaidOut(h) && data.Length == PAGE_SIZE && s < h.recordsPerPage && |buf| == h.recordSize
      modifies data
      ensures Value() == Put(h, old(Value()), s, buf)
    {
      SlotBounds(h, s);
      var at := SlotAt(h, s);
      for i := 0 to |buf|
        invariant forall j :: 0 <= j < data.Length ==>
          data[j] == if at <= j < at + i then buf[j - at] else old(data[j])
      {
        data[at + i] := buf[i];
      }
      assert data[..] == Overwritten(old(data[..]), at, buf);
    }

    method Fill(h: Header, s: nat, buf: seq<byte>)
      requires LaidOut(h) && data.Length == PAGE_SIZE && s < h.recordsPerPage && |buf| == h.recordSize
      modifies this`numRecords, data
      ensures Value() == Filled(h, old(Value()), s, buf)
    {
      PutSlot(h, s, buf);
      Bitmap.Set(data, BITMAP_START, s);
      numRecords := numRecords + 1;
    }

    method Empty(h: Header, s: nat)
      requires LaidOut(h) && data.Length == PAGE_SIZE && s < h.recordsPerPage
      modifies this`numRecords, data
      ensures Value() == Emptied(h, old(Value()), s)
    {
      Bitmap.Reset(data, BITMAP_START, s);
      numRecords := numRecords - 1;
    }

    /** create_new_page_handle's part for the page. */
    method Clear(h: Header)
      requires LaidOut(h) && data.Length == PAGE_SIZE
      modifies this, data
      ensures nextFree == RM_NO_PAGE && numRecords == 0 && NoRecords(h, data[..])
    {
      nextFree := RM_NO_PAGE;
      numRecords := 0;
      Bitmap.Init(data, BITMAP_START, h.bitmapSize);
      forall s: nat ensures !Live(h, PageValue(RM_NO_PAGE, 0, data[..]), s) {
        if s < h.recordsPerPage {
          assert data[..][BITMAP_START + s / 8] == 0;
        }
      }
    }
  }

  ghost function EmptyData(h: Header): (data: seq<byte>)
    requires LaidOut(h)
    ensures NoRecords(h, data)
  {
    seq(PAGE_SIZE, _ => 0)
  }

  class RmFileHandle {
    var hdr: Header
    var pages: map<int, RmPage>
    var pins: multiset<int>
    ghost var chain: seq<int>

    constructor (recordSize: int)
      requires CreateFile(recordSize).Opened?
      ensures Valid() && pins == multiset{}
      ensures State() == File(CreateFile(recordSize).hdr, map[])
    {
      hdr := CreateFile(recordSize).hdr;
      pages := map[];
      pins := multiset{};
      chain := [];
      new;
      EmptyFileOk(recordSize);
      assert State().pages == map[];
    }

    ghost function Objects(): set<RmPage>
      reads this`pages
    {
      set p | p in pages :: pages[p]
    }

    ghost function Arrays(): set<array<byte>>
      reads this`pages
    {
      set p | p in pages :: pages[p].data
    }

    ghost function State(): File
      reads this`hdr, this`pages, Objects(), Arrays()
    {
      File(hdr, map p | p in pages :: pages[p].Value())
    }

    /** Different page numbers, different pages. */
    ghost predicate Apart()
      reads this`pages, Objects()
    {
      forall p, q :: p in pages && q in pages && p != q ==> pages[p] != pages[q] && pages[p].data != pages[q].data
    }

    ghost predicate Valid()
      reads this`hdr, this`pages, this`chain, Objects(), Arrays()
    {
      Apart() && FileOk(State(), chain)
    }

    method FetchPageHandle(pageNo: int) returns (page: Fetched<RmPage>)
      modifies this`pins
      ensures page == if pageNo in pages then Found(pages[pageNo]) else PageNotExist
      ensures pins == if pageNo in pages then old(pins) + multiset{pageNo} else old(pins)
      ensures State() == old(State()) && (old(Valid()) ==> Valid())
    {
      if pageNo !in pages {
        return PageNotExist;
      }
      pins := pins + multiset{pageNo};
      Untouched();
      return Found(pages[pageNo]);
    }

    method UnpinPage(pageNo: int)
      requires pageNo in pins
      modifies this`pins
      ensures pins == old(pins) - multiset{pageNo}
      ensures State() == old(State()) && (old(Valid()) ==> Valid())
    {
      pins := pins - multiset{pageNo};
      Untouched();
    }

    /**
     The copy it returns is the record exactly when the slot is live; otherwise
     it is whatever bytes the slot holds.
     */
    method GetRecord(r: Rid) returns (record: Fetched<seq<byte>>)
      requires Valid() && r.pageNo != 0
      requires 0 <= r.slotNo < hdr.recordsPerPage
      modifies this`pins
      ensures Valid() && pins == old(pins)
      ensures record == if r.pageNo in pages then Found(RecordAt(State(), r)) else PageNotExist
      ensures r in Records(State()) ==> record == Found(Records(State())[r])
      ensures record.Found? ==> var at := 12 + hdr.bitmapSize + r.slotNo * hdr.recordSize;
                at + hdr.recordSize <= pages[r.pageNo].data.Length && record.value == pages[r.pageNo].data[at..at + hdr.recordSize]
    {
      var page := FetchPageHandle(r.pageNo);
      if page.PageNotExist? {
        return PageNotExist;
      }
      var at := SlotAt(hdr, r.slotNo);
      SlotBounds(hdr, r.slotNo);
      assert State().pages[r.pageNo] == page.value.Value();
      record := Found(page.value.data[at..at + hdr.recordSize]);
      UnpinPage(r.pageNo);
      assert page.value.data[..][at..at + hdr.recordSize] == page.value.data[at..at + hdr.recordSize];
    }

    /** Whether the rid names a record; the page it looks at stays pinned. */
    method IsRecord(r: Rid) returns (live: Fetched<bool>)
      requires Valid() && r.pageNo != 0
      requires 0 <= r.slotNo < hdr.recordsPerPage
      modifies this`pins
      ensures live.Found? <==> r.pageNo in pages
      ensures live.Found? ==> (live.value <==> r in Records(State()))
      ensures pins == if live.Found? then old(pins) + multiset{r.pageNo} else old(pins)
    {
      var page := FetchPageHandle(r.pageNo);
      if page.PageNotExist? {
        return PageNotExist;
      }
      SlotBounds(hdr, r.slotNo);
      assert State().pages[r.pageNo] == page.value.Value();
      live := Found(IsSet(page.value.data[..], BITMAP_START, r.slotNo));
    }

    method CreateNewPageHandle() returns (pageNo: int)
      requires Apart() && LaidOut(hdr) && hdr.numPages !in pages
      modifies this
      ensures Apart() && pageNo == hdr.firstFree == old(hdr.numPages)
      ensures pageNo in pages && fresh(pages[pageNo]) && fresh(pages[pageNo].data)
      ensures pages == old(pages)[pageNo := pages[pageNo]]
      ensures NoRecords(old(hdr), pages[pageNo].data[..])
      ensures State() == Grown(old(State()), pages[pageNo].data[..])
      ensures pins == old(pins) + multiset{pageNo} && chain == [pageNo]
    {
      pageNo := hdr.numPages;
      var page := new RmPage();
      page.Clear(hdr);
      pins := pins + multiset{pageNo};
      chain := [pageNo];
      assert State() == old(State());
      AddPage(page);
    }

    /** The new page becomes the last one and the whole free list. */
    method AddPage(page: RmPage)
      requires Apart() && hdr.numPages !in pages && page !in Objects() && page.data !in Arrays()
      requires page.nextFree == RM_NO_PAGE && page.numRecords == 0
      modifies this`pages, this`hdr
      ensures Apart() && pages == old(pages)[old(hdr.numPages) := page]
      ensures State() == Grown(old(State()), page.data[..])
    {
      pages := pages[hdr.numPages := page];
      hdr := hdr.(numPages := hdr.numPages + 1, firstFree := hdr.numPages);
    }

    method CreatePageHandle() returns (pageNo: int, ghost data: seq<byte>)
      requires Valid()
      modifies this
      ensures Apart() && pageNo == hdr.firstFree && pageNo in pages
      ensures OldOrFresh(old(pages))
      ensures NoRecords(old(hdr), data)
      ensures State() == Readied(old(State()), data)
      ensures chain == ChainReadied(old(State()), old(chain))
      ensures pins == old(pins) + multiset{pageNo}
    {
      if hdr.firstFree == RM_NO_PAGE {
        assert hdr.numPages !in State().pages;
        pageNo := CreateNewPageHandle();
        data := pages[pageNo].data[..];
      } else {
        assert RecordState.LinkOk(State(), chain, 0);
        pageNo := hdr.firstFree;
        var page := FetchPageHandle(pageNo);
        data := EmptyData(hdr);
      }
    }

    /** Every page is one of `before` or new. */
    twostate predicate OldOrFresh(before: map<int, RmPage>)
      reads this`pages
    {
      && (forall p :: p in before ==> p in pages && pages[p] == before[p])
      && (forall p :: p in pages && p !in before ==> fresh(pages[p]) && fresh(pages[p].data))
    }

    /** Nothing that matters has been touched. */
    twostate lemma Untouched()
      requires hdr == old(hdr) && pages == old(pages) && chain == old(chain)
      requires forall p :: p in pages ==> pages[p].Value() == old(pages[p].Value())
      ensures State() == old(State())
      ensures old(Valid()) ==> Valid()
    {
      var a, b := State().pages, old(State()).pages;
      assert a.Keys == b.Keys == pages.Keys;
      forall p | p in pages ensures a[p] == b[p] {
        assert b[p] == old(pages[p].Value());
      }
      assert a == b;
    }

    /** Two states that differ in one page object differ in one page value. */
    twostate lemma OnePageChanged(pageNo: int)
      requires old(Apart()) && pages == old(pages) && pageNo in pages
      requires forall p :: p in pages && p != pageNo ==> pages[p].Value() == old(pages[p].Value())
      ensures State().pages == old(State()).pages[pageNo := pages[pageNo].Value()]
    {
      var a, b := State().pages, old(State()).pages;
      assert a.Keys == b.Keys == pages.Keys;
      forall p | p in pages ensures a[p] == if p == pageNo then pages[p].Value() else b[p] {
        assert b[p] == old(pages[p].Value());
      }
    }

    method FillPage(r: Rid, buf: seq<byte>)
      requires Apart() && LaidOut(hdr) && HasSlot(State(), r) && Sized(hdr, pages[r.pageNo].Value())
      requires |buf| == hdr.recordSize
      modifies this`hdr, pages[r.pageNo], pages[r.pageNo].data
      ensures State() == Inserted(old(State()), r, buf)
    {
      var page := pages[r.pageNo];
      page.Fill(hdr, r.slotNo, buf);
      OnePageChanged(r.pageNo);
      if page.numRecords == hdr.recordsPerPage {
        hdr := hdr.(firstFree := page.nextFree);
      }
    }

    /** Stores the record in a slot that was not in use and changes no other. */
    method InsertRecord(buf: seq<byte>) returns (r: Rid)
      requires Valid() && |buf| == hdr.recordSize
      modifies this, Objects(), Arrays()
      ensures Valid() && pins == old(pins)
      ensures SameLayout(old(hdr), hdr)
      ensures OldOrFresh(old(pages))
      ensures r.pageNo == if old(hdr.firstFree) == RM_NO_PAGE then old(hdr.numPages) else old(hdr.firstFree)
      ensures forall s: nat :: s < r.slotNo ==> Rid(r.pageNo, s) in old(Records(State()))
      ensures r !in old(Records(State()))
      ensures Records(State()) == old(Records(State()))[r := buf]
    {
      ghost var start, was := State(), chain;
      var pageNo, data := CreatePageHandle();
      ReadiedOk(start, was, data);
      r := StoreInFirstFree(buf);
      UnpinPage(pageNo);
    }

    method StoreInFirstFree(buf: seq<byte>) returns (r: Rid)
      requires Valid() && |buf| == hdr.recordSize && NotFull(State(), hdr.firstFree)
      modifies this`hdr, this`chain, pages[hdr.firstFree], pages[hdr.firstFree].data
      ensures Valid() && SameLayout(old(hdr), hdr)
      ensures r.pageNo == old(hdr.firstFree) && forall s: nat :: s < r.slotNo ==> Rid(r.pageNo, s) in old(Records(State()))
      ensures r !in old(Records(State()))
      ensures Records(State()) == old(Records(State()))[r := buf]
    {
      ghost var f, was := State(), chain;
      var slotNo := FreeSlot(hdr.firstFree);
      r := Rid(hdr.firstFree, slotNo);
      FillPage(r, buf);
      assert State() == Inserted(f, r, buf);
      chain := ChainAfterInsert(f, was, r);
      InsertOk(f, was, r, buf, State(), chain);
    }

    /** Takes the record away; deleting what is not there leaves a broken file. */
    method DeleteRecord(r: Rid) returns (done: Fetched<()>)
      requires Valid() && r.pageNo != 0
      requires 0 <= r.slotNo < hdr.recordsPerPage
      modifies this, Objects(), Arrays()
      ensures done.Found? <==> r.pageNo in pages
      ensures pages == old(pages) && pins == old(pins)
      ensures SameLayout(old(hdr), hdr)
      ensures done.PageNotExist? ==> Valid() && State() == old(State())
      ensures done.Found? ==> (Valid() <==> r in old(Records(State())))
      ensures PagesSized(State()) && Records(State()) == old(Records(State())) - {r}
    {
      var page := FetchPageHandle(r.pageNo);
      if page.PageNotExist? {
        return PageNotExist;
      }
      EmptyPage(r);
      UnpinPage(r.pageNo);
      return Found(());
    }

    method EmptyPage(r: Rid)
      requires Valid() && HasSlot(State(), r)
      modifies this`hdr, this`chain, pages[r.pageNo], pages[r.pageNo].data
      ensures Apart() && SameLayout(old(hdr), hdr)
      ensures Valid() <==> r in old(Records(State()))
      ensures PagesSized(State()) && Records(State()) == old(Records(State())) - {r}
    {
      ghost var f, was := State(), chain;
      DropFromPage(r);
      assert State() == Deleted(f, r);
      chain := ChainAfterDelete(f, was, r);
      DeleteOk(f, was, r, State(), chain);
    }

    method DropFromPage(r: Rid)
      requires Apart() && LaidOut(hdr) && HasSlot(State(), r) && Sized(hdr, pages[r.pageNo].Value())
      modifies this`hdr, pages[r.pageNo], pages[r.pageNo].data
      ensures State() == Deleted(old(State()), r)
    {
      var page := pages[r.pageNo];
      page.Empty(hdr, r.slotNo);
      if page.numRecords == hdr.recordsPerPage - 1 {
        ReleasePageHandle(page, r.pageNo);
      }
      OnePageChanged(r.pageNo);
    }

    /** Puts a page that is no longer full at the head of the free list. */
    method ReleasePageHandle(page: RmPage, pageNo: int)
      modifies this`hdr, page`nextFree
      ensures page.nextFree == old(hdr.firstFree)
      ensures hdr == old(hdr).(firstFree := pageNo)
    {
      page.nextFree := hdr.firstFree;
      hdr := hdr.(firstFree := pageNo);
    }

    method UpdateRecord(r: Rid, buf: seq<byte>) returns (done: Fetched<()>)
      requires Valid() && r.pageNo != 0 && |buf| == hdr.recordSize
      requires 0 <= r.slotNo < hdr.recordsPerPage
      modifies this, Objects(), Arrays()
      ensures Valid() && hdr == old(hdr) && pages == old(pages) && pins == old(pins)
      ensures done.Found? <==> r.pageNo in pages
      ensures Records(State()) ==
        if r in old(Records(State())) then old(Records(State()))[r := buf] else old(Records(State()))
    {
      var page := FetchPageHandle(r.pageNo);
      if page.PageNotExist? {
        return PageNotExist;
      }
      OverwriteSlot(r, buf);
      UnpinPage(r.pageNo);
      return Found(());
    }

    method OverwriteSlot(r: Rid, buf: seq<byte>)
      requires Valid() && HasSlot(State(), r) && |buf| == hdr.recordSize
      modifies pages[r.pageNo].data
      ensures Valid()
      ensures Records(State()) ==
        if r in old(Records(State())) then old(Records(State()))[r := buf] else old(Records(State()))
    {
      ghost var f := State();
      assert f.pages[r.pageNo] == pages[r.pageNo].Value();
      pages[r.pageNo].PutSlot(hdr, r.slotNo, buf);
      OnePageChanged(r.pageNo);
      assert State() == Updated(f, r, buf);
      UpdateOk(f, chain, r, buf, State());
    }

    method FreeSlot(pageNo: int) returns (s: nat)
      requires Apart() && NotFull(State(), pageNo) && PageOk(hdr, State().pages[pageNo])
      ensures s < hdr.recordsPerPage && !LiveAt(State(), Rid(pageNo, s))
      ensures forall t: nat :: t < s ==> LiveAt(State(), Rid(pageNo, t))
    {
      var page := pages[pageNo];
      assert State().pages[pageNo] == page.Value();
      s := Bitmap.FirstBit(false, page.data, BITMAP_START, hdr.recordsPerPage);
      FullIffNoFreeSlot(hdr, page.Value());
    }
  }
}
