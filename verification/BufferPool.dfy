/**
 The buffer pool manager: a write-back cache over the disk that clients cannot tell from a plain
 memory, as long as whoever releases a page last has its changes reported.
 */
module BufferPool {
  import opened Sets
  import opened PoolState
  import opened LruReplacer

  /** The disk: the pages of all files, and for each file the next page number to hand out. */
  class DiskManager {
    var stored: map<PageId, Data>
    var nextPage: map<int, nat>

    constructor (stored: map<PageId, Data>, nextPage: map<int, nat>)
      ensures this.stored == stored && this.nextPage == nextPage
    {
      this.stored, this.nextPage := stored, nextPage;
    }

    method WritePage(id: PageId, data: Data)
      modifies this`stored
      ensures stored == Wrote(old(stored), id, data)
      ensures id in stored && stored[id] == data
      ensures forall x :: x in old(stored) && x != id ==> x in stored && stored[x] == old(stored)[x]
    {
      stored := Wrote(stored, id, data);
    }

    /** Reading fails exactly at and beyond the end of the file. */
    method ReadPage(id: PageId) returns (ok: bool, data: Data)
      requires Contiguous(stored) && forall x :: x in stored ==> x.pageNo >= 0
      ensures ok <==> id in stored
      ensures ok ==> data == stored[id]
    {
      ReadableBeforeEnd(stored, id);
      ok := 0 <= id.pageNo < FileSize(stored, id.fd);
      data := if ok then stored[id] else Zeros();
    }

    method AllocatePage(fd: int) returns (pageNo: nat)
      requires fd in nextPage
      modifies this`nextPage
      ensures pageNo == old(nextPage)[fd] && nextPage == old(nextPage)[fd := pageNo + 1]
    {
      pageNo := nextPage[fd];
      nextPage := nextPage[fd := pageNo + 1];
    }
  }

  datatype FetchResult = Fetched(frame: nat) | NoFrame | ReadFailed

  class BufferPoolManager {
    const poolSize: nat
    const disk: DiskManager
    const replacer: LRUReplacer
    var pages: seq<Page>
    var pageTable: map<PageId, int>
    var freeList: seq<int>

    ghost function State(): Pool
      reads this, disk, replacer
    {
      Pool(pages, pageTable, freeList, replacer.Frames(), disk.stored, disk.nextPage)
    }

    ghost predicate Valid()
      reads this, disk, replacer
    {
      replacer.Valid() && replacer.maxSize == poolSize == |pages| && PoolOk(State())
    }

    constructor (poolSize: nat, disk: DiskManager)
      requires Contiguous(disk.stored)
      requires forall id :: id in disk.stored ==> id.fd in disk.nextPage && 0 <= id.pageNo < disk.nextPage[id.fd]
      ensures this.poolSize == poolSize && this.disk == disk && fresh(replacer)
      ensures Valid() && NothingAtRisk(State()) && Memory(State()) == disk.stored
      ensures forall id :: PinCount(State(), id) == 0
    {
      this.poolSize, this.disk := poolSize, disk;
      replacer := new LRUReplacer(poolSize);
      pages := seq(poolSize, _ => Page(PageId(0, INVALID_PAGE_ID), Zeros(), false, 0));
      pageTable := map[];
      freeList := seq(poolSize, i => i);
      new;
      ghost var s := State();
      forall f {:trigger FrameOk(s, f)} | 0 <= f < poolSize ensures FrameOk(s, f) {
        assert freeList[f] == f;
      }
      forall id {:trigger Allocated(s, id)} | id in s.stored ensures Allocated(s, id) {
      }
    }

    /** A free frame, or else the one that has been evictable for the longest time. */
    method FindVictimPage() returns (ok: bool, f: int)
      requires Valid()
      modifies this`freeList, replacer
      ensures replacer.Valid()
      ensures ok <==> !AllPinned(old(State()))
      ensures !ok ==> State() == old(State())
      ensures ok ==> Taken(State(), f)
      ensures old(freeList) != [] ==> f == old(freeList)[0] && freeList == old(freeList)[1..] && replacer.Frames() == old(replacer.Frames())
      ensures ok && old(freeList) == [] ==> freeList == [] && f in old(replacer.Frames()) && replacer.Frames() == old(replacer.Frames()) - {f}
      ensures ok && old(freeList) == [] ==> Oldest(Entered(old(replacer.history), poolSize), f)
    {
      NoFrameLeft(State());
      if |freeList| > 0 {
        TakeFreeOk(State());
        f := freeList[0];
        freeList := freeList[1..];
        return true, f;
      }
      ghost var s := State();
      ok, f := replacer.Victim();
      if ok {
        assert f in s.evictable;
        EvictOk(s, f);
        assert State() == s.(evictable := s.evictable - {f});
      }
    }

    /** Writes the old page of the frame back if it is dirty, and gives the frame to page id, zeroed. */
    method UpdatePage(f: int, id: PageId)
      requires 0 <= f < |pages|
      modifies this`pages, this`pageTable, disk`stored
      ensures State() == Install(old(State()), f, Page(id, Zeros(), false, 0))
      ensures pages == old(pages)[f := Page(id, Zeros(), false, 0)] && id in pageTable && pageTable[id] == f
      ensures var p := old(pages)[f];
              && (Mapped(p) && p.id != id ==> p.id !in pageTable)
              && (Mapped(p) && p.dirty ==> p.id in disk.stored && disk.stored[p.id] == p.data)
              && (!(Mapped(p) && p.dirty) ==> disk.stored == old(disk.stored))
    {
      var p := pages[f];
      if p.id.pageNo != INVALID_PAGE_ID && p.dirty {
        disk.WritePage(p.id, p.data);
      }
      if p.id.pageNo != INVALID_PAGE_ID {
        pageTable := pageTable - {p.id};
      }
      pageTable := pageTable[id := f];
      pages := pages[f := Page(id, Zeros(), false, 0)];
    }

    /**
     Pins the page, bringing it into a frame if it is not resident.  The frame then holds what
     clients wrote last.  Fails without effect if no frame can be had.  If the page lies beyond the
     end of its file (as it is when the victim has been written back), reading it fails after a
     frame was taken, and that frame is lost.
     */
    method FetchPage(id: PageId) returns (r: FetchResult)
      requires Valid() && NothingAtRisk(State())
      modifies this, disk`stored, replacer
      ensures r == NoFrame <==> old(id !in pageTable && AllPinned(State()))
      ensures r == ReadFailed <==> old(id !in pageTable && !AllPinned(State())) && BeyondEnd(disk.stored, id)
      ensures r == ReadFailed ==> !old(Exists(State(), id))
      ensures Valid() <==> r != ReadFailed
      ensures r != ReadFailed ==> NothingAtRisk(State()) && Grown(old(Memory(State())), Memory(State()))
      ensures r.Fetched? ==> r.frame < |pages| && id in pageTable && pageTable[id] == r.frame
      ensures r.Fetched? ==> Exists(State(), id) && pages[r.frame].data == Memory(State())[id]
      ensures r.Fetched? ==> pages == old(pages)[r.frame := pages[r.frame]] && pages[r.frame].id == id
      ensures r.Fetched? && old(id !in pageTable) ==> !pages[r.frame].dirty && pages[r.frame].pins == 1
      ensures r != ReadFailed ==>
                forall x :: PinCount(State(), x) == old(PinCount(State(), x)) + if r.Fetched? && x == id then 1 else 0
      ensures r != ReadFailed ==> KeepsTrack(old(State()), State())
    {
      if id in pageTable {
        r := PinAgain(id);
        return;
      }
      ghost var s := State();
      var ok, f := FindVictimPage();
      if !ok {
        return NoFrame;
      }
      r := LoadPage(id, f, s);
    }

    /** A resident page is pinned once more. */
    method PinAgain(id: PageId) returns (r: FetchResult)
      requires Valid() && NothingAtRisk(State()) && id in pageTable
      modifies this`pages, replacer
      ensures Valid() && NothingAtRisk(State()) && Memory(State()) == old(Memory(State())) && Exists(State(), id)
      ensures r.Fetched? && pageTable[id] == r.frame && r.frame < |pages| && pages[r.frame].data == old(Memory(State()))[id]
      ensures pages == old(pages)[r.frame := pages[r.frame]] && pages[r.frame].id == id
      ensures forall x :: PinCount(State(), x) == old(PinCount(State(), x)) + if x == id then 1 else 0
      ensures KeepsTrack(old(State()), State())
    {
      ghost var s := State();
      assert EntryOk(s, id);
      var f := pageTable[id];
      var p := pages[f].(pins := pages[f].pins + 1);
      SetPageOk(s, f, p, s.evictable - {f});
      PinKeepsTrack(s, f, p, s.evictable - {f});
      pages := pages[f := p];
      replacer.Pin(f);
      assert State() == SetPage(s, f, p, s.evictable - {f});
      r := Fetched(f);
    }

    /** The rest of FetchPage, with frame f taken off its list. */
    method LoadPage(id: PageId, f: int, ghost s: Pool) returns (r: FetchResult)
      requires replacer.Valid() && replacer.maxSize == poolSize == |pages| && Taken(State(), f)
      requires PoolOk(s) && NothingAtRisk(s) && id !in s.table
      requires s.pages == pages && s.table == pageTable && s.stored == disk.stored && s.next == disk.nextPage
      modifies this`pages, this`pageTable, disk`stored, replacer
      ensures r.Fetched? || r.ReadFailed?
      ensures r == ReadFailed <==> BeyondEnd(disk.stored, id)
      ensures r == ReadFailed ==> !Exists(s, id)
      ensures Valid() <==> r != ReadFailed
      ensures r != ReadFailed ==> NothingAtRisk(State()) && Grown(Memory(s), Memory(State()))
      ensures r.Fetched? ==> r.frame < |pages| && id in pageTable && pageTable[id] == r.frame
      ensures r.Fetched? ==> Exists(State(), id) && pages[r.frame].data == Memory(State())[id]
      ensures r.Fetched? ==> pages == old(pages)[r.frame := pages[r.frame]] && pages[r.frame].id == id
      ensures r.Fetched? ==> !pages[r.frame].dirty && pages[r.frame].pins == 1
      ensures r.Fetched? ==> forall x :: PinCount(State(), x) == PinCount(s, x) + if x == id then 1 else 0
      ensures r.Fetched? ==> KeepsTrack(s, State())
    {
      ghost var t := State();
      UpdatePage(f, id);
      InstalledDisk(t, f, id);
      ReadableBeforeEnd(disk.stored, id);
      var read, data := disk.ReadPage(id);
      if !read {
        LostFrame(State(), f);
        return ReadFailed;
      }
      LoadOk(s, t, f, id, data);
      FillFrame(id, f, data, t);
      r := Fetched(f);
    }

    /** The frame that page id was given receives its data and the first pin. */
    method FillFrame(id: PageId, f: int, data: Data, ghost t: Pool)
      requires replacer.Valid() && 0 <= f < |t.pages| && f !in t.evictable
      requires State() == Install(t, f, Page(id, Zeros(), false, 0))
      modifies this`pages, replacer
      ensures replacer.Valid() && State() == Install(t, f, Page(id, data, false, 1)) && pages[f].data == data
    {
      SetTwice(t.pages, f, pages[f], Page(id, data, false, 1));
      pages := pages[f := Page(id, data, false, 1)];
      replacer.Pin(f);
      assert t.evictable - {f} == t.evictable;
    }

    /** Gives one pin back; without pins, or if the page is not resident, there is nothing to give back. */
    method UnpinPage(id: PageId, isDirty: bool) returns (ok: bool)
      requires Valid()
      modifies this`pages, replacer
      ensures replacer.Valid() && State() == Unpinned(old(State()), id, isDirty) && |pages| == old(|pages|)
      ensures ok <==> old(PinCount(State(), id)) > 0
      ensures !ok ==> pages == old(pages) && replacer.Frames() == old(replacer.Frames())
      ensures ok ==> id in pageTable && 0 <= pageTable[id] < |pages|
      ensures ok ==> var f, p := pageTable[id], old(pages)[pageTable[id]];
                     && p.pins > 0 && pages == old(pages)[f := p.(pins := p.pins - 1, dirty := p.dirty || isDirty)]
                     && replacer.Frames() == if p.pins == 1 then old(replacer.Frames()) + {f} else old(replacer.Frames())
    {
      ghost var s := State();
      UnpinnedIs(s, id, isDirty);
      ok := UnpinResident(id, isDirty);
      ghost var u := State();
      assert u.pages == pages && u.table == pageTable && u.evictable == replacer.Frames();
    }

    method UnpinResident(id: PageId, isDirty: bool) returns (ok: bool)
      requires Valid()
      modifies this`pages, replacer
      ensures replacer.Valid() && State() == Unpinned(old(State()), id, isDirty) && |pages| == old(|pages|)
      ensures ok <==> old(PinCount(State(), id)) > 0
    {
      UnpinnedIs(State(), id, isDirty);
      if id !in pageTable {
        return false;
      }
      var f := pageTable[id];
      if pages[f].pins <= 0 {
        return false;
      }
      GiveUpPin(f, isDirty);
      ok := true;
    }

    /** One pin less on frame f, which is evictable without pins. */
    method GiveUpPin(f: int, isDirty: bool)
      requires 0 <= f < |pages| == poolSize && pages[f].pins > 0 && replacer.Valid() && replacer.maxSize == poolSize
      requires f !in replacer.Frames() && forall g :: g in replacer.Frames() ==> 0 <= g < poolSize
      modifies this`pages, replacer
      ensures replacer.Valid()
      ensures pages == old(pages)[f := old(pages)[f].(pins := old(pages)[f].pins - 1, dirty := old(pages)[f].dirty || isDirty)]
      ensures replacer.Frames() == if pages[f].pins == 0 then old(replacer.Frames()) + {f} else old(replacer.Frames())
    {
      pages := pages[f := pages[f].(pins := pages[f].pins - 1, dirty := pages[f].dirty || isDirty)];
      if pages[f].pins == 0 {
        RoomFor(replacer.Frames(), poolSize, f);
        replacer.Unpin(f);
      }
    }

    /** Writes the page to disk, pinned or not. */
    method FlushPage(id: PageId) returns (ok: bool)
      requires Valid()
      modifies this`pages, disk`stored
      ensures State() == Flushed(old(State()), id) && |pages| == old(|pages|)
      ensures ok <==> id in pageTable
      ensures !ok ==> pages == old(pages) && disk.stored == old(disk.stored)
      ensures ok ==> 0 <= pageTable[id] < |pages|
      ensures ok ==> var f, p := pageTable[id], old(pages)[pageTable[id]];
                     && pages == old(pages)[f := Page(id, p.data, false, p.pins)]
                     && id in disk.stored && disk.stored[id] == p.data
      ensures forall x :: x in old(disk.stored) && x != id ==> x in disk.stored && disk.stored[x] == old(disk.stored)[x]
    {
      if id !in pageTable {
        return false;
      }
      assert EntryOk(State(), id);
      var f := pageTable[id];
      disk.WritePage(pages[f].id, pages[f].data);
      pages := pages[f := pages[f].(dirty := false)];
      ok := true;
    }

    /** Writes all resident pages of a file to disk; afterwards each is there, clean, and nothing else has changed. */
    method FlushAllPages(fd: int)
      requires Valid()
      modifies this`pages, disk`stored
      ensures Valid() && State() == FlushedFrames(old(State()), fd, poolSize)
      ensures forall id :: id in pageTable && id.fd == fd ==>
                && 0 <= pageTable[id] < |pages| && !pages[pageTable[id]].dirty
                && id in disk.stored && disk.stored[id] == pages[pageTable[id]].data
      ensures Grown(old(Memory(State())), Memory(State()))
    {
      ghost var s := State();
      FlushAllOk(s, fd, AllIds(s));
      FlushFrames(fd);
      ghost var u := State();
      assert u.table == pageTable && u.pages == pages && u.stored == disk.stored;
    }

    method FlushFrames(fd: int)
      requires |pages| == poolSize
      modifies this`pages, disk`stored
      ensures State() == FlushedFrames(old(State()), fd, poolSize) && |pages| == old(|pages|)
    {
      var i := 0;
      while i < poolSize
        invariant 0 <= i <= poolSize == |pages| && State() == FlushedFrames(old(State()), fd, i)
      {
        var p := pages[i];
        if p.id.fd == fd && p.id.pageNo != INVALID_PAGE_ID {
          assert OfFile(p, fd);
          disk.WritePage(p.id, p.data);
          pages := pages[i := p.(dirty := false)];
        }
        i := i + 1;
      }
    }

    /** A page that is pinned cannot be deleted; one that is not resident needs no deleting here. */
    method DeletePage(id: PageId) returns (ok: bool)
      requires Valid()
      modifies this`pages, this`pageTable, this`freeList, disk`stored, replacer
      ensures replacer.Valid() && State() == Deleted(old(State()), id) && |pages| == old(|pages|)
      ensures ok <==> old(PinCount(State(), id)) == 0
      ensures !ok || old(id !in pageTable) ==> State() == old(State())
      ensures ok && old(id in pageTable) ==> 0 <= old(pageTable)[id] < |pages| && pageTable == old(pageTable) - {id}
      ensures ok && old(id in pageTable) ==>
                var f := old(pageTable)[id];
                && pages == old(pages)[f := Page(PageId(id.fd, INVALID_PAGE_ID), Zeros(), false, 0)]
                && freeList == old(freeList) + [f] && replacer.Frames() == old(replacer.Frames()) - {f}
      ensures ok && old(id in pageTable && (pages[pageTable[id]].dirty || NothingAtRisk(State()))) ==>
                id in disk.stored && disk.stored[id] == old(pages)[old(pageTable)[id]].data
    {
      if id !in pageTable {
        return true;
      }
      assert EntryOk(State(), id);
      var f := pageTable[id];
      if pages[f].pins > 0 {
        return false;
      }
      assert NothingAtRisk(State()) ==> Safe(State(), pages[f]);
      pageTable := pageTable - {id};
      if pages[f].dirty {
        disk.WritePage(pages[f].id, pages[f].data);
      }
      pages := pages[f := Page(PageId(pages[f].id.fd, INVALID_PAGE_ID), Zeros(), false, 0)];
      freeList := freeList + [f];
      replacer.Pin(f);
      ok := true;
    }

    /** A page that nobody has used yet, zeroed, pinned and clean; or nothing if every frame is pinned. */
    method NewPage(fd: int) returns (ok: bool, id: PageId, ghost t: Pool, f: int)
      requires Valid() && fd in disk.nextPage
      modifies this, disk, replacer
      ensures replacer.Valid() && |pages| == old(|pages|)
      ensures ok <==> !old(AllPinned(State()))
      ensures !ok ==> State() == old(State())
      ensures ok ==> id == PageId(fd, old(disk.nextPage)[fd]) && Taken(t, f) && fd in t.next && State() == Created(t, f, fd)
      ensures ok ==> 0 <= f < |pages| && pages == old(pages)[f := Page(id, Zeros(), false, 1)] && id in pageTable && pageTable[id] == f
      ensures ok ==> disk.nextPage == old(disk.nextPage)[fd := id.pageNo + 1]
      ensures ok ==> var s := old(State()); t.pages == s.pages && t.table == s.table && t.stored == s.stored && t.next == s.next
    {
      id := PageId(fd, INVALID_PAGE_ID);
      ok, f := FindVictimPage();
      t := State();
      if ok {
        id := GiveNewPage(f, fd);
      }
    }

    method GiveNewPage(f: int, fd: int) returns (id: PageId)
      requires replacer.Valid() && 0 <= f < |pages| && fd in disk.nextPage && f !in replacer.Frames()
      modifies this`pages, this`pageTable, disk, replacer
      ensures id == PageId(fd, old(disk.nextPage)[fd])
      ensures replacer.Valid() && State() == Created(old(State()), f, fd) && |pages| == old(|pages|)
      ensures pages == old(pages)[f := Page(id, Zeros(), false, 1)] && id in pageTable && pageTable[id] == f
      ensures disk.nextPage == old(disk.nextPage)[fd := id.pageNo + 1]
    {
      ghost var t := State();
      var pageNo := disk.AllocatePage(fd);
      id := PageId(fd, pageNo);
      UpdatePage(f, id);
      SetTwice(t.pages, f, pages[f], Page(id, Zeros(), false, 1));
      pages := pages[f := Page(id, pages[f].data, false, 1)];
      replacer.Pin(f);
      assert t.evictable - {f} == t.evictable;
    }

    /** A client changes the contents of the page in frame f. */
    method WriteData(f: int, data: Data)
      requires 0 <= f < |pages|
      modifies this`pages
      ensures State() == Written(old(State()), f, data) && pages == old(pages)[f := old(pages)[f].(data := data)]
    {
      pages := pages[f := pages[f].(data := data)];
    }
  }

  /** The pages in all frames; whatever is unsafe is among them. */
  ghost function AllIds(s: Pool): (ids: set<PageId>)
    ensures Tracked(s, ids)
  {
    set f | 0 <= f < |s.pages| :: s.pages[f].id
  }

  /** What Unpinned does to the frames and to the evictable ones. */
  lemma UnpinnedIs(s: Pool, id: PageId, isDirty: bool)
    requires PoolOk(s)
    ensures PinCount(s, id) == 0 ==> Unpinned(s, id, isDirty) == s
    ensures id in s.table ==> 0 <= s.table[id] < |s.pages| && s.pages[s.table[id]].pins == PinCount(s, id) && s.pages[s.table[id]].id == id
    ensures id in s.table && PinCount(s, id) > 0 ==>
              var f, p := s.table[id], s.pages[s.table[id]];
              var e := if p.pins == 1 then s.evictable + {f} else s.evictable;
              && f !in s.evictable
              && Unpinned(s, id, isDirty) == s.(pages := s.pages[f := p.(pins := p.pins - 1, dirty := p.dirty || isDirty)], evictable := e)
  {
    if id in s.table {
      EntryMapped(s, id);
      var f := s.table[id];
      assert FrameOk(s, f);
      NotThere(s.evictable, f);
    }
  }

  lemma NotThere(s: set<int>, x: int)
    ensures x !in s ==> s - {x} == s
  {
  }

  lemma SetTwice<T>(s: seq<T>, i: nat, x: T, y: T)
    requires i < |s|
    ensures s[i := x][i := y] == s[i := y]
  {
  }

  /** Whatever is known to be unreported stays enough to know. */
  ghost predicate KeepsTrack(s: Pool, u: Pool) {
    forall changed :: Tracked(s, changed) ==> Tracked(u, changed)
  }

  lemma PinKeepsTrack(s: Pool, f: int, p: Page, e: set<int>)
    requires PoolOk(s) && 0 <= f < |s.pages|
    requires p.id == s.pages[f].id && p.data == s.pages[f].data && p.dirty == s.pages[f].dirty
    ensures KeepsTrack(s, SetPage(s, f, p, e))
  {
    forall changed | Tracked(s, changed) ensures Tracked(SetPage(s, f, p, e), changed) {
      PinTracked(s, f, p, e, changed);
    }
  }

  /** A page that was read from disk into a frame: clients see no change but its pin. */
  lemma LoadOk(s: Pool, t: Pool, f: int, id: PageId, data: Data)
    requires PoolOk(s) && NothingAtRisk(s) && id !in s.table && Taken(t, f)
    requires t.pages == s.pages && t.table == s.table && t.stored == s.stored && t.next == s.next
    requires var u := Install(t, f, Page(id, data, false, 1)); id in u.stored && u.stored[id] == data
    ensures var u := Install(t, f, Page(id, data, false, 1));
            && PoolOk(u) && NothingAtRisk(u) && Grown(Memory(s), Memory(u)) && Exists(u, id) && Memory(u)[id] == data
            && (forall x :: PinCount(u, x) == PinCount(s, x) + if x == id then 1 else 0)
            && KeepsTrack(s, u)
  {
    var p := Page(id, data, false, 1);
    forall changed | Tracked(s, changed) ensures Tracked(Install(t, f, p), changed) {
      LoadTracked(s, t, f, id, data, changed);
    }
    SameView(s, t);
    InstalledDisk(t, f, id);
    assert Safe(t, t.pages[f]);
    InstallOk(t, f, p);
    assert Memory(t)[id := data][id] == data;
    assert id in Memory(t) ==> Memory(t)[id] == data;
  }

  /** The file ends before page id. */
  predicate BeyondEnd(stored: map<PageId, Data>, id: PageId) {
    id.pageNo < 0 || id.pageNo >= FileSize(stored, id.fd)
  }

  /** The disk when frame f has been given to page id, which is not resident. */
  lemma InstalledDisk(t: Pool, f: int, id: PageId)
    requires Taken(t, f) && id !in t.table
    ensures var u := Install(t, f, Page(id, Zeros(), false, 0));
            && Contiguous(u.stored) && (forall x :: x in u.stored ==> Allocated(t, x))
            && (id in t.stored ==> id in u.stored && u.stored[id] == t.stored[id])
            && (id in u.stored && id !in t.stored ==> u.stored[id] == Zeros())
  {
    var o := t.pages[f];
    assert Mapped(o) ==> EntryOk(t, o.id);
    WroteContiguous(t.stored, o.id, o.data);
    forall x | x in Install(t, f, Page(id, Zeros(), false, 0)).stored ensures Allocated(t, x) {
      assert x in t.stored ==> Allocated(t, x);
    }
  }

  /** A frame without pins that is neither free nor evictable is lost. */
  lemma LostFrame(s: Pool, f: int)
    requires 0 <= f < |s.pages| && s.pages[f].pins == 0 && f !in s.free && f !in s.evictable
    ensures !PoolOk(s)
  {
    assert PoolOk(s) ==> FrameOk(s, f);
  }
}
