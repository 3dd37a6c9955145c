/** The state of the buffer pool as a value: frames, page table, lists and disk, and what its changes keep. */
module PoolState {
  import opened Sets
  import opened Config

  const INVALID_PAGE_ID := -1

  datatype PageId = PageId(fd: int, pageNo: int)

  type Data = seq<bv8>

  /** A page as ResetMemory leaves it. */
  function Zeros(): (d: Data)
    ensures |d| == PAGE_SIZE && forall i :: 0 <= i < PAGE_SIZE ==> d[i] == 0
  {
    seq(PAGE_SIZE, _ => 0)
  }

  datatype Page = Page(id: PageId, data: Data, dirty: bool, pins: nat)

  predicate Mapped(p: Page) { p.id.pageNo != INVALID_PAGE_ID }

  datatype Pool = Pool(pages: seq<Page>, table: map<PageId, int>, free: seq<int>, evictable: set<int>,
                       stored: map<PageId, Data>, next: map<int, nat>)

  /** A frame is free, or its page is in the table and the frame is evictable exactly when nobody has it pinned. */
  ghost predicate FrameOk(s: Pool, f: int)
    requires 0 <= f < |s.pages|
  {
    var p := s.pages[f];
    if Mapped(p) then
      p.id in s.table && s.table[p.id] == f && f !in s.free && (f in s.evictable <==> p.pins == 0)
    else
      p.pins == 0 && f in s.free && f !in s.evictable
  }

  ghost predicate ListsOk(s: Pool) {
    && (forall f :: f in s.free ==> 0 <= f < |s.pages|)
    && (forall f :: f in s.evictable ==> 0 <= f < |s.pages|)
    && (forall i, j :: 0 <= i < j < |s.free| ==> s.free[i] != s.free[j])
  }

  /** A file has no gaps: with a page it has all pages before it. */
  ghost predicate Contiguous(stored: map<PageId, Data>) {
    forall id, k {:trigger PageId(id.fd, k), id in stored} :: id in stored && 0 <= k < id.pageNo ==> PageId(id.fd, k) in stored
  }

  /** The file of page number n is extended by zeros up to that page. */
  function Padded(stored: map<PageId, Data>, fd: int, n: nat): (r: map<PageId, Data>)
    ensures forall id :: id in stored ==> id in r && r[id] == stored[id]
    ensures forall id :: id in r && id !in stored ==> id.fd == fd && 0 <= id.pageNo < n && r[id] == Zeros()
    ensures forall k :: 0 <= k < n ==> PageId(fd, k) in r
  {
    if n == 0 then stored
    else
      var m := Padded(stored, fd, n - 1);
      if PageId(fd, n - 1) in m then m else m[PageId(fd, n - 1) := Zeros()]
  }

  /** Writing a page: if it lies beyond the end of its file, the file grows, and pages skipped read as zeros. */
  function Wrote(stored: map<PageId, Data>, id: PageId, data: Data): map<PageId, Data> {
    Padded(stored, id.fd, if id.pageNo < 0 then 0 else id.pageNo)[id := data]
  }

  lemma WroteContiguous(stored: map<PageId, Data>, id: PageId, data: Data)
    requires Contiguous(stored)
    ensures Contiguous(Wrote(stored, id, data))
  {
  }

  /** The number of pages of a file. */
  function FileSize(stored: map<PageId, Data>, fd: int): nat {
    |set id | id in stored && id.fd == fd|
  }

  /** A page of an open file can be read exactly if it starts before the end of the file. */
  lemma ReadableBeforeEnd(stored: map<PageId, Data>, id: PageId)
    requires Contiguous(stored) && forall x :: x in stored ==> x.pageNo >= 0
    ensures id in stored <==> 0 <= id.pageNo < FileSize(stored, id.fd)
  {
    var file := set x | x in stored && x.fd == id.fd;
    if id in stored {
      Numbered(id.fd, id.pageNo + 1);
      SubsetSize(NumberedPages(id.fd, id.pageNo + 1), file);
    } else if id.pageNo >= 0 {
      Numbered(id.fd, id.pageNo);
      forall x | x in file ensures x in NumberedPages(id.fd, id.pageNo) {
        assert PageId(x.fd, id.pageNo) == id;
      }
      SubsetSize(file, NumberedPages(id.fd, id.pageNo));
    }
  }

  function NumberedPages(fd: int, n: nat): set<PageId> {
    set k | 0 <= k < n :: PageId(fd, k)
  }

  lemma {:induction false} Numbered(fd: int, n: nat)
    ensures |NumberedPages(fd, n)| == n
  {
    if n > 0 {
      Numbered(fd, n - 1);
      assert NumberedPages(fd, n) == NumberedPages(fd, n - 1) + {PageId(fd, n - 1)};
    }
  }

  ghost predicate Allocated(s: Pool, id: PageId) {
    id.fd in s.next && 0 <= id.pageNo < s.next[id.fd]
  }

  ghost predicate EntryOk(s: Pool, id: PageId)
    requires id in s.table
  {
    0 <= s.table[id] < |s.pages| && s.pages[s.table[id]].id == id && Allocated(s, id)
  }

  ghost predicate TableOk(s: Pool) {
    && (forall id {:trigger EntryOk(s, id)} :: id in s.table ==> EntryOk(s, id))
    && (forall id {:trigger Allocated(s, id)} :: id in s.stored ==> Allocated(s, id))
    && Contiguous(s.stored)
  }

  /** Every frame is free, evictable or pinned, and nothing else; table and mapped frames match one to one. */
  ghost predicate PoolOk(s: Pool) {
    && ListsOk(s) && TableOk(s)
    && forall f {:trigger FrameOk(s, f)} :: 0 <= f < |s.pages| ==> FrameOk(s, f)
  }

  /** The same, but frame f has been taken off its list. */
  ghost predicate Taken(s: Pool, f: int) {
    && ListsOk(s) && TableOk(s) && 0 <= f < |s.pages|
    && s.pages[f].pins == 0 && f !in s.free && f !in s.evictable
    && (Mapped(s.pages[f]) ==> s.pages[f].id in s.table && s.table[s.pages[f].id] == f)
    && forall g {:trigger FrameOk(s, g)} :: 0 <= g < |s.pages| && g != f ==> FrameOk(s, g)
  }

  /** A frame whose contents would not be lost by eviction. */
  ghost predicate Safe(s: Pool, p: Page) {
    Mapped(p) ==> p.dirty || (p.id in s.stored && s.stored[p.id] == p.data)
  }

  ghost predicate NothingAtRisk(s: Pool) {
    forall f {:trigger Safe(s, s.pages[f])} :: 0 <= f < |s.pages| && s.pages[f].pins == 0 ==> Safe(s, s.pages[f])
  }

  ghost predicate AllPinned(s: Pool) {
    forall f :: 0 <= f < |s.pages| ==> s.pages[f].pins > 0
  }

  /** Where the contents of a page are: in its frame if it is resident, else on disk. */
  ghost predicate Exists(s: Pool, id: PageId) {
    id in s.table || id in s.stored
  }

  ghost function ContentsOf(s: Pool, id: PageId): Data
    requires TableOk(s) && Exists(s, id)
  {
    if id in s.table then assert EntryOk(s, id); s.pages[s.table[id]].data else s.stored[id]
  }

  /** The memory that clients see. */
  ghost function Memory(s: Pool): (m: map<PageId, Data>)
    requires TableOk(s)
    ensures forall id :: id in m <==> Exists(s, id)
    ensures forall id :: id in m ==> m[id] == ContentsOf(s, id)
  {
    map id | id in s.table.Keys + s.stored.Keys :: ContentsOf(s, id)
  }

  /** All of m is in n, and what else is there are pages of zeros: gaps in a file that was extended. */
  ghost predicate Grown(m: map<PageId, Data>, n: map<PageId, Data>) {
    && (forall id :: id in m ==> id in n && n[id] == m[id])
    && (forall id :: id in n ==> id in m || n[id] == Zeros())
  }

  /** How often a page is pinned; pages that are not resident are not. */
  ghost function PinCount(s: Pool, id: PageId): nat
    requires TableOk(s)
  {
    if id in s.table then assert EntryOk(s, id); s.pages[s.table[id]].pins else 0
  }

  // ---------------------------------------------------------------- a frame gets another page

  /** Frame f gives up its page, which is written back if dirty, and takes page p. */
  function Install(s: Pool, f: int, p: Page): Pool
    requires 0 <= f < |s.pages|
  {
    var o := s.pages[f];
    Pool(s.pages[f := p], (if Mapped(o) then s.table - {o.id} else s.table)[p.id := f], s.free, s.evictable,
         if Mapped(o) && o.dirty then Wrote(s.stored, o.id, o.data) else s.stored, s.next)
  }

  lemma InstallOk(s: Pool, f: int, p: Page)
    requires Taken(s, f) && Safe(s, s.pages[f]) && NothingAtRisk(s)
    requires p.id !in s.table && Allocated(s, p.id) && p.pins > 0
    ensures PoolOk(Install(s, f, p)) && NothingAtRisk(Install(s, f, p))
    ensures Grown(Memory(s)[p.id := p.data], Memory(Install(s, f, p)))
    ensures forall id :: PinCount(Install(s, f, p), id) == if id == p.id then p.pins else PinCount(s, id)
  {
    var u, o := Install(s, f, p), s.pages[f];
    InstallTableOk(s, f, p);
    forall g {:trigger FrameOk(u, g)} | 0 <= g < |u.pages| ensures FrameOk(u, g) {
      if g != f {
        assert FrameOk(s, g);
      }
    }
    forall g {:trigger Safe(u, u.pages[g])} | 0 <= g < |u.pages| && u.pages[g].pins == 0 ensures Safe(u, u.pages[g]) {
      assert Safe(s, s.pages[g]) && FrameOk(s, g);
    }
    forall id | Exists(u, id) || Exists(s, id) || id == p.id
      ensures Exists(u, id)
      ensures id == p.id ==> ContentsOf(u, id) == p.data
      ensures id != p.id && Exists(s, id) ==> ContentsOf(u, id) == ContentsOf(s, id)
      ensures id != p.id && !Exists(s, id) ==> ContentsOf(u, id) == Zeros()
    {
      InstallContents(s, f, p, id);
    }
  }

  lemma InstallTableOk(s: Pool, f: int, p: Page)
    requires Taken(s, f) && p.id !in s.table && Allocated(s, p.id)
    ensures TableOk(Install(s, f, p)) && ListsOk(Install(s, f, p))
    ensures forall id :: PinCount(Install(s, f, p), id) == if id == p.id then p.pins else PinCount(s, id)
  {
    var u, o := Install(s, f, p), s.pages[f];
    forall id {:trigger EntryOk(u, id)} | id in u.table ensures EntryOk(u, id) {
      assert id != p.id ==> EntryOk(s, id);
    }
    forall id {:trigger Allocated(u, id)} | id in u.stored ensures Allocated(u, id) {
      assert id in s.stored ==> Allocated(s, id);
      assert Mapped(o) ==> EntryOk(s, o.id);
    }
    forall id ensures PinCount(u, id) == if id == p.id then p.pins else PinCount(s, id) {
      assert id in s.table ==> EntryOk(s, id);
      assert id in u.table ==> EntryOk(u, id);
    }
  }

  lemma InstallContents(s: Pool, f: int, p: Page, id: PageId)
    requires Taken(s, f) && Safe(s, s.pages[f]) && p.id !in s.table && TableOk(Install(s, f, p))
    ensures var u := Install(s, f, p);
            && (Exists(s, id) || id == p.id ==> Exists(u, id))
            && (Exists(u, id) ==> ContentsOf(u, id) == if id == p.id then p.data else if Exists(s, id) then ContentsOf(s, id) else Zeros())
  {
    var u := Install(s, f, p);
    assert id in s.table ==> EntryOk(s, id);
    assert id in u.table ==> EntryOk(u, id);
  }

  // ---------------------------------------------------------------- changes of one resident frame

  function SetPage(s: Pool, f: int, p: Page, evictable: set<int>): Pool
    requires 0 <= f < |s.pages|
  {
    s.(pages := s.pages[f := p], evictable := evictable)
  }

  /** A resident page changes its contents, dirty flag or pins; the frame is evictable when the pins are gone. */
  lemma SetPageOk(s: Pool, f: int, p: Page, evictable: set<int>)
    requires PoolOk(s) && 0 <= f < |s.pages| && Mapped(s.pages[f]) && p.id == s.pages[f].id
    requires evictable == if p.pins == 0 then s.evictable + {f} else s.evictable - {f}
    ensures var u := SetPage(s, f, p, evictable);
            && PoolOk(u) && Memory(u) == Memory(s)[p.id := p.data]
            && (forall id :: PinCount(u, id) == if id == p.id then p.pins else PinCount(s, id))
            && (NothingAtRisk(s) ==> (NothingAtRisk(u) <==> (p.pins == 0 ==> Safe(s, p))))
  {
    var u := SetPage(s, f, p, evictable);
    assert FrameOk(s, f);
    forall g {:trigger FrameOk(u, g)} | 0 <= g < |u.pages| ensures FrameOk(u, g) {
      assert FrameOk(s, g);
    }
    forall id {:trigger EntryOk(u, id)} | id in u.table ensures EntryOk(u, id) {
      assert EntryOk(s, id);
    }
    forall id {:trigger Allocated(u, id)} | id in u.stored ensures Allocated(u, id) {
      assert Allocated(s, id);
    }
    forall id ensures PinCount(u, id) == if id == p.id then p.pins else PinCount(s, id) {
      assert id in s.table ==> EntryOk(s, id) && EntryOk(u, id);
    }
    forall id | Exists(s, id) ensures ContentsOf(u, id) == if id == p.id then p.data else ContentsOf(s, id) {
      assert id in s.table ==> EntryOk(s, id) && EntryOk(u, id);
    }
    assert Memory(u) == Memory(s)[p.id := p.data];
    if NothingAtRisk(s) {
      SetPageRisk(s, f, p, u);
    }
  }

  lemma SetPageRisk(s: Pool, f: int, p: Page, u: Pool)
    requires 0 <= f < |s.pages| && u.pages == s.pages[f := p] && u.stored == s.stored && NothingAtRisk(s)
    ensures NothingAtRisk(u) <==> (p.pins == 0 ==> Safe(s, p))
  {
    assert Safe(u, u.pages[f]) <==> Safe(s, p);
    forall g {:trigger Safe(u, u.pages[g])} | 0 <= g < |u.pages| && g != f && u.pages[g].pins == 0 ensures Safe(u, u.pages[g]) {
      assert Safe(s, s.pages[g]);
    }
  }

  // ---------------------------------------------------------------- writing back

  /** The contents of the frame go to disk. */
  function WriteBack(s: Pool, f: int): Pool
    requires 0 <= f < |s.pages|
  {
    var p := s.pages[f];
    s.(stored := Wrote(s.stored, p.id, p.data), pages := s.pages[f := p.(dirty := false)])
  }

  lemma WriteBackOk(s: Pool, f: int)
    requires PoolOk(s) && 0 <= f < |s.pages| && Mapped(s.pages[f])
    ensures var u := WriteBack(s, f);
            && PoolOk(u) && Grown(Memory(s), Memory(u)) && (NothingAtRisk(s) ==> NothingAtRisk(u))
            && (forall id :: PinCount(u, id) == PinCount(s, id))
  {
    var u, p := WriteBack(s, f), s.pages[f];
    assert FrameOk(s, f) && EntryOk(s, p.id);
    forall g {:trigger FrameOk(u, g)} | 0 <= g < |u.pages| ensures FrameOk(u, g) {
      assert FrameOk(s, g);
    }
    forall id {:trigger EntryOk(u, id)} | id in u.table ensures EntryOk(u, id) {
      assert EntryOk(s, id);
    }
    forall id {:trigger Allocated(u, id)} | id in u.stored ensures Allocated(u, id) {
      assert Allocated(s, id);
    }
    forall id | Exists(s, id) ensures ContentsOf(u, id) == ContentsOf(s, id) {
      assert id in s.table ==> EntryOk(s, id) && EntryOk(u, id);
    }
    forall id ensures PinCount(u, id) == PinCount(s, id) {
      assert id in s.table ==> EntryOk(s, id) && EntryOk(u, id);
    }
    forall g {:trigger Safe(u, u.pages[g])} | NothingAtRisk(s) && 0 <= g < |u.pages| && u.pages[g].pins == 0 ensures Safe(u, u.pages[g]) {
      assert Safe(s, s.pages[g]) && FrameOk(s, g);
    }
  }

  // ---------------------------------------------------------------- dropping a page

  /** Page of frame f leaves the pool, written back if dirty; the frame becomes free. */
  function Drop(s: Pool, f: int): Pool
    requires 0 <= f < |s.pages|
  {
    var p := s.pages[f];
    Pool(s.pages[f := Page(PageId(p.id.fd, INVALID_PAGE_ID), Zeros(), false, 0)],
         s.table - {p.id}, s.free + [f], s.evictable - {f},
         if p.dirty then Wrote(s.stored, p.id, p.data) else s.stored, s.next)
  }

  lemma DropOk(s: Pool, f: int)
    requires PoolOk(s) && NothingAtRisk(s) && 0 <= f < |s.pages| && Mapped(s.pages[f]) && s.pages[f].pins == 0
    ensures var u := Drop(s, f);
            && PoolOk(u) && Grown(Memory(s), Memory(u)) && NothingAtRisk(u)
            && (forall id :: PinCount(u, id) == PinCount(s, id))
  {
    var u, p := Drop(s, f), s.pages[f];
    assert FrameOk(s, f) && EntryOk(s, p.id) && Safe(s, p);
    forall g {:trigger FrameOk(u, g)} | 0 <= g < |u.pages| ensures FrameOk(u, g) {
      assert FrameOk(s, g);
      assert u.free[|s.free|] == f;
      if g in s.free {
        var i :| 0 <= i < |s.free| && s.free[i] == g;
        assert u.free[i] == g;
      }
    }
    forall id {:trigger EntryOk(u, id)} | id in u.table ensures EntryOk(u, id) {
      assert EntryOk(s, id);
    }
    forall id {:trigger Allocated(u, id)} | id in u.stored ensures Allocated(u, id) {
      assert Allocated(s, id);
    }
    forall id | Exists(s, id) ensures ContentsOf(u, id) == ContentsOf(s, id) {
      assert id in s.table ==> EntryOk(s, id);
      assert id in u.table ==> EntryOk(u, id);
    }
    forall id ensures PinCount(u, id) == PinCount(s, id) {
      assert id in s.table ==> EntryOk(s, id);
      assert id in u.table ==> EntryOk(u, id);
    }
    forall g {:trigger Safe(u, u.pages[g])} | 0 <= g < |u.pages| && u.pages[g].pins == 0 ensures Safe(u, u.pages[g]) {
      assert g != f ==> Safe(s, s.pages[g]) && FrameOk(s, g);
    }
  }

  // ---------------------------------------------------------------- taking a frame

  /** The lists do not matter for what clients see. */
  lemma SameView(s: Pool, u: Pool)
    requires TableOk(s) && u.pages == s.pages && u.table == s.table && u.stored == s.stored && u.next == s.next
    ensures TableOk(u) && Memory(u) == Memory(s) && (NothingAtRisk(s) ==> NothingAtRisk(u))
    ensures forall id :: PinCount(u, id) == PinCount(s, id)
  {
    forall id {:trigger EntryOk(u, id)} | id in u.table ensures EntryOk(u, id) {
      assert EntryOk(s, id);
    }
    forall id {:trigger Allocated(u, id)} | id in u.stored ensures Allocated(u, id) {
      assert Allocated(s, id);
    }
    forall g {:trigger Safe(u, u.pages[g])} | NothingAtRisk(s) && 0 <= g < |u.pages| && u.pages[g].pins == 0 ensures Safe(u, u.pages[g]) {
      assert Safe(s, s.pages[g]);
    }
  }

  lemma TakeFreeOk(s: Pool)
    requires PoolOk(s) && s.free != []
    ensures Taken(s.(free := s.free[1..]), s.free[0])
  {
    var u, f := s.(free := s.free[1..]), s.free[0];
    SameView(s, u);
    assert s.free == [f] + u.free && f in s.free;
    assert forall g :: g in u.free ==> g in s.free;
    assert FrameOk(s, f);
    forall g {:trigger FrameOk(u, g)} | 0 <= g < |u.pages| && g != f ensures FrameOk(u, g) {
      assert FrameOk(s, g);
    }
  }

  lemma EvictOk(s: Pool, f: int)
    requires PoolOk(s) && f in s.evictable
    ensures Taken(s.(evictable := s.evictable - {f}), f)
  {
    var u := s.(evictable := s.evictable - {f});
    SameView(s, u);
    assert FrameOk(s, f);
    forall g {:trigger FrameOk(u, g)} | 0 <= g < |u.pages| && g != f ensures FrameOk(u, g) {
      assert FrameOk(s, g);
    }
  }

  /** Without a free or evictable frame, every frame is pinned, and conversely. */
  lemma NoFrameLeft(s: Pool)
    requires PoolOk(s)
    ensures s.free == [] && s.evictable == {} <==> AllPinned(s)
  {
    if s.free == [] && s.evictable == {} {
      forall f | 0 <= f < |s.pages| ensures s.pages[f].pins > 0 {
        assert FrameOk(s, f);
      }
    } else if s.free != [] {
      assert s.free[0] in s.free && FrameOk(s, s.free[0]);
    } else if s.evictable != {} {
      var f := SomeElement(s.evictable);
      assert FrameOk(s, f);
    }
  }

  /** There is room in the replacer for every frame that it does not hold yet. */
  lemma {:induction false} RoomFor(evictable: set<int>, n: nat, f: int)
    requires 0 <= f < n && f !in evictable && forall g :: g in evictable ==> 0 <= g < n
    ensures |evictable| < n
  {
    var all := Below(n);
    assert evictable + {f} <= all;
    assert all == (evictable + {f}) + (all - (evictable + {f}));
    assert |all| == |evictable + {f}| + |all - (evictable + {f})|;
  }

  // ---------------------------------------------------------------- changes not reported yet

  /** Every frame whose contents would be lost by eviction belongs to a page in changed. */
  ghost predicate Tracked(s: Pool, changed: set<PageId>) {
    forall f {:trigger Safe(s, s.pages[f])} :: 0 <= f < |s.pages| && !Safe(s, s.pages[f]) ==> s.pages[f].id in changed
  }

  /** Only frame f changed, and the disk changed only for pages written back. */
  lemma TrackedStep(s: Pool, u: Pool, f: int, before: set<PageId>, after: set<PageId>)
    requires PoolOk(s) && Tracked(s, before) && 0 <= f < |s.pages| && |u.pages| == |s.pages|
    requires forall g :: 0 <= g < |s.pages| && g != f ==> u.pages[g] == s.pages[g]
    requires forall id :: id in s.stored && (Mapped(s.pages[f]) ==> id != s.pages[f].id) ==> id in u.stored && u.stored[id] == s.stored[id]
    requires forall id :: id in before && id !in after ==> id == s.pages[f].id && Mapped(s.pages[f])
    requires Safe(u, u.pages[f]) || u.pages[f].id in after
    ensures Tracked(u, after)
  {
    forall g {:trigger Safe(u, u.pages[g])} | 0 <= g < |u.pages| && !Safe(u, u.pages[g]) ensures u.pages[g].id in after {
      if g != f {
        assert FrameOk(s, g) && FrameOk(s, f);
        assert !Safe(s, s.pages[g]);
      }
    }
  }

  // ---------------------------------------------------------------- giving a pin back

  predicate Resident(s: Pool, id: PageId) {
    id in s.table && 0 <= s.table[id] < |s.pages|
  }

  function Unpinned(s: Pool, id: PageId, isDirty: bool): Pool {
    if !Resident(s, id) || s.pages[s.table[id]].pins == 0 then s
    else
      var f := s.table[id];
      var p := s.pages[f].(pins := s.pages[f].pins - 1, dirty := s.pages[f].dirty || isDirty);
      SetPage(s, f, p, if p.pins == 0 then s.evictable + {f} else s.evictable - {f})
  }

  /** The last one to release a page puts its contents at risk exactly if they changed and nobody reported it. */
  ghost predicate LosesTrack(s: Pool, id: PageId, isDirty: bool)
    requires TableOk(s)
  {
    PinCount(s, id) == 1 && !isDirty && id in s.table && EntryOk(s, id) && !Safe(s, s.pages[s.table[id]])
  }

  lemma UnpinOk(s: Pool, id: PageId, isDirty: bool)
    requires PoolOk(s)
    ensures var u := Unpinned(s, id, isDirty);
            && PoolOk(u) && Memory(u) == Memory(s)
            && (forall x :: PinCount(u, x) == if x == id && PinCount(s, x) > 0 then PinCount(s, x) - 1 else PinCount(s, x))
            && (NothingAtRisk(s) ==> (NothingAtRisk(u) <==> !LosesTrack(s, id, isDirty)))
  {
    if id in s.table {
      assert EntryOk(s, id) && FrameOk(s, s.table[id]);
      var u, f := Unpinned(s, id, isDirty), s.table[id];
      var p := u.pages[f];
      if s.pages[f].pins > 0 {
        assert u == SetPage(s, f, p, u.evictable);
        assert s.evictable - {f} == s.evictable;
        SetPageOk(s, f, p, u.evictable);
        assert Memory(s)[p.id := p.data] == Memory(s);
      }
    }
  }

  lemma UnpinTracked(s: Pool, id: PageId, isDirty: bool, changed: set<PageId>)
    requires PoolOk(s) && Tracked(s, changed)
    ensures Tracked(Unpinned(s, id, isDirty), if isDirty && PinCount(s, id) > 0 then changed - {id} else changed)
  {
    if id in s.table {
      assert EntryOk(s, id) && FrameOk(s, s.table[id]);
      var f := s.table[id];
      if s.pages[f].pins > 0 {
        assert !Safe(s, s.pages[f]) ==> id in changed;
        TrackedStep(s, Unpinned(s, id, isDirty), f, changed, if isDirty then changed - {id} else changed);
      }
    }
  }

  // ---------------------------------------------------------------- flushing and deleting

  function Flushed(s: Pool, id: PageId): Pool {
    if Resident(s, id) then WriteBack(s, s.table[id]) else s
  }

  lemma FlushOk(s: Pool, id: PageId, changed: set<PageId>)
    requires PoolOk(s) && Tracked(s, changed)
    ensures var u := Flushed(s, id);
            && PoolOk(u) && Grown(Memory(s), Memory(u)) && (NothingAtRisk(s) ==> NothingAtRisk(u))
            && (forall x :: PinCount(u, x) == PinCount(s, x))
            && Tracked(u, if id in s.table then changed - {id} else changed)
            && (id in s.table ==> id in u.stored && u.stored[id] == ContentsOf(s, id) && Resident(u, id) && !u.pages[u.table[id]].dirty)
            && (forall f :: 0 <= f < |s.pages| && s.pages[f].id != id ==> f < |u.pages| && u.pages[f] == s.pages[f])
  {
    if id in s.table {
      assert EntryOk(s, id) && FrameOk(s, s.table[id]);
      var u, f := Flushed(s, id), s.table[id];
      WriteBackOk(s, f);
      assert Safe(u, u.pages[f]);
      TrackedStep(s, u, f, changed, changed - {id});
    }
  }

  /** The loop of FlushAllPages over the first n frames. */
  function FlushedFrames(s: Pool, fd: int, n: nat): Pool
    requires n <= |s.pages|
    ensures |FlushedFrames(s, fd, n).pages| == |s.pages|
  {
    if n == 0 then s
    else
      var u := FlushedFrames(s, fd, n - 1);
      if OfFile(u.pages[n - 1], fd) then WriteBack(u, n - 1) else u
  }

  /** A frame whose contents are on disk and known to be. */
  ghost predicate Durable(s: Pool, p: Page) {
    !p.dirty && p.id in s.stored && s.stored[p.id] == p.data
  }

  predicate OfFile(p: Page, fd: int) { p.id.fd == fd && Mapped(p) }

  /** The loop changes nothing that clients see. */
  lemma {:induction false} FlushedView(s: Pool, fd: int, n: nat, changed: set<PageId>)
    requires PoolOk(s) && n <= |s.pages| && Tracked(s, changed)
    ensures var u := FlushedFrames(s, fd, n);
            && PoolOk(u) && Grown(Memory(s), Memory(u)) && (NothingAtRisk(s) ==> NothingAtRisk(u))
            && (forall x :: PinCount(u, x) == PinCount(s, x)) && Tracked(u, changed)
  {
    if n > 0 {
      FlushedView(s, fd, n - 1, changed);
      var t, u := FlushedFrames(s, fd, n - 1), FlushedFrames(s, fd, n);
      if OfFile(t.pages[n - 1], fd) {
        WriteBackTracked(t, n - 1, changed);
        GrownTwice(Memory(s), Memory(t), Memory(u));
      }
    }
  }

  lemma WriteBackTracked(t: Pool, f: int, changed: set<PageId>)
    requires PoolOk(t) && 0 <= f < |t.pages| && Mapped(t.pages[f]) && Tracked(t, changed)
    ensures var u := WriteBack(t, f);
            && PoolOk(u) && Grown(Memory(t), Memory(u)) && (NothingAtRisk(t) ==> NothingAtRisk(u))
            && (forall x :: PinCount(u, x) == PinCount(t, x)) && Tracked(u, changed)
  {
    WriteBackOk(t, f);
    TrackedStep(t, WriteBack(t, f), f, changed, changed);
  }

  lemma GrownTwice(a: map<PageId, Data>, b: map<PageId, Data>, c: map<PageId, Data>)
    requires Grown(a, b) && Grown(b, c)
    ensures Grown(a, c)
  {
  }

  /** It marks the pages of the file clean, changes nothing else in the frames, and all it passed is on disk. */
  lemma {:induction false} FlushedFramesOk(s: Pool, fd: int, n: nat, changed: set<PageId>)
    requires PoolOk(s) && n <= |s.pages| && Tracked(s, changed)
    ensures var u := FlushedFrames(s, fd, n);
            && (forall g :: 0 <= g < |s.pages| ==>
                  u.pages[g] == if g < n && OfFile(s.pages[g], fd) then s.pages[g].(dirty := false) else s.pages[g])
            && (forall g {:trigger Durable(u, u.pages[g])} :: 0 <= g < n && OfFile(s.pages[g], fd) ==> Durable(u, u.pages[g]))
  {
    if n > 0 {
      FlushedFramesOk(s, fd, n - 1, changed);
      FlushedView(s, fd, n - 1, changed);
      var t, u := FlushedFrames(s, fd, n - 1), FlushedFrames(s, fd, n);
      forall g {:trigger Durable(u, u.pages[g])} | 0 <= g < n && OfFile(s.pages[g], fd) ensures Durable(u, u.pages[g]) {
        assert g < n - 1 ==> Durable(t, t.pages[g]);
        StaysDurable(t, n - 1, g, fd);
      }
    }
  }

  lemma StaysDurable(t: Pool, f: int, g: int, fd: int)
    requires PoolOk(t) && 0 <= f < |t.pages| && 0 <= g < |t.pages| && OfFile(t.pages[g], fd)
    requires g == f || Durable(t, t.pages[g])
    ensures OfFile(t.pages[f], fd) ==> var u := WriteBack(t, f); Durable(u, u.pages[g])
  {
    assert FrameOk(t, f) && FrameOk(t, g);
  }

  function OtherFiles(changed: set<PageId>, fd: int): set<PageId> {
    set id | id in changed && id.fd != fd
  }

  /** After FlushAllPages every resident page of the file is on disk, and its changes need no report any more. */
  lemma FlushAllOk(s: Pool, fd: int, changed: set<PageId>)
    requires PoolOk(s) && Tracked(s, changed)
    ensures var u := FlushedFrames(s, fd, |s.pages|);
            && PoolOk(u) && Grown(Memory(s), Memory(u)) && (NothingAtRisk(s) ==> NothingAtRisk(u))
            && (forall x :: PinCount(u, x) == PinCount(s, x))
            && (forall id :: id in s.table && id.fd == fd ==>
                  && 0 <= s.table[id] < |u.pages| && !u.pages[s.table[id]].dirty
                  && id in u.stored && u.stored[id] == u.pages[s.table[id]].data == ContentsOf(s, id))
            && u.table == s.table
            && Tracked(u, OtherFiles(changed, fd))
  {
    FlushedView(s, fd, |s.pages|, changed);
    FlushedFramesOk(s, fd, |s.pages|, changed);
    var u := FlushedFrames(s, fd, |s.pages|);
    FlushedNext(s, fd, |s.pages|);
    forall id | id in s.table && id.fd == fd
      ensures 0 <= s.table[id] < |u.pages| && !u.pages[s.table[id]].dirty
      ensures id in u.stored && u.stored[id] == u.pages[s.table[id]].data == ContentsOf(s, id)
    {
      EntryMapped(s, id);
      assert OfFile(s.pages[s.table[id]], fd);
      assert Durable(u, u.pages[s.table[id]]);
    }
    forall g {:trigger Safe(u, u.pages[g])} | 0 <= g < |u.pages| && !Safe(u, u.pages[g])
      ensures u.pages[g].id in OtherFiles(changed, fd)
    {
      assert OfFile(s.pages[g], fd) ==> Durable(u, u.pages[g]);
    }
  }

  lemma {:induction false} FlushedNext(s: Pool, fd: int, n: nat)
    requires n <= |s.pages|
    ensures FlushedFrames(s, fd, n).table == s.table && FlushedFrames(s, fd, n).next == s.next
  {
    if n > 0 {
      FlushedNext(s, fd, n - 1);
    }
  }

  lemma EntryMapped(s: Pool, id: PageId)
    requires PoolOk(s) && id in s.table
    ensures EntryOk(s, id) && Mapped(s.pages[s.table[id]])
  {
    assert EntryOk(s, id);
  }

  function Deleted(s: Pool, id: PageId): Pool {
    if !Resident(s, id) || s.pages[s.table[id]].pins > 0 then s else Drop(s, s.table[id])
  }

  lemma DeleteOk(s: Pool, id: PageId, changed: set<PageId>)
    requires PoolOk(s) && NothingAtRisk(s) && Tracked(s, changed)
    ensures var u := Deleted(s, id);
            && PoolOk(u) && Grown(Memory(s), Memory(u)) && NothingAtRisk(u)
            && (forall x :: PinCount(u, x) == PinCount(s, x)) && Tracked(u, changed)
            && (id in s.table && PinCount(s, id) == 0 ==>
                  && id !in u.table && id in u.stored && u.stored[id] == ContentsOf(s, id)
                  && u.free == s.free + [s.table[id]] && s.table[id] !in u.evictable)
  {
    if id in s.table {
      assert EntryOk(s, id) && FrameOk(s, s.table[id]);
      var f := s.table[id];
      if s.pages[f].pins == 0 {
        DropOk(s, f);
        assert Safe(s, s.pages[f]);
        TrackedStep(s, Drop(s, f), f, changed, changed);
      }
    }
  }

  // ---------------------------------------------------------------- a new page, and writing to a page

  /** The next page number of the file is used up, and frame f has that page, zeroed and pinned. */
  function Created(s: Pool, f: int, fd: int): Pool
    requires 0 <= f < |s.pages| && fd in s.next
  {
    Install(s.(next := s.next[fd := s.next[fd] + 1]), f, Page(PageId(fd, s.next[fd]), Zeros(), false, 1))
  }

  lemma CreateOk(s: Pool, t: Pool, f: int, fd: int, changed: set<PageId>)
    requires PoolOk(s) && NothingAtRisk(s) && Taken(t, f) && Tracked(s, changed)
    requires t.pages == s.pages && t.table == s.table && t.stored == s.stored && t.next == s.next
    requires fd in s.next
    ensures var u, id := Created(t, f, fd), PageId(fd, s.next[fd]);
            && PoolOk(u) && NothingAtRisk(u) && !Exists(s, id) && Grown(Memory(s)[id := Zeros()], Memory(u))
            && (forall x :: PinCount(u, x) == PinCount(s, x) + if x == id then 1 else 0)
            && Tracked(u, changed + {id})
  {
    var id := PageId(fd, s.next[fd]);
    var v := t.(next := t.next[fd := t.next[fd] + 1]);
    assert id in s.table ==> EntryOk(s, id);
    assert id in s.stored ==> Allocated(s, id);
    SameView(s, t);
    CounterMoves(t, v, f);
    InstallOk(v, f, Page(id, Zeros(), false, 1));
    assert v.pages[f].pins == 0 && Safe(v, v.pages[f]);
    TrackedStep(s, Created(t, f, fd), f, changed, changed + {id});
  }

  /** Handing out a page number changes nothing that is there. */
  lemma CounterMoves(t: Pool, v: Pool, f: int)
    requires Taken(t, f) && v == t.(next := v.next) && t.next.Keys <= v.next.Keys
    requires forall fd :: fd in t.next ==> t.next[fd] <= v.next[fd]
    ensures Taken(v, f) && Memory(v) == Memory(t) && (NothingAtRisk(t) ==> NothingAtRisk(v))
    ensures forall x :: PinCount(v, x) == PinCount(t, x)
  {
    forall id {:trigger EntryOk(v, id)} | id in v.table ensures EntryOk(v, id) {
      assert EntryOk(t, id);
    }
    forall id {:trigger Allocated(v, id)} | id in v.stored ensures Allocated(v, id) {
      assert Allocated(t, id);
    }
    forall g {:trigger FrameOk(v, g)} | 0 <= g < |v.pages| && g != f ensures FrameOk(v, g) {
      assert FrameOk(t, g);
    }
    forall g {:trigger Safe(v, v.pages[g])} | NothingAtRisk(t) && 0 <= g < |v.pages| && v.pages[g].pins == 0 ensures Safe(v, v.pages[g]) {
      assert Safe(t, t.pages[g]);
    }
  }

  /** Whoever has a page pinned may write to its frame. */
  function Written(s: Pool, f: int, data: Data): Pool
    requires 0 <= f < |s.pages|
  {
    SetPage(s, f, s.pages[f].(data := data), s.evictable)
  }

  lemma WriteOk(s: Pool, id: PageId, data: Data, changed: set<PageId>)
    requires PoolOk(s) && NothingAtRisk(s) && Tracked(s, changed) && PinCount(s, id) > 0
    ensures Resident(s, id)
    ensures var u := Written(s, s.table[id], data);
            && PoolOk(u) && NothingAtRisk(u) && Memory(u) == Memory(s)[id := data]
            && (forall x :: PinCount(u, x) == PinCount(s, x)) && Tracked(u, changed + {id})
  {
    assert EntryOk(s, id) && FrameOk(s, s.table[id]);
    var f := s.table[id];
    assert s.evictable - {f} == s.evictable;
    SetPageOk(s, f, s.pages[f].(data := data), s.evictable);
    TrackedStep(s, Written(s, f, data), f, changed, changed + {id});
  }

  /** Pinning and loading keep track of changes. */
  lemma PinTracked(s: Pool, f: int, p: Page, e: set<int>, changed: set<PageId>)
    requires PoolOk(s) && Tracked(s, changed) && 0 <= f < |s.pages|
    requires p.id == s.pages[f].id && p.data == s.pages[f].data && p.dirty == s.pages[f].dirty
    ensures Tracked(SetPage(s, f, p, e), changed)
  {
    assert Safe(s, s.pages[f]) || s.pages[f].id in changed;
    TrackedStep(s, SetPage(s, f, p, e), f, changed, changed);
  }

  lemma LoadTracked(s: Pool, t: Pool, f: int, id: PageId, data: Data, changed: set<PageId>)
    requires PoolOk(s) && Tracked(s, changed) && Taken(t, f) && id !in s.table && NothingAtRisk(s)
    requires t.pages == s.pages && t.table == s.table && t.stored == s.stored && t.next == s.next
    requires var u := Install(t, f, Page(id, data, false, 1)); id in u.stored && u.stored[id] == data
    ensures Tracked(Install(t, f, Page(id, data, false, 1)), changed)
  {
    assert Safe(s, s.pages[f]);
    TrackedStep(s, Install(t, f, Page(id, data, false, 1)), f, changed, changed);
  }
}
