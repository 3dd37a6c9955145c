/**
 The buffer pool as its clients see it: a memory of pages.  Every run in which changes are
 reported by whoever releases a page is explained by that memory, no matter which pages the pool
 evicts, reloads, flushes or drops in between.
 */
module PoolClients {
  import opened Sets
  import opened PoolState
  import opened BufferPool

  datatype Op =
    | Fetch(id: PageId)
    | Unpin(id: PageId, isDirty: bool)
    | Flush(id: PageId)
    | FlushAll(fd: int)
    | New(fd: int)
    | Delete(id: PageId)
    | Write(id: PageId, data: Data)

  datatype Reply = Contents(data: Data) | Created(id: PageId) | Done(ok: bool) | Refused

  /** What clients know: the contents of all pages, their own pins, and the changes they have not reported. */
  datatype Client = Client(memory: map<PageId, Data>, pins: map<PageId, nat>, changed: set<PageId>)

  function Pins(c: Client, id: PageId): nat {
    if id in c.pins then c.pins[id] else 0
  }

  /**
   The discipline: only existing pages are fetched, only pinned pages are written, and a page with
   an unreported change is released as dirty.
   */
  predicate Legal(c: Client, op: Op, fds: set<int>) {
    match op
    case Fetch(id) => id in c.memory
    case Unpin(id, isDirty) => isDirty || id !in c.changed
    case New(fd) => fd in fds
    case Write(id, _) => Pins(c, id) > 0
    case _ => true
  }

  function PinnedPages(c: Client): set<PageId> {
    set id | id in c.pins && c.pins[id] > 0
  }

  /** The reply is what a plain memory would answer; the pool refuses exactly for want of a frame. */
  predicate Truthful(c: Client, op: Op, reply: Reply, frames: nat) {
    match op
    case Fetch(id) =>
      && (reply == Refused || (id in c.memory && reply == Contents(c.memory[id])))
      && (reply == Refused <==> |PinnedPages(c)| == frames && Pins(c, id) == 0)
    case Unpin(id, _) => reply == Done(Pins(c, id) > 0)
    case New(fd) =>
      && (reply == Refused || (reply.Created? && reply.id.fd == fd && reply.id !in c.memory))
      && (reply == Refused <==> |PinnedPages(c)| == frames)
    case Delete(id) => reply == Done(Pins(c, id) == 0)
    case Write(_, _) => reply == Done(true)
    case Flush(id) => reply.Done? && (Pins(c, id) > 0 ==> reply.ok)
    case FlushAll(_) => reply == Done(true)
  }

  /** What clients know after an operation and its reply. */
  function Next(c: Client, op: Op, reply: Reply): Client {
    match op
    case Fetch(id) => if reply.Contents? then c.(pins := c.pins[id := Pins(c, id) + 1]) else c
    case Unpin(id, isDirty) =>
      if Pins(c, id) == 0 then c
      else c.(pins := c.pins[id := Pins(c, id) - 1], changed := if isDirty then c.changed - {id} else c.changed)
    case Flush(id) => if reply == Done(true) then c.(changed := c.changed - {id}) else c
    case New(_) =>
      if reply.Created? then Client(c.memory[reply.id := Zeros()], c.pins[reply.id := Pins(c, reply.id) + 1], c.changed + {reply.id})
      else c
    case Write(id, data) => c.(memory := c.memory[id := data], changed := c.changed + {id})
    case FlushAll(fd) => c.(changed := OtherFiles(c.changed, fd))
    case Delete(_) => c
  }

  /** What clients know after a run. */
  function After(c: Client, ops: seq<Op>, log: seq<Reply>): Client
    requires |log| <= |ops|
  {
    if log == [] then c else
      var n := |log| - 1;
      Next(After(c, ops, log[..n]), ops[n], log[n])
  }

  /** Every operation of the run was legal and every reply truthful. */
  predicate Explained(c: Client, ops: seq<Op>, log: seq<Reply>, fds: set<int>, frames: nat)
    requires |log| <= |ops|
  {
    log == [] ||
      var n := |log| - 1;
      && Explained(c, ops, log[..n], fds, frames)
      && Legal(After(c, ops, log[..n]), ops[n], fds)
      && Truthful(After(c, ops, log[..n]), ops[n], log[n], frames)
  }

  /** The pool has every page that clients know, with the contents they know. */
  ghost predicate Holds(memory: map<PageId, Data>, s: Pool)
    requires TableOk(s)
  {
    forall id :: id in memory ==> id in Memory(s) && Memory(s)[id] == memory[id]
  }

  /** The clients' knowledge fits the state of the pool. */
  ghost predicate Fits(c: Client, s: Pool, fds: set<int>) {
    && PoolOk(s) && NothingAtRisk(s) && Holds(c.memory, s) && s.next.Keys == fds
    && (forall id :: PinCount(s, id) == Pins(c, id))
    && Tracked(s, c.changed)
  }

  /** A page whose changes are all reported is safe. */
  lemma ReportedIsSafe(c: Client, s: Pool, fds: set<int>, id: PageId, isDirty: bool)
    requires Fits(c, s, fds) && (isDirty || id !in c.changed)
    ensures !LosesTrack(s, id, isDirty)
  {
    if id in s.table {
      assert EntryOk(s, id);
      assert Safe(s, s.pages[s.table[id]]) || id in c.changed;
    }
  }

  /** The pool is full of pinned pages exactly when the clients have as many pinned as there are frames. */
  lemma FullByPins(c: Client, s: Pool, fds: set<int>)
    requires Fits(c, s, fds)
    ensures AllPinned(s) <==> |PinnedPages(c)| == |s.pages|
  {
    var frames := set f | 0 <= f < |s.pages| && s.pages[f].pins > 0;
    forall id | id in PinnedPages(c) ensures id in s.table && EntryOk(s, id) && s.table[id] in frames {
      assert PinCount(s, id) == Pins(c, id);
    }
    forall f | f in frames ensures s.pages[f].id in PinnedPages(c) && s.table[s.pages[f].id] == f {
      assert FrameOk(s, f) && PinCount(s, s.pages[f].id) == Pins(c, s.pages[f].id);
    }
    assert frames == set id | id in PinnedPages(c) :: s.table[id];
    SameSize(PinnedPages(c), frames, s.table);
    AllBelow(frames, |s.pages|);
  }

  lemma {:induction false} SameSize(ids: set<PageId>, frames: set<int>, table: map<PageId, int>)
    requires forall id :: id in ids ==> id in table
    requires forall x, y :: x in ids && y in ids && x != y ==> table[x] != table[y]
    requires frames == set id | id in ids :: table[id]
    ensures |ids| == |frames|
  {
    if ids != {} {
      var id := SomeElement(ids);
      SameSize(ids - {id}, frames - {table[id]}, table);
    }
  }

  /** When every frame is pinned, a page is resident exactly when the clients have it pinned. */
  lemma ResidentWhenFull(c: Client, s: Pool, fds: set<int>, id: PageId)
    requires Fits(c, s, fds)
    ensures AllPinned(s) ==> (id in s.table <==> Pins(c, id) > 0)
  {
    assert PinCount(s, id) == Pins(c, id);
    assert id in s.table ==> EntryOk(s, id);
  }

  lemma StillHolds(memory: map<PageId, Data>, s: Pool, u: Pool)
    requires TableOk(s) && Holds(memory, s)
    ensures TableOk(u) && Grown(Memory(s), Memory(u)) ==> Holds(memory, u)
  {
  }

  lemma FetchFits(c: Client, s: Pool, u: Pool, fds: set<int>, id: PageId, reply: Reply)
    requires Fits(c, s, fds) && PoolOk(u) && NothingAtRisk(u) && Holds(c.memory, u) && u.next.Keys == s.next.Keys && KeepsTrack(s, u)
    requires reply.Contents? || reply.Refused?
    requires forall x :: PinCount(u, x) == PinCount(s, x) + if reply.Contents? && x == id then 1 else 0
    ensures Fits(Next(c, Fetch(id), reply), u, fds)
  {
  }

  lemma NewFits(c: Client, s: Pool, u: Pool, fds: set<int>, id: PageId)
    requires Fits(c, s, fds) && PoolOk(u) && NothingAtRisk(u) && u.next.Keys == s.next.Keys && !Exists(s, id)
    requires Grown(Memory(s)[id := Zeros()], Memory(u)) && Tracked(u, c.changed + {id})
    requires forall x :: PinCount(u, x) == PinCount(s, x) + if x == id then 1 else 0
    ensures Fits(Next(c, New(id.fd), Created(id)), u, fds) && id !in c.memory
  {
    assert id !in c.memory;
  }

  lemma FlushAllFits(c: Client, s: Pool, u: Pool, fds: set<int>, fd: int)
    requires Fits(c, s, fds) && PoolOk(u) && NothingAtRisk(u) && u.next.Keys == s.next.Keys
    requires Grown(Memory(s), Memory(u)) && Tracked(u, OtherFiles(c.changed, fd))
    requires forall x :: PinCount(u, x) == PinCount(s, x)
    ensures Fits(Next(c, FlushAll(fd), Done(true)), u, fds)
  {
    StillHolds(c.memory, s, u);
  }

  method DoFetch(pool: BufferPoolManager, id: PageId, ghost c: Client, ghost fds: set<int>) returns (reply: Reply)
    requires pool.Valid() && Fits(c, pool.State(), fds) && id in c.memory
    modifies pool, pool.disk, pool.replacer
    ensures pool.Valid() && Truthful(c, Fetch(id), reply, pool.poolSize) && Fits(Next(c, Fetch(id), reply), pool.State(), fds)
  {
    FullByPins(c, pool.State(), fds);
    ResidentWhenFull(c, pool.State(), fds, id);
    ghost var s := pool.State();
    var r := pool.FetchPage(id);
    StillHolds(c.memory, s, pool.State());
    reply := if r.Fetched? then Contents(pool.pages[r.frame].data) else Refused;
    FetchFits(c, s, pool.State(), fds, id, reply);
  }

  lemma UnpinFits(c: Client, s: Pool, fds: set<int>, id: PageId, isDirty: bool)
    requires Fits(c, s, fds) && (isDirty || id !in c.changed)
    ensures Fits(Next(c, Unpin(id, isDirty), Done(Pins(c, id) > 0)), Unpinned(s, id, isDirty), fds)
  {
    ReportedIsSafe(c, s, fds, id, isDirty);
    UnpinOk(s, id, isDirty);
    UnpinTracked(s, id, isDirty, c.changed);
  }

  method DoUnpin(pool: BufferPoolManager, id: PageId, isDirty: bool, ghost c: Client, ghost fds: set<int>) returns (reply: Reply)
    requires pool.Valid() && Fits(c, pool.State(), fds) && (isDirty || id !in c.changed)
    modifies pool, pool.disk, pool.replacer
    ensures pool.Valid() && Truthful(c, Unpin(id, isDirty), reply, pool.poolSize)
    ensures Fits(Next(c, Unpin(id, isDirty), reply), pool.State(), fds)
  {
    UnpinFits(c, pool.State(), fds, id, isDirty);
    var ok := pool.UnpinPage(id, isDirty);
    reply := Done(ok);
  }

  method DoFlush(pool: BufferPoolManager, id: PageId, ghost c: Client, ghost fds: set<int>) returns (reply: Reply)
    requires pool.Valid() && Fits(c, pool.State(), fds)
    modifies pool, pool.disk, pool.replacer
    ensures pool.Valid() && Truthful(c, Flush(id), reply, pool.poolSize) && Fits(Next(c, Flush(id), reply), pool.State(), fds)
  {
    FlushOk(pool.State(), id, c.changed);
    var ok := pool.FlushPage(id);
    reply := Done(ok);
  }

  method DoFlushAll(pool: BufferPoolManager, fd: int, ghost c: Client, ghost fds: set<int>) returns (reply: Reply)
    requires pool.Valid() && Fits(c, pool.State(), fds)
    modifies pool, pool.disk, pool.replacer
    ensures pool.Valid() && Truthful(c, FlushAll(fd), reply, pool.poolSize) && Fits(Next(c, FlushAll(fd), reply), pool.State(), fds)
  {
    ghost var s := pool.State();
    FlushAllOk(s, fd, c.changed);
    FlushedNext(s, fd, |s.pages|);
    pool.FlushAllPages(fd);
    FlushAllFits(c, s, pool.State(), fds, fd);
    reply := Done(true);
  }

  method DoNew(pool: BufferPoolManager, fd: int, ghost c: Client, ghost fds: set<int>) returns (reply: Reply)
    requires pool.Valid() && Fits(c, pool.State(), fds) && fd in fds
    modifies pool, pool.disk, pool.replacer
    ensures pool.Valid() && Truthful(c, New(fd), reply, pool.poolSize) && Fits(Next(c, New(fd), reply), pool.State(), fds)
  {
    ghost var s := pool.State();
    FullByPins(c, s, fds);
    var ok, id, t, f := pool.NewPage(fd);
    if ok {
      CreateOk(s, t, f, fd, c.changed);
      NewFits(c, s, pool.State(), fds, id);
      reply := Created(id);
    } else {
      reply := Refused;
    }
  }

  method DoDelete(pool: BufferPoolManager, id: PageId, ghost c: Client, ghost fds: set<int>) returns (reply: Reply)
    requires pool.Valid() && Fits(c, pool.State(), fds)
    modifies pool, pool.disk, pool.replacer
    ensures pool.Valid() && Truthful(c, Delete(id), reply, pool.poolSize) && Fits(Next(c, Delete(id), reply), pool.State(), fds)
  {
    DeleteOk(pool.State(), id, c.changed);
    var ok := pool.DeletePage(id);
    reply := Done(ok);
  }

  method DoWrite(pool: BufferPoolManager, id: PageId, data: Data, ghost c: Client, ghost fds: set<int>) returns (reply: Reply)
    requires pool.Valid() && Fits(c, pool.State(), fds) && Pins(c, id) > 0
    modifies pool, pool.disk, pool.replacer
    ensures pool.Valid() && Truthful(c, Write(id, data), reply, pool.poolSize) && Fits(Next(c, Write(id, data), reply), pool.State(), fds)
  {
    WriteOk(pool.State(), id, data, c.changed);
    pool.WriteData(pool.pageTable[id], data);
    reply := Done(true);
  }

  method Do(pool: BufferPoolManager, op: Op, ghost c: Client, ghost fds: set<int>) returns (reply: Reply)
    requires pool.Valid() && Fits(c, pool.State(), fds) && Legal(c, op, fds)
    modifies pool, pool.disk, pool.replacer
    ensures pool.Valid() && Truthful(c, op, reply, pool.poolSize) && Fits(Next(c, op, reply), pool.State(), fds)
  {
    match op
    case Fetch(id) => reply := DoFetch(pool, id, c, fds);
    case Unpin(id, isDirty) => reply := DoUnpin(pool, id, isDirty, c, fds);
    case Flush(id) => reply := DoFlush(pool, id, c, fds);
    case FlushAll(fd) => reply := DoFlushAll(pool, fd, c, fds);
    case New(fd) => reply := DoNew(pool, fd, c, fds);
    case Delete(id) => reply := DoDelete(pool, id, c, fds);
    case Write(id, data) => reply := DoWrite(pool, id, data, c, fds);
  }

  /**
   A whole run on a fresh pool over a given disk, up to the first breach of the discipline: every
   reply is the one a plain memory would give.
   */
  method Run(poolSize: nat, stored: map<PageId, Data>, nextPage: map<int, nat>, ops: seq<Op>) returns (log: seq<Reply>)
    requires Contiguous(stored)
    requires forall id :: id in stored ==> id.fd in nextPage && 0 <= id.pageNo < nextPage[id.fd]
    ensures |log| <= |ops| && Explained(Client(stored, map[], {}), ops, log, nextPage.Keys, poolSize)
    ensures |log| < |ops| ==> !Legal(After(Client(stored, map[], {}), ops, log), ops[|log|], nextPage.Keys)
  {
    var disk := new DiskManager(stored, nextPage);
    var pool := new BufferPoolManager(poolSize, disk);
    var fds := nextPage.Keys;
    var start := Client(stored, map[], {});
    var c := start;
    log := [];
    FreshIsTracked(pool.State());
    while |log| < |ops|
      invariant |log| <= |ops| && fresh(pool) && fresh(pool.disk) && fresh(pool.replacer)
      invariant pool.Valid() && pool.poolSize == poolSize && Fits(c, pool.State(), fds)
      invariant c == After(start, ops, log) && Explained(start, ops, log, fds, poolSize)
      decreases |ops| - |log|
    {
      var op := ops[|log|];
      if !Legal(c, op, fds) {
        return;
      }
      var reply := Do(pool, op, c, fds);
      assert (log + [reply])[..|log|] == log;
      c := Next(c, op, reply);
      log := log + [reply];
    }
  }

  lemma FreshIsTracked(s: Pool)
    requires NothingAtRisk(s) && PoolOk(s) && forall id :: PinCount(s, id) == 0
    ensures Tracked(s, {})
  {
    forall f {:trigger Safe(s, s.pages[f])} | 0 <= f < |s.pages| ensures Safe(s, s.pages[f]) {
      assert FrameOk(s, f) && PinCount(s, s.pages[f].id) == 0;
      assert Mapped(s.pages[f]) ==> EntryOk(s, s.pages[f].id);
    }
  }
}
