/**
 The layout of a record file (src/record/rm_manager.h) and of one of its
 pages (src/record/rm_file_handle.h): after the page header come the slot
 bitmap and then the slots.
 */
module RecordPage {
  import opened Config
  import opened Sets
  import opened Bitmap

  const MAX_RECORD_SIZE: nat := 512
  const FILE_HEADER_SIZE: nat := 20
  /** byte 0 to 3 hold the log sequence number, 4 to 11 the page header */
  const BITMAP_START: nat := 12
  const RM_NO_PAGE: int := -1

  datatype Header = Header(recordSize: nat, numPages: int, recordsPerPage: nat, firstFree: int, bitmapSize: nat)

  datatype Created = Opened(hdr: Header) | InvalidRecordSize

  function RecordsPerPage(recordSize: nat): nat {
    (8 * (PAGE_SIZE - 1 - FILE_HEADER_SIZE) + 1) / (1 + recordSize * 8)
  }

  function CreateFile(recordSize: int): Created {
    if recordSize < 1 || recordSize > MAX_RECORD_SIZE then InvalidRecordSize
    else
      var n := RecordsPerPage(recordSize);
      Opened(Header(recordSize, 1, n, RM_NO_PAGE, (n + 8 - 1) / 8))
  }

  /** What the rest of the record layer needs of the layout. */
  predicate LaidOut(h: Header) {
    && h.recordSize >= 1
    && h.recordsPerPage >= 1
    && h.recordsPerPage <= 8 * h.bitmapSize
    && BITMAP_START + h.bitmapSize + h.recordsPerPage * h.recordSize <= PAGE_SIZE
  }

  /** The inequality the layout is computed from. */
  predicate Fits(recordSize: nat, n: nat) {
    FILE_HEADER_SIZE + (n + 7) / 8 + n * recordSize <= PAGE_SIZE
  }

  lemma MulMono(a: nat, b: nat, c: nat)
    requires a <= b
    ensures a * c <= b * c
  {
  }

  lemma FitsExactly(recordSize: nat, n: nat)
    ensures Fits(recordSize, n) <==> n * (1 + recordSize * 8) <= 8 * (PAGE_SIZE - FILE_HEADER_SIZE)
  {
    assert n * (1 + recordSize * 8) == n + 8 * (n * recordSize);
  }

  /**
   Every created file has room for its bitmap and all its slots in a page.
   The computed count fits the inequality it was meant to solve, and is short
   of the largest count that does by at most one record.
   */
  lemma CreatedFileIsLaidOut(recordSize: int)
    ensures CreateFile(recordSize).Opened? <==> 1 <= recordSize <= MAX_RECORD_SIZE
    ensures CreateFile(recordSize).Opened? ==>
      var h := CreateFile(recordSize).hdr;
      && LaidOut(h) && h.recordsPerPage >= 7
      && Fits(recordSize, h.recordsPerPage) && !Fits(recordSize, h.recordsPerPage + 2)
  {
    if 1 <= recordSize <= MAX_RECORD_SIZE {
      var h := CreateFile(recordSize).hdr;
      var n, d := h.recordsPerPage, 1 + recordSize * 8;
      Quotient(8 * (PAGE_SIZE - 1 - FILE_HEADER_SIZE) + 1, d, 7);
      FitsExactly(recordSize, n);
      FitsExactly(recordSize, n + 2);
      assert (n + 2) * d == (n + 1) * d + d;
    }
  }

  lemma Quotient(a: nat, d: nat, k: nat)
    requires d > 0 && k * d <= a
    ensures (a / d) * d <= a < (a / d + 1) * d
    ensures k <= a / d
  {
    if a / d < k {
      MulMono(a / d + 1, k, d);
    }
  }

  /**
   One record more would fit exactly when, of the page counted in bits, fewer
   than seven are left over by as many records as fit.
   */
  lemma OneShort(recordSize: int)
    requires 1 <= recordSize <= MAX_RECORD_SIZE
    ensures Fits(recordSize, CreateFile(recordSize).hdr.recordsPerPage + 1) <==>
            (8 * (PAGE_SIZE - FILE_HEADER_SIZE)) % (1 + recordSize * 8) < 7
  {
    var n, d, room := RecordsPerPage(recordSize), 1 + recordSize * 8, 8 * (PAGE_SIZE - FILE_HEADER_SIZE);
    Quotient(room - 7, d, 0);
    FitsExactly(recordSize, n + 1);
    OneMoreFits(n, d, room, room / d, room % d);
  }

  lemma OneMoreFits(n: nat, d: nat, room: nat, q: nat, m: nat)
    requires room == q * d + m && m < d && n * d <= room - 7 < (n + 1) * d
    ensures (n + 1) * d <= room <==> m < 7
  {
    if m < 7 {
      if n >= q { MulMono(q, n, d); }
      MulMono(n + 1, q, d);
    } else {
      if n < q { MulMono(n + 1, q, d); }
      MulMono(q + 1, n + 1, d);
    }
  }

  // ---------------------------------------------------------------- pages

  datatype PageValue = PageValue(nextFree: int, numRecords: int, data: seq<byte>)

  function SlotAt(h: Header, s: nat): nat { BITMAP_START + h.bitmapSize + s * h.recordSize }

  /** Slots end inside the page, start after the bitmap and do not overlap. */
  lemma SlotBounds(h: Header, s: nat)
    requires LaidOut(h) && s < h.recordsPerPage
    ensures BITMAP_START + s / 8 < BITMAP_START + h.bitmapSize <= SlotAt(h, s)
    ensures SlotAt(h, s) + h.recordSize <= PAGE_SIZE
    ensures forall t: nat :: s < t ==> SlotAt(h, s) + h.recordSize <= SlotAt(h, t)
  {
    MulMono(s + 1, h.recordsPerPage, h.recordSize);
    forall t: nat | s < t ensures SlotAt(h, s) + h.recordSize <= SlotAt(h, t) {
      MulMono(s + 1, t, h.recordSize);
    }
  }

  predicate Sized(h: Header, p: PageValue) {
    LaidOut(h) && |p.data| == PAGE_SIZE
  }

  predicate Live(h: Header, p: PageValue, s: nat)
    requires Sized(h, p)
  {
    s < h.recordsPerPage && IsSet(p.data, BITMAP_START, s)
  }

  function Record(h: Header, p: PageValue, s: nat): (r: seq<byte>)
    requires Sized(h, p) && s < h.recordsPerPage
    ensures |r| == h.recordSize
  {
    SlotBounds(h, s);
    p.data[SlotAt(h, s)..SlotAt(h, s) + h.recordSize]
  }

  ghost function LiveSlots(h: Header, p: PageValue): set<nat>
    requires Sized(h, p)
  {
    set s: nat | s < h.recordsPerPage && Live(h, p, s)
  }

  ghost predicate PageOk(h: Header, p: PageValue) {
    Sized(h, p) && p.numRecords == |LiveSlots(h, p)|
  }

  ghost predicate AllLive(h: Header, p: PageValue)
    requires Sized(h, p)
  {
    forall s: nat :: s < h.recordsPerPage ==> Live(h, p, s)
  }

  /** A page has as many records as slots exactly when every slot is live. */
  lemma FullIffNoFreeSlot(h: Header, p: PageValue)
    requires PageOk(h, p)
    ensures p.numRecords <= h.recordsPerPage
    ensures p.numRecords == h.recordsPerPage <==> AllLive(h, p)
  {
    AllBelow(LiveSlots(h, p), h.recordsPerPage);
    forall s: nat | s < h.recordsPerPage ensures Live(h, p, s) <==> s in LiveSlots(h, p) {
    }
  }

  function Overwritten(data: seq<byte>, at: nat, buf: seq<byte>): (r: seq<byte>)
    requires at + |buf| <= |data|
    ensures |r| == |data|
    ensures forall i :: 0 <= i < |data| ==> r[i] == if at <= i < at + |buf| then buf[i - at] else data[i]
  {
    data[..at] + buf + data[at + |buf|..]
  }

  /** memcpy into a slot. */
  function Put(h: Header, p: PageValue, s: nat, buf: seq<byte>): (r: PageValue)
    requires Sized(h, p) && s < h.recordsPerPage && |buf| == h.recordSize
    ensures Sized(h, r)
  {
    SlotBounds(h, s);
    p.(data := Overwritten(p.data, SlotAt(h, s), buf))
  }

  /** insert_record's change of the page. */
  function Filled(h: Header, p: PageValue, s: nat, buf: seq<byte>): (r: PageValue)
    requires Sized(h, p) && s < h.recordsPerPage && |buf| == h.recordSize
    ensures Sized(h, r)
  {
    var q := Put(h, p, s, buf);
    q.(data := WithBit(q.data, BITMAP_START, s), numRecords := p.numRecords + 1)
  }

  /** delete_record's change of the page. */
  function Emptied(h: Header, p: PageValue, s: nat): (r: PageValue)
    requires Sized(h, p) && s < h.recordsPerPage
    ensures Sized(h, r)
  {
    p.(data := WithoutBit(p.data, BITMAP_START, s), numRecords := p.numRecords - 1)
  }

  lemma PutChangesOneSlot(h: Header, p: PageValue, s: nat, buf: seq<byte>, t: nat)
    requires Sized(h, p) && s < h.recordsPerPage && |buf| == h.recordSize && t < h.recordsPerPage
    ensures Live(h, Put(h, p, s, buf), t) <==> Live(h, p, t)
    ensures Record(h, Put(h, p, s, buf), t) == if t == s then buf else Record(h, p, t)
  {
    SlotBounds(h, s);
    SlotBounds(h, t);
  }

  /** Changing a byte of the bitmap changes no record. */
  lemma BitmapOutsideSlots(h: Header, p: PageValue, q: PageValue, s: nat, t: nat)
    requires Sized(h, p) && Sized(h, q) && s < h.recordsPerPage && t < h.recordsPerPage
    requires q.data == WithBit(p.data, BITMAP_START, s) || q.data == WithoutBit(p.data, BITMAP_START, s)
    ensures Record(h, q, t) == Record(h, p, t)
  {
    SlotBounds(h, s);
    SlotBounds(h, t);
  }

  lemma FilledLive(h: Header, p: PageValue, q: PageValue, s: nat, t: nat)
    requires Sized(h, p) && Sized(h, q) && s < h.recordsPerPage && t < h.recordsPerPage
    requires q.data == WithBit(p.data, BITMAP_START, s)
    ensures Live(h, q, t) <==> t == s || Live(h, p, t)
  {
    SetChangesOneBit(p.data, BITMAP_START, s, t);
  }

  lemma FilledChangesOneSlot(h: Header, p: PageValue, s: nat, buf: seq<byte>, t: nat)
    requires Sized(h, p) && s < h.recordsPerPage && |buf| == h.recordSize && t < h.recordsPerPage
    ensures Live(h, Filled(h, p, s, buf), t) <==> t == s || Live(h, p, t)
    ensures Record(h, Filled(h, p, s, buf), t) == if t == s then buf else Record(h, p, t)
  {
    var q := Put(h, p, s, buf);
    PutChangesOneSlot(h, p, s, buf, t);
    FilledLive(h, q, Filled(h, p, s, buf), s, t);
    BitmapOutsideSlots(h, q, Filled(h, p, s, buf), s, t);
  }

  lemma EmptiedChangesOneSlot(h: Header, p: PageValue, s: nat, t: nat)
    requires Sized(h, p) && s < h.recordsPerPage && t < h.recordsPerPage
    ensures Live(h, Emptied(h, p, s), t) <==> t != s && Live(h, p, t)
    ensures Record(h, Emptied(h, p, s), t) == Record(h, p, t)
  {
    ResetChangesOneBit(p.data, BITMAP_START, s, t);
    BitmapOutsideSlots(h, p, Emptied(h, p, s), s, t);
  }

  lemma PutOk(h: Header, p: PageValue, s: nat, buf: seq<byte>)
    requires PageOk(h, p) && s < h.recordsPerPage && |buf| == h.recordSize
    ensures PageOk(h, Put(h, p, s, buf))
  {
    var q := Put(h, p, s, buf);
    forall t: nat | t < h.recordsPerPage ensures Live(h, q, t) <==> Live(h, p, t) {
      PutChangesOneSlot(h, p, s, buf, t);
    }
    assert LiveSlots(h, q) == LiveSlots(h, p);
  }

  /** Filling keeps the record count right exactly when the slot was free. */
  lemma FilledOk(h: Header, p: PageValue, s: nat, buf: seq<byte>)
    requires PageOk(h, p) && s < h.recordsPerPage && |buf| == h.recordSize
    ensures PageOk(h, Filled(h, p, s, buf)) <==> !Live(h, p, s)
  {
    var q := Filled(h, p, s, buf);
    forall t: nat | t < h.recordsPerPage ensures Live(h, q, t) <==> t == s || Live(h, p, t) {
      FilledChangesOneSlot(h, p, s, buf, t);
    }
    assert LiveSlots(h, q) == LiveSlots(h, p) + {s};
    assert Live(h, p, s) <==> s in LiveSlots(h, p);
  }

  /** Emptying keeps it right exactly when the slot was live. */
  lemma EmptiedOk(h: Header, p: PageValue, s: nat)
    requires PageOk(h, p) && s < h.recordsPerPage
    ensures PageOk(h, Emptied(h, p, s)) <==> Live(h, p, s)
  {
    var q := Emptied(h, p, s);
    forall t: nat | t < h.recordsPerPage ensures Live(h, q, t) <==> t != s && Live(h, p, t) {
      EmptiedChangesOneSlot(h, p, s, t);
    }
    assert LiveSlots(h, q) == LiveSlots(h, p) - {s};
    assert Live(h, p, s) <==> s in LiveSlots(h, p);
  }
}
