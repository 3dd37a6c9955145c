/**
 The text form of the database metadata (src/system/sm_meta.h, src/defs.h):
 what is printed, and what reading it back gives.
 */
module Metadata {
  import opened Decimal

  type Int32 = i: int | -0x8000_0000 <= i < 0x8000_0000

  /** `kind` is the number of the column type. */
  datatype ColMeta = ColMeta(tabName: string, name: string, kind: Int32, len: Int32, offset: Int32, index: bool)

  datatype TabMeta = TabMeta(name: string, cols: seq<ColMeta>)

  datatype DbMeta = DbMeta(name: string, tabs: map<string, TabMeta>)

  /** A value read and the text after it, or a stream in its failed state. */
  datatype Parsed<T> = Read(value: T, rest: string) | Failed

  // ---------------------------------------------------------------- printing

  /** What `<<` is given: a name or number, or a separating character. */
  datatype Piece = Word(w: string) | Sep(c: char)

  function Flat(ps: seq<Piece>): string {
    if ps == [] then ""
    else (match ps[0] case Word(w) => w case Sep(c) => [c]) + Flat(ps[1..])
  }

  function ShowInt(i: int): string {
    if i < 0 then "-" + Numeral(-i) else Numeral(i)
  }

  function ColPieces(c: ColMeta): (ps: seq<Piece>)
    ensures |ps| == 11
  {
    [Word(c.tabName), Sep(' '), Word(c.name), Sep(' '), Word(ShowInt(c.kind)), Sep(' '), Word(ShowInt(c.len)),
     Sep(' '), Word(ShowInt(c.offset)), Sep(' '), Word(ShowInt(if c.index then 1 else 0))]
  }

  function ColsPieces(cols: seq<ColMeta>): (ps: seq<Piece>)
    ensures |ps| == 12 * |cols|
  {
    if cols == [] then [] else ColPieces(cols[0]) + [Sep('\n')] + ColsPieces(cols[1..])
  }

  /** A name and a number, each with its separator. */
  function Head(name: string, n: nat): (ps: seq<Piece>)
    ensures |ps| == 4
  {
    [Word(name), Sep('\n'), Word(ShowInt(n)), Sep('\n')]
  }

  function TabPieces(t: TabMeta): (ps: seq<Piece>)
    ensures |ps| == 4 + 12 * |t.cols|
  {
    Head(t.name, |t.cols|) + ColsPieces(t.cols)
  }

  function TabsPieces(ts: seq<TabMeta>): seq<Piece> {
    if ts == [] then [] else TabPieces(ts[0]) + [Sep('\n')] + TabsPieces(ts[1..])
  }

  /** The tables in the order in which their map is walked. */
  function DbPieces(name: string, ts: seq<TabMeta>): seq<Piece> {
    Head(name, |ts|) + TabsPieces(ts)
  }

  lemma FlatField(w: string, c: char, rest: seq<Piece>)
    ensures Flat([Word(w), Sep(c)] + rest) == w + ([c] + Flat(rest))
  {
    var ps := [Word(w), Sep(c)] + rest;
    assert ps[1..] == [Sep(c)] + rest && ps[1..][1..] == rest;
  }

  /** The numbers of a column. */
  lemma NumbersText(c: ColMeta)
    ensures Flat(ColPieces(c)[6..]) == ShowInt(c.len) + (" " + (ShowInt(c.offset) + (" " + (if c.index then "1" else "0"))))
  {
    var ps := ColPieces(c);
    var index := ShowInt(if c.index then 1 else 0);
    assert index == if c.index then "1" else "0";
    assert ps[10..] == [Word(index)] && Flat([Word(index)]) == index + "" by { assert [Word(index)][1..] == []; }
    FlatField(ShowInt(c.offset), ' ', ps[10..]);
    FlatField(ShowInt(c.len), ' ', ps[8..]);
    assert ps[8..] == [Word(ShowInt(c.offset)), Sep(' ')] + ps[10..];
    assert ps[6..] == [Word(ShowInt(c.len)), Sep(' ')] + ps[8..];
  }

  /** A line of the text: names, type, length, offset and index flag, with a blank between them. */
  lemma ColText(c: ColMeta)
    ensures Flat(ColPieces(c)) == c.tabName + (" " + (c.name + (" " + (ShowInt(c.kind) + (" " + (ShowInt(c.len) + (" "
                                  + (ShowInt(c.offset) + (" " + (if c.index then "1" else "0"))))))))))
  {
    var ps := ColPieces(c);
    NumbersText(c);
    FlatField(ShowInt(c.kind), ' ', ps[6..]);
    FlatField(c.name, ' ', ps[4..]);
    FlatField(c.tabName, ' ', ps[2..]);
    assert ps[4..] == [Word(ShowInt(c.kind)), Sep(' ')] + ps[6..];
    assert ps[2..] == [Word(c.name), Sep(' ')] + ps[4..];
    assert ps == [Word(c.tabName), Sep(' ')] + ps[2..];
  }

  // ---------------------------------------------------------------- reading

  predicate IsSpace(c: char) { c == ' ' || c == '\n' || c == '\t' || c == '\r' || c == '\U{B}' || c == '\U{C}' }

  function SkipSpace(s: string): string {
    if s != "" && IsSpace(s[0]) then SkipSpace(s[1..]) else s
  }

  function WordEnd(s: string): (n: nat)
    ensures n <= |s|
  {
    if s == "" || IsSpace(s[0]) then 0 else 1 + WordEnd(s[1..])
  }

  function DigitsEnd(s: string): (n: nat)
    ensures n <= |s|
    ensures forall c :: c in s[..n] ==> IsDigit(c)
  {
    if s == "" || !IsDigit(s[0]) then 0
    else
      var n := 1 + DigitsEnd(s[1..]);
      assert s[..n] == [s[0]] + s[1..][..n - 1];
      n
  }

  function ReadWord(s: string): Parsed<string> {
    var t := SkipSpace(s);
    var n := WordEnd(t);
    if n == 0 then Failed else Read(t[..n], t[n..])
  }

  function ReadNat(s: string): Parsed<int> {
    var n := DigitsEnd(s);
    if n == 0 then Failed else Read(ValueOf(s[..n]), s[n..])
  }

  function ReadInt(s: string): Parsed<int> {
    var t := SkipSpace(s);
    var minus := t != "" && t[0] == '-';
    var r := ReadNat(if minus then t[1..] else t);
    if r.Failed? then Failed else Read(if minus then -r.value else r.value, r.rest)
  }

  /** Into an int: a number out of its range fails. */
  function ReadInt32(s: string): Parsed<Int32> {
    match ReadInt(s)
    case Failed => Failed
    case Read(i, rest) => if -0x8000_0000 <= i < 0x8000_0000 then Read(i, rest) else Failed
  }

  /** Into an unsigned 64-bit number: a minus sign wraps around. */
  function ReadCount(s: string): Parsed<nat> {
    match ReadInt(s)
    case Failed => Failed
    case Read(i, rest) =>
      if 0 <= i < TWO_TO_64 then Read(i, rest)
      else if -(TWO_TO_64 as int) < i < 0 then Read(TWO_TO_64 + i, rest)
      else Failed
  }

  /** Into a bool: only 0 and 1 do not fail. */
  function ReadBool(s: string): Parsed<bool> {
    match ReadInt(s)
    case Failed => Failed
    case Read(i, rest) => if 0 <= i <= 1 then Read(i == 1, rest) else Failed
  }

  function ReadColNumbers(tab: string, name: string, s: string): Parsed<ColMeta> {
    match ReadInt32(s)
    case Failed => Failed
    case Read(kind, s1) =>
    match ReadInt32(s1)
    case Failed => Failed
    case Read(len, s2) =>
    match ReadInt32(s2)
    case Failed => Failed
    case Read(offset, s3) =>
    match ReadBool(s3)
    case Failed => Failed
    case Read(index, s4) => Read(ColMeta(tab, name, kind, len, offset, index), s4)
  }

  function ReadCol(s: string): Parsed<ColMeta> {
    match ReadWord(s)
    case Failed => Failed
    case Read(tab, s1) =>
    match ReadWord(s1)
    case Failed => Failed
    case Read(name, s2) => ReadColNumbers(tab, name, s2)
  }

  /** The loop that reads `n` columns after those in `cols`. */
  function ReadCols(cols: seq<ColMeta>, n: nat, s: string): Parsed<seq<ColMeta>>
    decreases n
  {
    if n == 0 then Read(cols, s)
    else
      match ReadCol(s)
      case Failed => Failed
      case Read(c, rest) => ReadCols(cols + [c], n - 1, rest)
  }

  function ReadTab(s: string): Parsed<TabMeta> {
    match ReadWord(s)
    case Failed => Failed
    case Read(name, s1) =>
    match ReadCount(s1)
    case Failed => Failed
    case Read(n, s2) =>
      match ReadCols([], n, s2)
      case Failed => Failed
      case Read(cols, s3) => Read(TabMeta(name, cols), s3)
  }

  function ReadTabs(tabs: map<string, TabMeta>, n: nat, s: string): Parsed<map<string, TabMeta>>
    decreases n
  {
    if n == 0 then Read(tabs, s)
    else
      match ReadTab(s)
      case Failed => Failed
      case Read(t, rest) => ReadTabs(tabs[t.name := t], n - 1, rest)
  }

  /** Reads into a database that may already hold tables. */
  function ReadDb(db: DbMeta, s: string): Parsed<DbMeta> {
    match ReadWord(s)
    case Failed => Failed
    case Read(name, s1) =>
    match ReadCount(s1)
    case Failed => Failed
    case Read(n, s2) =>
      match ReadTabs(db.tabs, n, s2)
      case Failed => Failed
      case Read(tabs, s3) => Read(DbMeta(name, tabs), s3)
  }

  // ---------------------------------------------------------------- what is read back

  /** A name survives printing exactly when it is one word. */
  predicate IsWord(w: string) { w != "" && forall c :: c in w ==> !IsSpace(c) }

  predicate ColOk(c: ColMeta) { IsWord(c.tabName) && IsWord(c.name) }

  predicate TabOk(t: TabMeta) { IsWord(t.name) && forall c :: c in t.cols ==> ColOk(c) }

  /** The number of columns is a 64-bit number, as that of a vector is. */
  predicate Countable(t: TabMeta) { |t.cols| < TWO_TO_64 }

  /** Text that cannot continue the word or number before it. */
  predicate Ends(s: string) { s == "" || IsSpace(s[0]) }

  lemma {:induction false} WordEndsAt(w: string, tail: string)
    requires (forall c :: c in w ==> !IsSpace(c)) && Ends(tail)
    ensures WordEnd(w + tail) == |w|
  {
    if w == "" {
      assert w + tail == tail;
    } else {
      assert w[0] in w;
      assert (w + tail)[1..] == w[1..] + tail;
      WordEndsAt(w[1..], tail);
    }
  }

  lemma {:induction false} DigitsEndAt(w: string, tail: string)
    requires (forall c :: c in w ==> IsDigit(c)) && Ends(tail)
    ensures DigitsEnd(w + tail) == |w|
  {
    if w == "" {
      assert w + tail == tail;
    } else {
      assert w[0] in w;
      assert (w + tail)[1..] == w[1..] + tail;
      DigitsEndAt(w[1..], tail);
    }
  }

  lemma WordBack(w: string, tail: string)
    requires IsWord(w) && Ends(tail)
    ensures ReadWord(w + tail) == Read(w, tail)
  {
    assert w[0] in w;
    WordEndsAt(w, tail);
  }

  lemma NatBack(n: nat, tail: string)
    requires Ends(tail)
    ensures ReadNat(Numeral(n) + tail) == Read(n, tail)
  {
    NumeralDenotes(n);
    DigitsEndAt(Numeral(n), tail);
    var s := Numeral(n) + tail;
    assert s[..|Numeral(n)|] == Numeral(n) && s[|Numeral(n)|..] == tail;
  }

  lemma NumeralStart(n: nat)
    ensures Numeral(n) != "" && IsDigit(Numeral(n)[0])
  {
    NumeralDenotes(n);
    assert Numeral(n)[0] in Numeral(n);
  }

  lemma NoSpace(s: string)
    requires s != "" && !IsSpace(s[0])
    ensures SkipSpace(s) == s
  {
  }

  lemma PlainInt(s: string)
    requires s != "" && IsDigit(s[0])
    ensures ReadInt(s) == ReadNat(s)
  {
    NoSpace(s);
  }

  lemma MinusInt(s: string, t: string)
    requires s == "-" + t
    ensures ReadInt(s) == match ReadNat(t) case Read(n, rest) => Read(-n, rest) case Failed => Failed
  {
    NoSpace(s);
    assert s[1..] == t;
  }

  lemma IntBack(i: int, tail: string)
    requires Ends(tail)
    ensures ReadInt(ShowInt(i) + tail) == Read(i, tail)
  {
    var n := if i < 0 then -i else i;
    var t := Numeral(n) + tail;
    NumeralStart(n);
    NatBack(n, tail);
    if i < 0 {
      MinusInt(ShowInt(i) + tail, t);
    } else {
      PlainInt(t);
    }
  }

  /** Numbers as the stream takes them: ints within their range, flags 0 and 1, counts modulo 2^64 if negative. */
  lemma NumbersRead(i: int, tail: string)
    requires Ends(tail)
    ensures ReadInt32(ShowInt(i) + tail) == if -2147483648 <= i <= 2147483647 then Read(i, tail) else Failed
    ensures ReadBool(ShowInt(i) + tail) == if i == 0 then Read(false, tail) else if i == 1 then Read(true, tail) else Failed
    ensures ReadCount(ShowInt(i) + tail) ==
            if 0 <= i < 18446744073709551616 then Read(i, tail)
            else if -18446744073709551616 < i < 0 then Read(i + 18446744073709551616, tail)
            else Failed
  {
    IntBack(i, tail);
  }

  // ---------------------------------------------------------------- reading at a place in the printed pieces

  predicate SepAt(ps: seq<Piece>, k: nat) { k < |ps| && ps[k].Sep? && IsSpace(ps[k].c) }

  predicate WordAt(ps: seq<Piece>, k: nat, w: string) {
    k < |ps| && ps[k] == Word(w) && (k + 1 == |ps| || SepAt(ps, k + 1))
  }

  /** `xs` stands in `ps` from `k` on. */
  predicate At(ps: seq<Piece>, k: nat, xs: seq<Piece>) {
    k + |xs| <= |ps| && ps[k..k + |xs|] == xs
  }

  lemma AtParts(ps: seq<Piece>, k: nat, xs: seq<Piece>, ys: seq<Piece>)
    requires At(ps, k, xs + ys)
    ensures At(ps, k, xs) && At(ps, k + |xs|, ys)
  {
    assert ps[k..k + |xs|] == (xs + ys)[..|xs|];
    assert ps[k + |xs|..k + |xs| + |ys|] == (xs + ys)[|xs|..];
  }

  lemma AtIndex(ps: seq<Piece>, k: nat, xs: seq<Piece>, i: nat)
    requires At(ps, k, xs) && i < |xs|
    ensures ps[k + i] == xs[i]
  {
    assert ps[k..k + |xs|][i] == ps[k + i];
  }

  lemma AtLine(ps: seq<Piece>, k: nat, xs: seq<Piece>, more: seq<Piece>, e: nat)
    requires At(ps, k, xs + [Sep('\n')] + more) && e == k + |xs|
    ensures At(ps, k, xs) && SepAt(ps, e) && At(ps, e + 1, more)
  {
    var end := [Sep('\n')];
    AtParts(ps, k, xs + end, more);
    AtParts(ps, k, xs, end);
    AtIndex(ps, e, end, 0);
  }

  function From(ps: seq<Piece>, k: nat): string
    requires k <= |ps|
  {
    Flat(ps[k..])
  }

  lemma FromNext(ps: seq<Piece>, k: nat)
    requires k < |ps|
    ensures From(ps, k) == (match ps[k] case Word(w) => w case Sep(c) => [c]) + From(ps, k + 1)
  {
    assert ps[k..][1..] == ps[k + 1..];
  }

  lemma EndsHere(ps: seq<Piece>, k: nat)
    requires k == |ps| || SepAt(ps, k)
    ensures Ends(From(ps, k))
  {
    if k < |ps| {
      FromNext(ps, k);
    }
  }

  lemma SkipSep(ps: seq<Piece>, k: nat)
    requires SepAt(ps, k)
    ensures SkipSpace(From(ps, k)) == SkipSpace(From(ps, k + 1))
    ensures ReadWord(From(ps, k)) == ReadWord(From(ps, k + 1))
    ensures ReadInt(From(ps, k)) == ReadInt(From(ps, k + 1))
  {
    FromNext(ps, k);
    assert From(ps, k)[1..] == From(ps, k + 1);
  }

  lemma WordHere(ps: seq<Piece>, k: nat, w: string)
    requires WordAt(ps, k, w) && IsWord(w)
    ensures ReadWord(From(ps, k)) == Read(w, From(ps, k + 1))
  {
    FromNext(ps, k);
    EndsHere(ps, k + 1);
    WordBack(w, From(ps, k + 1));
  }

  lemma IntHere(ps: seq<Piece>, k: nat, i: int)
    requires WordAt(ps, k, ShowInt(i))
    ensures ReadInt(From(ps, k)) == Read(i, From(ps, k + 1))
  {
    FromNext(ps, k);
    EndsHere(ps, k + 1);
    IntBack(i, From(ps, k + 1));
  }

  /** A separator and then a number. */
  lemma NextInt(ps: seq<Piece>, k: nat, i: int)
    requires SepAt(ps, k) && WordAt(ps, k + 1, ShowInt(i))
    ensures ReadInt(From(ps, k)) == Read(i, From(ps, k + 2))
  {
    SkipSep(ps, k);
    IntHere(ps, k + 1, i);
  }

  lemma ColNumbersHere(ps: seq<Piece>, k: nat, c: ColMeta)
    requires SepAt(ps, k) && WordAt(ps, k + 1, ShowInt(c.kind))
    requires SepAt(ps, k + 2) && WordAt(ps, k + 3, ShowInt(c.len))
    requires SepAt(ps, k + 4) && WordAt(ps, k + 5, ShowInt(c.offset))
    requires SepAt(ps, k + 6) && WordAt(ps, k + 7, ShowInt(if c.index then 1 else 0))
    ensures ReadColNumbers(c.tabName, c.name, From(ps, k)) == Read(c, From(ps, k + 8))
  {
    NextInt(ps, k, c.kind);
    NextInt(ps, k + 2, c.len);
    NextInt(ps, k + 4, c.offset);
    NextInt(ps, k + 6, if c.index then 1 else 0);
  }

  lemma ColWords(ps: seq<Piece>, k: nat, c: ColMeta)
    requires At(ps, k, ColPieces(c)) && (k + 11 == |ps| || SepAt(ps, k + 11))
    ensures WordAt(ps, k, c.tabName) && SepAt(ps, k + 1) && WordAt(ps, k + 2, c.name)
    ensures SepAt(ps, k + 3) && WordAt(ps, k + 4, ShowInt(c.kind))
    ensures SepAt(ps, k + 5) && WordAt(ps, k + 6, ShowInt(c.len))
    ensures SepAt(ps, k + 7) && WordAt(ps, k + 8, ShowInt(c.offset))
    ensures SepAt(ps, k + 9) && WordAt(ps, k + 10, ShowInt(if c.index then 1 else 0))
  {
    forall i: nat | i < 11 ensures ps[k + i] == ColPieces(c)[i] {
      AtIndex(ps, k, ColPieces(c), i);
    }
    assert ps[k + 0] == ColPieces(c)[0] && ps[k + 1] == ColPieces(c)[1] && ps[k + 2] == ColPieces(c)[2];
    assert ps[k + 3] == ColPieces(c)[3] && ps[k + 4] == ColPieces(c)[4] && ps[k + 5] == ColPieces(c)[5];
    assert ps[k + 6] == ColPieces(c)[6] && ps[k + 7] == ColPieces(c)[7] && ps[k + 8] == ColPieces(c)[8];
    assert ps[k + 9] == ColPieces(c)[9] && ps[k + 10] == ColPieces(c)[10];
  }

  /** A printed column is read back. */
  lemma ColHere(ps: seq<Piece>, k: nat, c: ColMeta)
    requires ColOk(c) && At(ps, k, ColPieces(c)) && (k + 11 == |ps| || SepAt(ps, k + 11))
    ensures ReadCol(From(ps, k)) == Read(c, From(ps, k + 11))
  {
    ColWords(ps, k, c);
    WordHere(ps, k, c.tabName);
    SkipSep(ps, k + 1);
    WordHere(ps, k + 2, c.name);
    ColNumbersHere(ps, k + 3, c);
  }

  /** A separator, a column, and the separator after it. */
  lemma NextCol(ps: seq<Piece>, k: nat, c: ColMeta, more: seq<Piece>)
    requires ColOk(c) && SepAt(ps, k) && At(ps, k + 1, ColPieces(c) + [Sep('\n')] + more)
    ensures SepAt(ps, k + 12) && At(ps, k + 13, more)
    ensures ReadCol(From(ps, k)) == Read(c, From(ps, k + 12))
  {
    AtLine(ps, k + 1, ColPieces(c), more, k + 12);
    ReadColSkips(ps, k);
    ColHere(ps, k + 1, c);
  }

  lemma HeadHere(ps: seq<Piece>, k: nat, name: string, n: nat, more: seq<Piece>)
    requires IsWord(name) && n < TWO_TO_64 && At(ps, k, Head(name, n) + more)
    ensures SepAt(ps, k + 3) && At(ps, k + 4, more)
    ensures ReadWord(From(ps, k)) == Read(name, From(ps, k + 1))
    ensures ReadCount(From(ps, k + 1)) == Read(n, From(ps, k + 3))
  {
    var head := Head(name, n);
    AtParts(ps, k, head, more);
    AtIndex(ps, k, head, 0);
    AtIndex(ps, k, head, 1);
    AtIndex(ps, k, head, 2);
    AtIndex(ps, k, head, 3);
    WordHere(ps, k, name);
    NextInt(ps, k + 1, n);
  }

  /** From the separator before the first column to the one after the last, at `e`. */
  lemma {:induction false} ColsHere(ps: seq<Piece>, k: nat, done: seq<ColMeta>, cols: seq<ColMeta>, e: nat)
    requires forall c :: c in cols ==> ColOk(c)
    requires SepAt(ps, k) && At(ps, k + 1, ColsPieces(cols)) && e == k + 12 * |cols|
    ensures SepAt(ps, e)
    ensures ReadCols(done, |cols|, From(ps, k)) == Read(done + cols, From(ps, e))
    decreases |cols|
  {
    if cols == [] {
      assert done + cols == done;
    } else {
      var c := cols[0];
      assert c in cols;
      NextCol(ps, k, c, ColsPieces(cols[1..]));
      ColsHere(ps, k + 12, done + [c], cols[1..], e);
      OneColMore(done, cols, From(ps, k), From(ps, k + 12), From(ps, e));
    }
  }

  lemma OneColMore(done: seq<ColMeta>, cols: seq<ColMeta>, s: string, rest: string, end: string)
    requires cols != [] && ReadCol(s) == Read(cols[0], rest)
    requires ReadCols(done + [cols[0]], |cols[1..]|, rest) == Read(done + [cols[0]] + cols[1..], end)
    ensures ReadCols(done, |cols|, s) == Read(done + cols, end)
  {
    assert |cols[1..]| == |cols| - 1;
    assert done + [cols[0]] + cols[1..] == done + cols;
  }

  lemma ReadColSkips(ps: seq<Piece>, k: nat)
    requires SepAt(ps, k)
    ensures ReadCol(From(ps, k)) == ReadCol(From(ps, k + 1))
    ensures ReadTab(From(ps, k)) == ReadTab(From(ps, k + 1))
  {
    SkipSep(ps, k);
  }

  /** A printed table is read back, up to its last separator, at `e`. */
  lemma TabHere(ps: seq<Piece>, k: nat, t: TabMeta, e: nat)
    requires TabOk(t) && Countable(t) && At(ps, k, TabPieces(t)) && e == k + 3 + 12 * |t.cols|
    ensures SepAt(ps, e)
    ensures ReadTab(From(ps, k)) == Read(t, From(ps, e))
  {
    HeadHere(ps, k, t.name, |t.cols|, ColsPieces(t.cols));
    ColsHere(ps, k + 3, [], t.cols, e);
    assert [] + t.cols == t.cols;
  }

  /** The tables read: each under its own name, later ones over earlier ones. */
  function Stored(tabs: map<string, TabMeta>, ts: seq<TabMeta>): map<string, TabMeta>
    decreases |ts|
  {
    if ts == [] then tabs else Stored(tabs[ts[0].name := ts[0]], ts[1..])
  }

  /** A table up to its last line end at `e`, and one more line end. */
  lemma TabLine(ps: seq<Piece>, k: nat, t: TabMeta, more: seq<Piece>, e: nat)
    requires At(ps, k, TabPieces(t) + [Sep('\n')] + more) && e == k + 3 + 12 * |t.cols|
    ensures At(ps, k, TabPieces(t)) && SepAt(ps, e + 1) && At(ps, e + 2, more)
  {
    AtLine(ps, k, TabPieces(t), more, e + 1);
  }

  /** A separator and a table. */
  lemma NextTab(ps: seq<Piece>, k: nat, t: TabMeta, e: nat)
    requires TabOk(t) && Countable(t) && SepAt(ps, k) && At(ps, k + 1, TabPieces(t)) && e == k + 4 + 12 * |t.cols|
    ensures SepAt(ps, e) && ReadTab(From(ps, k)) == Read(t, From(ps, e))
  {
    TabHere(ps, k + 1, t, e);
    ReadColSkips(ps, k);
  }

  lemma TabStep(ps: seq<Piece>, k: nat, t: TabMeta, more: seq<Piece>, e: nat)
    requires TabOk(t) && Countable(t) && SepAt(ps, k) && At(ps, k + 1, TabPieces(t) + [Sep('\n')] + more)
    requires e == k + 4 + 12 * |t.cols|
    ensures SepAt(ps, e) && SepAt(ps, e + 1) && At(ps, e + 2, more)
    ensures ReadTab(From(ps, k)) == Read(t, From(ps, e))
  {
    TabLine(ps, k + 1, t, more, e);
    NextTab(ps, k, t, e);
  }

  /** From the separator before the first table on. */
  lemma {:induction false} TabsHere(ps: seq<Piece>, k: nat, tabs: map<string, TabMeta>, ts: seq<TabMeta>)
    requires forall t :: t in ts ==> TabOk(t) && Countable(t)
    requires SepAt(ps, k) && At(ps, k + 1, TabsPieces(ts))
    ensures TabsOf(ReadTabs(tabs, |ts|, From(ps, k))) == Read(Stored(tabs, ts), "")
    decreases |ts|
  {
    if ts != [] {
      var t, rest := ts[0], ts[1..];
      assert t in ts;
      var e := k + 4 + 12 * |t.cols|;
      TabStep(ps, k, t, TabsPieces(rest), e);
      var more := tabs[t.name := t];
      TabsHere(ps, e + 1, more, rest);
      TabsSkip(ps, e, more, |rest|);
      OneTabMore(tabs, ts, From(ps, k), From(ps, e));
    }
  }

  /** The tables read, whatever text is left. */
  function TabsOf(r: Parsed<map<string, TabMeta>>): Parsed<map<string, TabMeta>> {
    if r.Read? then Read(r.value, "") else Failed
  }

  lemma TabsSkip(ps: seq<Piece>, k: nat, tabs: map<string, TabMeta>, n: nat)
    requires SepAt(ps, k)
    ensures TabsOf(ReadTabs(tabs, n, From(ps, k))) == TabsOf(ReadTabs(tabs, n, From(ps, k + 1)))
  {
    ReadColSkips(ps, k);
  }

  lemma OneTabMore(tabs: map<string, TabMeta>, ts: seq<TabMeta>, s: string, rest: string)
    requires ts != [] && ReadTab(s) == Read(ts[0], rest)
    requires var more := tabs[ts[0].name := ts[0]];
      TabsOf(ReadTabs(more, |ts[1..]|, rest)) == Read(Stored(more, ts[1..]), "")
    ensures TabsOf(ReadTabs(tabs, |ts|, s)) == Read(Stored(tabs, ts), "")
  {
    assert |ts[1..]| == |ts| - 1;
  }

  // ---------------------------------------------------------------- the round trip

  /** A walk of the map of tables. */
  ghost predicate Walks(ts: seq<TabMeta>, keys: seq<string>, db: DbMeta) {
    && |ts| == |keys|
    && (forall i, j :: 0 <= i < j < |keys| ==> keys[i] != keys[j])
    && (forall k :: k in keys <==> k in db.tabs)
    && (forall i :: 0 <= i < |keys| ==> keys[i] in db.tabs && ts[i] == db.tabs[keys[i]])
  }

  ghost predicate UnderOwnName(db: DbMeta) {
    forall k :: k in db.tabs ==> db.tabs[k].name == k
  }

  lemma DbBack(start: DbMeta, name: string, ts: seq<TabMeta>)
    requires IsWord(name) && |ts| < TWO_TO_64 && forall t :: t in ts ==> TabOk(t) && Countable(t)
    ensures var r := ReadDb(start, Flat(DbPieces(name, ts)));
      r.Read? && r.value == DbMeta(name, Stored(start.tabs, ts))
  {
    var s1, s2 := DbPartsHere(start, name, ts);
    DbFromParts(start, Flat(DbPieces(name, ts)), name, s1, |ts|, s2, Stored(start.tabs, ts));
  }

  lemma DbPartsHere(start: DbMeta, name: string, ts: seq<TabMeta>) returns (s1: string, s2: string)
    requires IsWord(name) && |ts| < TWO_TO_64 && forall t :: t in ts ==> TabOk(t) && Countable(t)
    ensures ReadWord(Flat(DbPieces(name, ts))) == Read(name, s1) && ReadCount(s1) == Read(|ts|, s2)
    ensures TabsOf(ReadTabs(start.tabs, |ts|, s2)) == Read(Stored(start.tabs, ts), "")
  {
    var ps := DbPieces(name, ts);
    assert ps[0..0 + |ps|] == ps && ps[0..] == ps;
    HeadHere(ps, 0, name, |ts|, TabsPieces(ts));
    s1, s2 := From(ps, 1), From(ps, 3);
    TabsHere(ps, 3, start.tabs, ts);
  }

  lemma DbFromParts(start: DbMeta, s: string, name: string, s1: string, n: nat, s2: string, tabs: map<string, TabMeta>)
    requires ReadWord(s) == Read(name, s1) && ReadCount(s1) == Read(n, s2)
    requires TabsOf(ReadTabs(start.tabs, n, s2)) == Read(tabs, "")
    ensures ReadDb(start, s).Read? && ReadDb(start, s).value == DbMeta(name, tabs)
  {
  }

  lemma {:induction false} StoredKeys(tabs: map<string, TabMeta>, ts: seq<TabMeta>, k: string)
    ensures k in Stored(tabs, ts) <==> k in tabs || exists i :: 0 <= i < |ts| && ts[i].name == k
    ensures k in Stored(tabs, ts) && (k in tabs ==> tabs[k].name == k) ==> Stored(tabs, ts)[k].name == k
    ensures (forall i :: 0 <= i < |ts| ==> ts[i].name != k) && k in tabs ==> Stored(tabs, ts)[k] == tabs[k]
    decreases |ts|
  {
    if ts != [] {
      StoredKeys(tabs[ts[0].name := ts[0]], ts[1..], k);
      assert forall i :: 1 <= i < |ts| ==> ts[i] == ts[1..][i - 1];
    }
  }

  lemma {:induction false} StoredValue(tabs: map<string, TabMeta>, ts: seq<TabMeta>, i: nat)
    requires i < |ts| && forall a, b :: 0 <= a < b < |ts| ==> ts[a].name != ts[b].name
    ensures ts[i].name in Stored(tabs, ts) && Stored(tabs, ts)[ts[i].name] == ts[i]
    decreases |ts|
  {
    if i == 0 {
      StoredKeys(tabs[ts[0].name := ts[0]], ts[1..], ts[0].name);
    } else {
      StoredValue(tabs[ts[0].name := ts[0]], ts[1..], i - 1);
    }
  }

  lemma OwnNamesRestore(db: DbMeta, ts: seq<TabMeta>, keys: seq<string>)
    requires Walks(ts, keys, db) && UnderOwnName(db)
    ensures Stored(map[], ts) == db.tabs
  {
    var back := Stored(map[], ts);
    assert forall i :: 0 <= i < |ts| ==> ts[i].name == keys[i];
    forall k | k in db.tabs ensures k in back && back[k] == db.tabs[k] {
      var i :| 0 <= i < |keys| && keys[i] == k;
      StoredValue(map[], ts, i);
    }
    forall k | k in back ensures k in db.tabs {
      StoredKeys(map[], ts, k);
      var i :| 0 <= i < |ts| && ts[i].name == k;
      assert keys[i] in keys;
    }
  }

  lemma StoredUnderOwnName(ts: seq<TabMeta>, k: string)
    requires k in Stored(map[], ts)
    ensures Stored(map[], ts)[k].name == k
  {
    StoredKeys(map[], ts, k);
  }

  // ---------------------------------------------------------------- only words are read

  lemma {:induction false} NoSpaceBeforeEnd(s: string)
    ensures forall c :: c in s[..WordEnd(s)] ==> !IsSpace(c)
  {
    if s != "" && !IsSpace(s[0]) {
      NoSpaceBeforeEnd(s[1..]);
      assert s[..WordEnd(s)] == [s[0]] + s[1..][..WordEnd(s[1..])];
    }
  }

  lemma OnlyWordsRead(s: string)
    ensures ReadWord(s).Read? ==> IsWord(ReadWord(s).value)
  {
    NoSpaceBeforeEnd(SkipSpace(s));
  }

  lemma ColReadOk(s: string)
    ensures ReadCol(s).Read? ==> ColOk(ReadCol(s).value)
  {
    OnlyWordsRead(s);
    if ReadWord(s).Read? {
      OnlyWordsRead(ReadWord(s).rest);
    }
  }

  lemma {:induction false} ColsReadOk(cols: seq<ColMeta>, n: nat, s: string)
    requires forall c :: c in cols ==> ColOk(c)
    ensures ReadCols(cols, n, s).Read? ==> forall c :: c in ReadCols(cols, n, s).value ==> ColOk(c)
    decreases n
  {
    if n > 0 && ReadCol(s).Read? {
      ColReadOk(s);
      ColsReadOk(cols + [ReadCol(s).value], n - 1, ReadCol(s).rest);
    }
  }

  lemma TabReadOk(s: string)
    ensures ReadTab(s).Read? ==> TabOk(ReadTab(s).value)
  {
    OnlyWordsRead(s);
    if ReadTab(s).Read? {
      var r := ReadCount(ReadWord(s).rest);
      ColsReadOk([], r.value, r.rest);
    }
  }

  ghost predicate AllTabsOk(tabs: map<string, TabMeta>) {
    forall k :: k in tabs ==> TabOk(tabs[k])
  }

  lemma {:induction false} TabsReadOk(tabs: map<string, TabMeta>, n: nat, s: string)
    requires AllTabsOk(tabs)
    ensures ReadTabs(tabs, n, s).Read? ==> AllTabsOk(ReadTabs(tabs, n, s).value)
    decreases n
  {
    if n > 0 && ReadTab(s).Read? {
      var t, rest := ReadTab(s).value, ReadTab(s).rest;
      TabReadOk(s);
      OneMoreTabOk(tabs, t);
      TabsReadOk(tabs[t.name := t], n - 1, rest);
    }
  }

  lemma OneMoreTabOk(tabs: map<string, TabMeta>, t: TabMeta)
    requires AllTabsOk(tabs) && TabOk(t)
    ensures AllTabsOk(tabs[t.name := t])
  {
  }

  /** Every name is one word. */
  ghost predicate WordsOnly(db: DbMeta) {
    IsWord(db.name) && AllTabsOk(db.tabs)
  }

  lemma OnlyWordsCatalogued(s: string)
    ensures var r := ReadDb(DbMeta("", map[]), s); r.Read? ==> WordsOnly(r.value)
  {
    OnlyWordsRead(s);
    if ReadDb(DbMeta("", map[]), s).Read? {
      var r := ReadCount(ReadWord(s).rest);
      TabsReadOk(map[], r.value, r.rest);
    }
  }

  /** What is read back from what was printed. */
  function Reread(db: DbMeta, ts: seq<TabMeta>): Parsed<DbMeta> {
    ReadDb(DbMeta("", map[]), Flat(DbPieces(db.name, ts)))
  }

  /**
   Reading what was printed into a new database restores the database exactly
   when every name is one word and every table is stored under its own name.
   */
  lemma RoundTrip(db: DbMeta, ts: seq<TabMeta>, keys: seq<string>)
    requires Walks(ts, keys, db) && |ts| < TWO_TO_64 && forall t :: t in ts ==> Countable(t)
    ensures Reread(db, ts).Read? && Reread(db, ts).value == db <==> WordsOnly(db) && UnderOwnName(db)
  {
    if WordsOnly(db) {
      WordsRestored(db, ts, keys);
    } else {
      OnlyWordsCatalogued(Flat(DbPieces(db.name, ts)));
    }
  }

  lemma WordsRestored(db: DbMeta, ts: seq<TabMeta>, keys: seq<string>)
    requires Walks(ts, keys, db) && |ts| < TWO_TO_64 && forall t :: t in ts ==> Countable(t)
    requires WordsOnly(db)
    ensures Reread(db, ts).Read? && (Reread(db, ts).value == db <==> UnderOwnName(db))
  {
    forall t | t in ts ensures TabOk(t) {
      var i :| 0 <= i < |ts| && ts[i] == t;
      assert keys[i] in db.tabs;
    }
    DbBack(DbMeta("", map[]), db.name, ts);
    if UnderOwnName(db) {
      OwnNamesRestore(db, ts, keys);
    }
    if Stored(map[], ts) == db.tabs {
      forall k | k in db.tabs ensures db.tabs[k].name == k {
        StoredUnderOwnName(ts, k);
      }
    }
  }

  // ---------------------------------------------------------------- the stream operators

  class OutStream {
    var text: string
    ghost var pieces: seq<Piece>

    ghost predicate Valid()
      reads this
    {
      text == Flat(pieces)
    }

    constructor ()
      ensures Valid() && pieces == []
    {
      text, pieces := "", [];
    }

    method Put(p: Piece)
      requires Valid()
      modifies this
      ensures Valid() && pieces == old(pieces) + [p]
    {
      FlatSnoc(pieces, p);
      text := text + match p case Word(w) => w case Sep(c) => [c];
      pieces := pieces + [p];
    }

    method PutLine(w: string)
      requires Valid()
      modifies this
      ensures Valid() && pieces == old(pieces) + [Word(w), Sep('\n')]
    {
      Put(Word(w));
      Put(Sep('\n'));
    }

    method PutHead(name: string, n: nat)
      requires Valid()
      modifies this
      ensures Valid() && pieces == old(pieces) + Head(name, n)
    {
      PutLine(name);
      PutLine(ShowInt(n));
    }

    method PutField(w: string)
      requires Valid()
      modifies this
      ensures Valid() && pieces == old(pieces) + [Word(w), Sep(' ')]
    {
      Put(Word(w));
      Put(Sep(' '));
    }

    method PrintCol(c: ColMeta)
      requires Valid()
      modifies this
      ensures Valid() && pieces == old(pieces) + ColPieces(c)
    {
      PutField(c.tabName);
      PutField(c.name);
      PutField(ShowInt(c.kind));
      PutField(ShowInt(c.len));
      PutField(ShowInt(c.offset));
      Put(Word(ShowInt(if c.index then 1 else 0)));
    }

    method PrintTab(t: TabMeta)
      requires Valid()
      modifies this
      ensures Valid() && pieces == old(pieces) + TabPieces(t)
    {
      PutHead(t.name, |t.cols|);
      ghost var start := pieces;
      for i := 0 to |t.cols|
        invariant Valid() && pieces == start + ColsPieces(t.cols[..i])
      {
        AppendCol(start, t.cols, i);
        PrintColLine(t.cols[i]);
      }
      assert t.cols[..|t.cols|] == t.cols;
      AppendHead(old(pieces), Head(t.name, |t.cols|), ColsPieces(t.cols));
    }

    method PrintColLine(c: ColMeta)
      requires Valid()
      modifies this
      ensures Valid() && pieces == old(pieces) + (ColPieces(c) + [Sep('\n')])
    {
      PrintCol(c);
      Put(Sep('\n'));
    }

    method PrintTabLine(t: TabMeta)
      requires Valid()
      modifies this
      ensures Valid() && pieces == old(pieces) + (TabPieces(t) + [Sep('\n')])
    {
      PrintTab(t);
      Put(Sep('\n'));
    }

    method PrintDb(name: string, ts: seq<TabMeta>)
      requires Valid()
      modifies this
      ensures Valid() && pieces == old(pieces) + DbPieces(name, ts)
    {
      PutHead(name, |ts|);
      ghost var start := pieces;
      for i := 0 to |ts|
        invariant Valid() && pieces == start + TabsPieces(ts[..i])
      {
        AppendTab(start, ts, i);
        PrintTabLine(ts[i]);
      }
      assert ts[..|ts|] == ts;
      AppendHead(old(pieces), Head(name, |ts|), TabsPieces(ts));
    }
  }

  lemma {:induction false} FlatSnoc(ps: seq<Piece>, p: Piece)
    ensures Flat(ps + [p]) == Flat(ps) + match p case Word(w) => w case Sep(c) => [c]
  {
    if ps == [] {
      assert (ps + [p])[1..] == [];
    } else {
      assert (ps + [p])[1..] == ps[1..] + [p];
      FlatSnoc(ps[1..], p);
    }
  }

  lemma {:induction false} ColsPiecesSnoc(cols: seq<ColMeta>, c: ColMeta)
    ensures ColsPieces(cols + [c]) == ColsPieces(cols) + (ColPieces(c) + [Sep('\n')])
  {
    if cols == [] {
      assert (cols + [c])[1..] == [];
    } else {
      assert (cols + [c])[1..] == cols[1..] + [c];
      ColsPiecesSnoc(cols[1..], c);
    }
  }

  lemma {:induction false} TabsPiecesSnoc(ts: seq<TabMeta>, t: TabMeta)
    ensures TabsPieces(ts + [t]) == TabsPieces(ts) + (TabPieces(t) + [Sep('\n')])
  {
    if ts == [] {
      assert (ts + [t])[1..] == [];
    } else {
      assert (ts + [t])[1..] == ts[1..] + [t];
      TabsPiecesSnoc(ts[1..], t);
    }
  }

  lemma AppendCol(start: seq<Piece>, cols: seq<ColMeta>, i: nat)
    requires i < |cols|
    ensures start + ColsPieces(cols[..i]) + (ColPieces(cols[i]) + [Sep('\n')]) == start + ColsPieces(cols[..i + 1])
  {
    ColsPiecesSnoc(cols[..i], cols[i]);
    assert cols[..i + 1] == cols[..i] + [cols[i]];
    AppendHead(start, ColsPieces(cols[..i]), ColPieces(cols[i]) + [Sep('\n')]);
  }

  lemma AppendTab(start: seq<Piece>, ts: seq<TabMeta>, i: nat)
    requires i < |ts|
    ensures start + TabsPieces(ts[..i]) + (TabPieces(ts[i]) + [Sep('\n')]) == start + TabsPieces(ts[..i + 1])
  {
    TabsPiecesSnoc(ts[..i], ts[i]);
    assert ts[..i + 1] == ts[..i] + [ts[i]];
    AppendHead(start, TabsPieces(ts[..i]), TabPieces(ts[i]) + [Sep('\n')]);
  }

  lemma AppendHead(a: seq<Piece>, b: seq<Piece>, c: seq<Piece>)
    ensures a + b + c == a + (b + c)
  {
  }

  /** What a read leaves behind: a failed stream, or the value and the text after it. */
  predicate Got<T(==)>(r: Parsed<T>, failed: bool, v: T, text: string) {
    if failed then r.Failed? else r == Read(v, text)
  }

  /** One turn of the reading loops. */
  lemma ColsTurn(cols: seq<ColMeta>, n: nat, s: string, failed: bool, c: ColMeta, rest: string)
    requires n > 0
    ensures Got(ReadCol(s), failed, c, rest) ==>
            ReadCols(cols, n, s) == if failed then Failed else ReadCols(cols + [c], n - 1, rest)
  {
  }

  lemma TabsTurn(tabs: map<string, TabMeta>, n: nat, s: string, failed: bool, t: TabMeta, rest: string)
    requires n > 0
    ensures Got(ReadTab(s), failed, t, rest) ==>
            ReadTabs(tabs, n, s) == if failed then Failed else ReadTabs(tabs[t.name := t], n - 1, rest)
  {
  }

  /** A stream that has failed stays failed and reads nothing more. */
  class InStream {
    var text: string
    var failed: bool

    constructor (text: string)
      ensures this.text == text && !failed
    {
      this.text, failed := text, false;
    }

    method GetWord() returns (w: string)
      modifies this
      ensures old(failed) ==> failed
      ensures !old(failed) ==> Got(ReadWord(old(text)), failed, w, text)
    {
      w := "";
      if !failed {
        match ReadWord(text) {
          case Failed => failed := true;
          case Read(v, rest) => w, text := v, rest;
        }
      }
    }

    method GetInt() returns (i: Int32)
      modifies this
      ensures old(failed) ==> failed
      ensures !old(failed) ==> Got(ReadInt32(old(text)), failed, i, text)
    {
      i := 0;
      if !failed {
        match ReadInt32(text) {
          case Failed => failed := true;
          case Read(v, rest) => i, text := v, rest;
        }
      }
    }

    method GetCount() returns (n: nat)
      modifies this
      ensures old(failed) ==> failed
      ensures !old(failed) ==> Got(ReadCount(old(text)), failed, n, text)
    {
      n := 0;
      if !failed {
        match ReadCount(text) {
          case Failed => failed := true;
          case Read(v, rest) => n, text := v, rest;
        }
      }
    }

    method GetBool() returns (b: bool)
      modifies this
      ensures old(failed) ==> failed
      ensures !old(failed) ==> Got(ReadBool(old(text)), failed, b, text)
    {
      b := false;
      if !failed {
        match ReadBool(text) {
          case Failed => failed := true;
          case Read(v, rest) => b, text := v, rest;
        }
      }
    }

    method GetCol() returns (c: ColMeta)
      modifies this
      ensures old(failed) ==> failed
      ensures !old(failed) ==> Got(ReadCol(old(text)), failed, c, text)
    {
      var tab := GetWord();
      var name := GetWord();
      var kind := GetInt();
      var len := GetInt();
      var offset := GetInt();
      var index := GetBool();
      c := ColMeta(tab, name, kind, len, offset, index);
    }

    /** Reads a count and then that many columns. */
    method GetTab() returns (t: TabMeta)
      modifies this
      ensures old(failed) ==> failed
      ensures !old(failed) ==> Got(ReadTab(old(text)), failed, t, text)
    {
      var name := GetWord();
      var n := GetCount();
      var cols := GetCols(n);
      t := TabMeta(name, cols);
    }

    /** The loop over the columns, each put behind the others. */
    method GetCols(n: nat) returns (cols: seq<ColMeta>)
      modifies this
      ensures old(failed) ==> failed
      ensures !old(failed) ==> Got(ReadCols([], n, old(text)), failed, cols, text)
    {
      cols := [];
      ghost var was, left, all := failed, n, ReadCols(cols, n, text);
      for i := 0 to n
        invariant (was ==> failed) && left == n - i
        invariant !was ==> all == if failed then Failed else ReadCols(cols, left, text)
      {
        ghost var s := text;
        var c := GetCol();
        ColsTurn(cols, left, s, failed, c, text);
        left := left - 1;
        cols := cols + [c];
      }
    }

    /** Reads into `db`, which may hold tables already. */
    method GetDb(db: DbMeta) returns (r: DbMeta)
      modifies this
      ensures old(failed) ==> failed
      ensures !old(failed) ==> Got(ReadDb(db, old(text)), failed, r, text)
    {
      var name := GetWord();
      var n := GetCount();
      var tabs := GetTabs(db.tabs, n);
      r := DbMeta(name, tabs);
    }

    /** The loop over the tables, each stored under its name. */
    method GetTabs(before: map<string, TabMeta>, n: nat) returns (tabs: map<string, TabMeta>)
      modifies this
      ensures old(failed) ==> failed
      ensures !old(failed) ==> Got(ReadTabs(before, n, old(text)), failed, tabs, text)
    {
      tabs := before;
      ghost var was, left, all := failed, n, ReadTabs(tabs, n, text);
      for i := 0 to n
        invariant (was ==> failed) && left == n - i
        invariant !was ==> all == if failed then Failed else ReadTabs(tabs, left, text)
      {
        ghost var s := text;
        var t := GetTab();
        TabsTurn(tabs, left, s, failed, t, text);
        left := left - 1;
        tabs := tabs[t.name := t];
      }
    }
  }

  /** Printing a database and reading the text into a new one. */
  method PrintAndRead(db: DbMeta, ts: seq<TabMeta>, ghost keys: seq<string>) returns (back: DbMeta, ok: bool)
    requires Walks(ts, keys, db) && |ts| < TWO_TO_64 && forall t :: t in ts ==> Countable(t)
    ensures ok && back == db <==> WordsOnly(db) && UnderOwnName(db)
  {
    var os := new OutStream();
    os.PrintDb(db.name, ts);
    assert os.pieces == DbPieces(db.name, ts);
    var stream := new InStream(os.text);
    back := stream.GetDb(DbMeta("", map[]));
    ok := !stream.failed;
    RoundTrip(db, ts, keys);
  }
}
