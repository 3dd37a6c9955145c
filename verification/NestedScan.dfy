/**
 The rows that nested scans select, each fed with the rows of the scans around
 it (src/execution/executor_nestedloop_join.h, src/execution/executor_seq_scan.h).
 */
module NestedScan {
  import opened Conditions
  import opened Pushdown

  datatype ColType = IntType | FloatType | StrType(len: nat)

  type Schema = map<TabCol, ColType>

  predicate HasType(v: Value, t: ColType) {
    match t
    case IntType => v.IntValue?
    case FloatType => v.FloatValue?
    case StrType(len) => v.StrValue? && |v.bytes| == len
  }

  predicate SameKind(t: ColType, u: ColType) {
    match t
    case IntType => u.IntType?
    case FloatType => u.FloatType?
    case StrType(_) => u.StrType?
  }

  /**
   What check_where_clause leaves: columns of one kind, or a value brought to
   the length of the column.
   */
  predicate CondOk(schema: Schema, c: Condition) {
    && c.lhs in schema
    && match c.rhs
       case Col(col) => col in schema && SameKind(schema[col], schema[c.lhs])
       case Val(v) => HasType(v, schema[c.lhs])
  }

  /** The left column is no longer than the right one. */
  predicate LengthsFit(schema: Schema, c: Condition)
    requires CondOk(schema, c)
  {
    c.rhs.Col? && schema[c.lhs].StrType? ==> schema[c.lhs].len <= schema[c.rhs.col].len
  }

  /** The scan leaves the sides as they are, or they are of the same type, length included. */
  predicate TurnsSafely(schema: Schema, tab: string, c: Condition)
    requires CondOk(schema, c)
  {
    Turned(tab, c) == c || schema[c.lhs] == schema[c.rhs.col]
  }

  /** A value for every column of the given tables and for no other. */
  ghost predicate RowOk(schema: Schema, tabs: seq<string>, r: Row) {
    && (forall c :: c in r <==> c in schema && c.tab in tabs)
    && (forall c :: c in r ==> HasType(r[c], schema[c]))
  }

  ghost predicate TableOk(schema: Schema, tab: string, rows: seq<Row>) {
    forall k :: 0 <= k < |rows| ==> RowOk(schema, [tab], rows[k])
  }

  ghost predicate QueryOk(schema: Schema, tabs: seq<string>, tables: seq<seq<Row>>, conds: seq<Condition>) {
    && |tabs| == |tables|
    && (forall i, j :: 0 <= i < j < |tabs| ==> tabs[i] != tabs[j])
    && (forall i :: 0 <= i < |tabs| ==> TableOk(schema, tabs[i], tables[i]))
    && (forall c :: c in conds ==> CondOk(schema, c) && Covered(tabs, c))
  }

  // ---------------------------------------------------------------- nested scans

  /** The scan of table `i`, fed with `feed`, lets the row through. */
  predicate Passes(tabs: seq<string>, conds: seq<Condition>, i: nat, feed: Row, row: Row)
    requires i < |tabs|
  {
    forall c :: c in Level(conds, tabs, i) ==>
      CanFeed(tabs[i], Turned(tabs[i], c), feed) && Holds(Fed(tabs[i], Turned(tabs[i], c), feed), row)
  }

  /** What a scan built for its level and fed with `feed` checks on a row is Passes. */
  lemma ScanChecksItsLevel(tabs: seq<string>, conds: seq<Condition>, i: nat, feed: Row, row: Row, fed: seq<Condition>)
    requires i < |tabs| && |fed| == |Level(conds, tabs, i)|
    requires forall k :: 0 <= k < |fed| ==>
      var t := Turned(tabs[i], Level(conds, tabs, i)[k]);
      CanFeed(tabs[i], t, feed) && fed[k] == Fed(tabs[i], t, feed)
    ensures AllHold(fed, row) <==> Passes(tabs, conds, i, feed, row)
  {
    var level := Level(conds, tabs, i);
    if AllHold(fed, row) {
      forall c | c in level ensures CanFeed(tabs[i], Turned(tabs[i], c), feed) && Holds(Fed(tabs[i], Turned(tabs[i], c), feed), row) {
        var k :| 0 <= k < |level| && level[k] == c;
        assert Holds(fed[k], row);
      }
    } else {
      var k :| 0 <= k < |fed| && !Holds(fed[k], row);
      assert level[k] in level;
    }
  }

  function Prefixed(r: Row, xs: seq<seq<Row>>): seq<seq<Row>> {
    if xs == [] then [] else [[r] + xs[0]] + Prefixed(r, xs[1..])
  }

  function Nested(tabs: seq<string>, tables: seq<seq<Row>>, conds: seq<Condition>, i: nat, feed: Row): seq<seq<Row>>
    requires |tabs| == |tables| && i <= |tables|
    decreases |tables| - i, 0, 0
  {
    if i == |tables| then [[]] else Outer(tabs, tables, conds, i, feed, tables[i])
  }

  function Outer(tabs: seq<string>, tables: seq<seq<Row>>, conds: seq<Condition>, i: nat, feed: Row, rows: seq<Row>): seq<seq<Row>>
    requires |tabs| == |tables| && i < |tables|
    decreases |tables| - i - 1, 1, |rows|
  {
    if rows == [] then []
    else
      (if Passes(tabs, conds, i, feed, rows[0])
       then Prefixed(rows[0], Nested(tabs, tables, conds, i + 1, feed + rows[0])) else [])
      + Outer(tabs, tables, conds, i, feed, rows[1..])
  }

  // ---------------------------------------------------------------- the cross product

  function Product(tables: seq<seq<Row>>, i: nat): seq<seq<Row>>
    requires i <= |tables|
    decreases |tables| - i, 0, 0
  {
    if i == |tables| then [[]] else ProductFrom(tables, i, tables[i])
  }

  function ProductFrom(tables: seq<seq<Row>>, i: nat, rows: seq<Row>): seq<seq<Row>>
    requires i < |tables|
    decreases |tables| - i - 1, 1, |rows|
  {
    if rows == [] then [] else Prefixed(rows[0], Product(tables, i + 1)) + ProductFrom(tables, i, rows[1..])
  }

  function Join(feed: Row, rows: seq<Row>): Row
    decreases |rows|
  {
    if rows == [] then feed else Join(feed + rows[0], rows[1..])
  }

  /** How often the combination can be picked, one row from each table from i on. */
  function Picks(tables: seq<seq<Row>>, i: nat, combo: seq<Row>): nat
    requires i + |combo| == |tables|
    decreases |combo|
  {
    if combo == [] then 1 else multiset(tables[i])[combo[0]] * Picks(tables, i + 1, combo[1..])
  }

  lemma {:induction false} PrefixedCount(r: Row, xs: seq<seq<Row>>, row: Row, rest: seq<Row>)
    ensures multiset(Prefixed(r, xs))[[row] + rest] == if row == r then multiset(xs)[rest] else 0
    ensures multiset(Prefixed(r, xs))[[]] == 0
  {
    if xs != [] {
      PrefixedCount(r, xs[1..], row, rest);
      var ps := Prefixed(r, xs);
      assert ps == [[r] + xs[0]] + ps[1..] && ps[1..] == Prefixed(r, xs[1..]) && xs == [xs[0]] + xs[1..];
      assert [row] + rest == [r] + xs[0] <==> row == r && rest == xs[0] by {
        assert ([row] + rest)[0] == row && ([row] + rest)[1..] == rest;
        assert ([r] + xs[0])[0] == r && ([r] + xs[0])[1..] == xs[0];
      }
    }
  }

  /** The cross product has each combination as often as its rows can be picked, and nothing else. */
  lemma {:induction false} ProductCount(tables: seq<seq<Row>>, i: nat, combo: seq<Row>)
    requires i <= |tables|
    ensures multiset(Product(tables, i))[combo] == if i + |combo| == |tables| then Picks(tables, i, combo) else 0
    decreases |tables| - i, 0, 0
  {
    if i < |tables| {
      ProductFromCount(tables, i, tables[i], combo);
    }
  }

  lemma {:induction false} ProductFromCount(tables: seq<seq<Row>>, i: nat, rows: seq<Row>, combo: seq<Row>)
    requires i < |tables|
    ensures multiset(ProductFrom(tables, i, rows))[combo] ==
            if i + |combo| == |tables| then multiset(rows)[combo[0]] * Picks(tables, i + 1, combo[1..]) else 0
    decreases |tables| - i - 1, 1, |rows|
  {
    if rows != [] {
      ProductFromCount(tables, i, rows[1..], combo);
      FirstRowCount(tables, i, rows[0], combo);
      if combo != [] && i + |combo| == |tables| {
        OneMoreRow(rows, combo[0], Picks(tables, i + 1, combo[1..]));
      }
    }
  }

  /** The combinations that start with a given row. */
  lemma {:induction false} FirstRowCount(tables: seq<seq<Row>>, i: nat, row: Row, combo: seq<Row>)
    requires i < |tables|
    ensures multiset(Prefixed(row, Product(tables, i + 1)))[combo] ==
            if i + |combo| == |tables| && combo[0] == row then Picks(tables, i + 1, combo[1..]) else 0
    decreases |tables| - i - 1, 0, 1
  {
    if combo == [] {
      PrefixedCount(row, Product(tables, i + 1), row, []);
    } else {
      assert combo == [combo[0]] + combo[1..];
      PrefixedCount(row, Product(tables, i + 1), combo[0], combo[1..]);
      ProductCount(tables, i + 1, combo[1..]);
    }
  }

  lemma OneMoreRow(rows: seq<Row>, row: Row, n: nat)
    requires rows != []
    ensures multiset(rows)[row] * n == (if rows[0] == row then n else 0) + multiset(rows[1..])[row] * n
  {
    assert rows == [rows[0]] + rows[1..];
    var m := multiset(rows[1..])[row];
    assert multiset(rows)[row] == (if rows[0] == row then 1 else 0) + m;
    assert (1 + m) * n == n + m * n;
  }

  // ---------------------------------------------------------------- one level

  ghost predicate RowsOk(schema: Schema, tabs: seq<string>, i: nat, rows: seq<Row>) {
    i + |rows| == |tabs| && forall k :: 0 <= k < |rows| ==> RowOk(schema, [tabs[i + k]], rows[k])
  }

  predicate Distinct(tabs: seq<string>) {
    forall i, j :: 0 <= i < j < |tabs| ==> tabs[i] != tabs[j]
  }

  lemma FeedGrows(schema: Schema, tabs: seq<string>, i: nat, feed: Row, row: Row)
    requires i < |tabs| && RowOk(schema, tabs[..i], feed) && RowOk(schema, [tabs[i]], row)
    ensures RowOk(schema, tabs[..i + 1], feed + row)
  {
    assert tabs[..i + 1] == tabs[..i] + [tabs[i]];
  }

  /** Rows of later tables leave the columns of earlier ones alone. */
  lemma {:induction false} JoinKeeps(schema: Schema, tabs: seq<string>, i: nat, feed: Row, rows: seq<Row>)
    requires Distinct(tabs) && RowsOk(schema, tabs, i, rows) && RowOk(schema, tabs[..i], feed)
    ensures RowOk(schema, tabs, Join(feed, rows))
    ensures forall c :: c in feed ==> c in Join(feed, rows) && Join(feed, rows)[c] == feed[c]
    decreases |rows|
  {
    if rows == [] {
      assert tabs[..i] == tabs;
    } else {
      assert RowOk(schema, [tabs[i + 0]], rows[0]);
      FeedGrows(schema, tabs, i, feed, rows[0]);
      forall k | 0 <= k < |rows[1..]| ensures RowOk(schema, [tabs[i + 1 + k]], rows[1..][k]) {
        assert RowOk(schema, [tabs[i + (k + 1)]], rows[k + 1]);
      }
      JoinKeeps(schema, tabs, i + 1, feed + rows[0], rows[1..]);
      forall c | c in feed ensures c !in rows[0] {
        assert c.tab in tabs[..i];
      }
    }
  }

  /** The joined row has every column of every row. */
  lemma {:induction false} JoinHasColumns(schema: Schema, tabs: seq<string>, i: nat, feed: Row, rows: seq<Row>, k: nat)
    requires Distinct(tabs) && RowsOk(schema, tabs, i, rows) && RowOk(schema, tabs[..i], feed) && k < |rows|
    ensures forall c :: c in rows[k] ==> c in Join(feed, rows) && Join(feed, rows)[c] == rows[k][c]
    decreases |rows|
  {
    JoinKeepsTail(schema, tabs, i, feed, rows);
    if k > 0 {
      JoinHasColumns(schema, tabs, i + 1, feed + rows[0], rows[1..], k - 1);
    }
  }

  lemma TypesAgree(schema: Schema, tabs: seq<string>, c: Condition, r: Row)
    requires CondOk(schema, c) && Covered(tabs, c) && RowOk(schema, tabs, r)
    ensures c.lhs in r && HasRhs(c, r)
    ensures Evaluable(c, r) <==> LengthsFit(schema, c)
    ensures (c.rhs.Col? ==> schema[c.lhs] == schema[c.rhs.col]) ==> SideTypesAgree(c, r)
  {
  }

  lemma TurnedIsOk(schema: Schema, tab: string, c: Condition)
    requires CondOk(schema, c)
    ensures CondOk(schema, Turned(tab, c))
  {
  }

  /**
   A scanned condition, turned and fed, says about the row what the turned one
   says about the joined row.  It can be fed, it passes the runtime check, and
   it can be evaluated exactly if it does not read too far.
   */
  lemma OneCondition(schema: Schema, tabs: seq<string>, i: nat, c: Condition, feed: Row, rows: seq<Row>)
    requires Distinct(tabs) && rows != [] && RowsOk(schema, tabs, i, rows) && RowOk(schema, tabs[..i], feed)
    requires CondOk(schema, c) && FirstAt(tabs, c, i)
    ensures var t := Turned(tabs[i], c);
      && CondOk(schema, t) && CanFeed(tabs[i], t, feed) && RuntimeOk(tabs[i], Fed(tabs[i], t, feed))
      && (Evaluable(Fed(tabs[i], t, feed), rows[0]) <==> LengthsFit(schema, t))
      && (Holds(Fed(tabs[i], t, feed), rows[0]) <==> Holds(t, Join(feed, rows)))
  {
    var t := Turned(tabs[i], c);
    var all := feed + rows[0];
    assert RowOk(schema, [tabs[i + 0]], rows[0]);
    FeedGrows(schema, tabs, i, feed, rows[0]);
    OneSideIsOwn(tabs, c, i);
    TurnedIsOk(schema, tabs[i], c);
    TypesAgree(schema, tabs[..i + 1], t, all);
    FedMeansTheSame(tabs[i], t, feed, rows[0]);
    JoinKeepsTail(schema, tabs, i, feed, rows);
    assert Join(feed, rows) == Join(all, rows[1..]);
  }

  lemma JoinKeepsTail(schema: Schema, tabs: seq<string>, i: nat, feed: Row, rows: seq<Row>)
    requires Distinct(tabs) && rows != [] && RowsOk(schema, tabs, i, rows) && RowOk(schema, tabs[..i], feed)
    ensures RowsOk(schema, tabs, i + 1, rows[1..]) && RowOk(schema, tabs[..i + 1], feed + rows[0])
    ensures forall c :: c in feed + rows[0] ==>
      c in Join(feed + rows[0], rows[1..]) && Join(feed + rows[0], rows[1..])[c] == (feed + rows[0])[c]
  {
    assert RowOk(schema, [tabs[i + 0]], rows[0]);
    FeedGrows(schema, tabs, i, feed, rows[0]);
    forall k | 0 <= k < |rows[1..]| ensures RowOk(schema, [tabs[i + 1 + k]], rows[1..][k]) {
      assert RowOk(schema, [tabs[i + (k + 1)]], rows[k + 1]);
    }
    JoinKeeps(schema, tabs, i + 1, feed + rows[0], rows[1..]);
  }

  /** The condition holds as the scan that gets it has turned it. */
  predicate HoldsTurned(tabs: seq<string>, c: Condition, r: Row) {
    forall j :: 0 <= j < |tabs| && FirstAt(tabs, c, j) ==> Holds(Turned(tabs[j], c), r)
  }

  /** The conditions that tables from `i` on have to check hold. */
  predicate LaterHold(tabs: seq<string>, conds: seq<Condition>, i: nat, r: Row)
    requires i <= |tabs|
  {
    forall c :: c in conds && !Covered(tabs[..i], c) ==> HoldsTurned(tabs, c, r)
  }

  lemma OneLevel(schema: Schema, tabs: seq<string>, conds: seq<Condition>, i: nat, feed: Row, row: Row, rest: seq<Row>)
    requires Distinct(tabs) && RowsOk(schema, tabs, i, [row] + rest) && RowOk(schema, tabs[..i], feed)
    requires forall c :: c in conds ==> CondOk(schema, c)
    ensures LaterHold(tabs, conds, i, Join(feed, [row] + rest)) <==>
            Passes(tabs, conds, i, feed, row) && LaterHold(tabs, conds, i + 1, Join(feed + row, rest))
  {
    var rows := [row] + rest;
    assert rows[1..] == rest;
    var r := Join(feed, rows);
    forall c | c in Level(conds, tabs, i)
      ensures CanFeed(tabs[i], Turned(tabs[i], c), feed)
      ensures Holds(Fed(tabs[i], Turned(tabs[i], c), feed), row) <==> HoldsTurned(tabs, c, r)
    {
      OneCondition(schema, tabs, i, c, feed, rows);
      OnlyOneLevel(tabs, c, i);
    }
    forall c ensures !Covered(tabs[..i], c) <==> FirstAt(tabs, c, i) || !Covered(tabs[..i + 1], c) {
      if Covered(tabs[..i], c) {
        PrefixCovers(tabs, c, i, i + 1);
      }
    }
    assert forall c :: c in conds && FirstAt(tabs, c, i) <==> c in Level(conds, tabs, i);
  }

  lemma OnlyOneLevel(tabs: seq<string>, c: Condition, i: nat)
    requires FirstAt(tabs, c, i)
    ensures forall j: nat :: FirstAt(tabs, c, j) ==> j == i
  {
    var j := ExactlyOneLevel(tabs, c, i + 1);
  }

  // ---------------------------------------------------------------- all levels

  lemma {:induction false} SelectConcat<T(!new)>(xs: seq<T>, ys: seq<T>, p: T -> bool)
    ensures Select(xs + ys, p) == Select(xs, p) + Select(ys, p)
  {
    if xs == [] {
      assert xs + ys == ys;
    } else {
      assert (xs + ys)[1..] == xs[1..] + ys;
      SelectConcat(xs[1..], ys, p);
    }
  }

  lemma {:induction false} SelectPrefixed(r: Row, xs: seq<seq<Row>>, p: seq<Row> -> bool, passes: bool, q: seq<Row> -> bool)
    requires forall x :: x in xs ==> (p([r] + x) <==> passes && q(x))
    ensures Select(Prefixed(r, xs), p) == if passes then Prefixed(r, Select(xs, q)) else []
  {
    if xs != [] {
      assert xs[0] in xs;
      forall x | x in xs[1..] ensures p([r] + x) <==> passes && q(x) {
        assert x in xs;
      }
      SelectPrefixed(r, xs[1..], p, passes, q);
      var ps := Prefixed(r, xs);
      assert ps[0] == [r] + xs[0] && ps[1..] == Prefixed(r, xs[1..]);
    }
  }

  lemma {:induction false} PrefixedMembers(r: Row, xs: seq<seq<Row>>, y: seq<Row>)
    requires y in Prefixed(r, xs)
    ensures y != [] && y[0] == r && y[1..] in xs
  {
    if y == [r] + xs[0] {
      assert y[1..] == xs[0];
    } else {
      PrefixedMembers(r, xs[1..], y);
    }
  }

  lemma {:induction false} ProductRowsOk(schema: Schema, tabs: seq<string>, tables: seq<seq<Row>>, i: nat, combo: seq<Row>)
    requires |tabs| == |tables| && i <= |tables|
    requires forall k :: 0 <= k < |tabs| ==> TableOk(schema, tabs[k], tables[k])
    requires combo in Product(tables, i)
    ensures RowsOk(schema, tabs, i, combo)
    decreases |tables| - i, 0, 0
  {
    if i < |tables| {
      ProductFromRowsOk(schema, tabs, tables, i, tables[i], combo);
    }
  }

  lemma {:induction false} ProductFromRowsOk(schema: Schema, tabs: seq<string>, tables: seq<seq<Row>>, i: nat, rows: seq<Row>, combo: seq<Row>)
    requires |tabs| == |tables| && i < |tables|
    requires forall k :: 0 <= k < |tabs| ==> TableOk(schema, tabs[k], tables[k])
    requires TableOk(schema, tabs[i], rows)
    requires combo in ProductFrom(tables, i, rows)
    ensures RowsOk(schema, tabs, i, combo)
    decreases |tables| - i - 1, 1, |rows|
  {
    if combo in Prefixed(rows[0], Product(tables, i + 1)) {
      PrefixedMembers(rows[0], Product(tables, i + 1), combo);
      ProductRowsOk(schema, tabs, tables, i + 1, combo[1..]);
      forall k | 0 <= k < |combo| ensures RowOk(schema, [tabs[i + k]], combo[k]) {
        if k > 0 {
          assert RowOk(schema, [tabs[i + 1 + (k - 1)]], combo[1..][k - 1]);
        }
      }
    } else {
      ProductFromRowsOk(schema, tabs, tables, i, rows[1..], combo);
    }
  }

  lemma {:induction false} NestedSelects(schema: Schema, tabs: seq<string>, tables: seq<seq<Row>>, conds: seq<Condition>, i: nat, feed: Row)
    requires QueryOk(schema, tabs, tables, conds) && i <= |tables| && RowOk(schema, tabs[..i], feed)
    ensures Nested(tabs, tables, conds, i, feed) ==
            Select(Product(tables, i), combo => LaterHold(tabs, conds, i, Join(feed, combo)))
    decreases |tables| - i, 0, 0
  {
    if i == |tables| {
      assert tabs[..i] == tabs;
    } else {
      OuterSelects(schema, tabs, tables, conds, i, feed, tables[i]);
    }
  }

  lemma {:induction false} OuterSelects(schema: Schema, tabs: seq<string>, tables: seq<seq<Row>>, conds: seq<Condition>, i: nat, feed: Row, rows: seq<Row>)
    requires QueryOk(schema, tabs, tables, conds) && i < |tables| && RowOk(schema, tabs[..i], feed)
    requires TableOk(schema, tabs[i], rows)
    ensures Outer(tabs, tables, conds, i, feed, rows) ==
            Select(ProductFrom(tables, i, rows), combo => LaterHold(tabs, conds, i, Join(feed, combo)))
    decreases |tables| - i - 1, 1, |rows|
  {
    if rows != [] {
      var p := (combo: seq<Row>) => LaterHold(tabs, conds, i, Join(feed, combo));
      var inner := Product(tables, i + 1);
      FirstRow(schema, tabs, tables, conds, i, feed, rows[0]);
      OuterSelects(schema, tabs, tables, conds, i, feed, rows[1..]);
      SelectConcat(Prefixed(rows[0], inner), ProductFrom(tables, i, rows[1..]), p);
    }
  }

  lemma {:induction false} FirstRow(schema: Schema, tabs: seq<string>, tables: seq<seq<Row>>, conds: seq<Condition>, i: nat, feed: Row, row: Row)
    requires QueryOk(schema, tabs, tables, conds) && i < |tables| && RowOk(schema, tabs[..i], feed)
    requires RowOk(schema, [tabs[i]], row)
    ensures Select(Prefixed(row, Product(tables, i + 1)), combo => LaterHold(tabs, conds, i, Join(feed, combo))) ==
            if Passes(tabs, conds, i, feed, row) then Prefixed(row, Nested(tabs, tables, conds, i + 1, feed + row)) else []
    decreases |tables| - i - 1, 0, 1
  {
    var inner := Product(tables, i + 1);
    var p := (combo: seq<Row>) => LaterHold(tabs, conds, i, Join(feed, combo));
    var q := (combo: seq<Row>) => LaterHold(tabs, conds, i + 1, Join(feed + row, combo));
    FeedGrows(schema, tabs, i, feed, row);
    NestedSelects(schema, tabs, tables, conds, i + 1, feed + row);
    forall rest | rest in inner ensures p([row] + rest) <==> Passes(tabs, conds, i, feed, row) && q(rest) {
      ProductRowsOk(schema, tabs, tables, i + 1, rest);
      FrontRowsOk(schema, tabs, i, row, rest);
      OneLevel(schema, tabs, conds, i, feed, row, rest);
    }
    SelectPrefixed(row, inner, p, Passes(tabs, conds, i, feed, row), q);
  }

  lemma FrontRowsOk(schema: Schema, tabs: seq<string>, i: nat, row: Row, rest: seq<Row>)
    requires i < |tabs| && RowOk(schema, [tabs[i]], row) && RowsOk(schema, tabs, i + 1, rest)
    ensures RowsOk(schema, tabs, i, [row] + rest)
  {
    forall k | 0 <= k < |rest| + 1 ensures RowOk(schema, [tabs[i + k]], ([row] + rest)[k]) {
      if k > 0 {
        assert RowOk(schema, [tabs[i + 1 + (k - 1)]], rest[k - 1]);
      }
    }
  }

  /**
   Nested scans with the conditions handed out, turned and fed select from the
   cross product exactly the combinations on which every condition holds as
   its scan has turned it, in the same order.
   */
  lemma ScansSelect(schema: Schema, tabs: seq<string>, tables: seq<seq<Row>>, conds: seq<Condition>)
    requires QueryOk(schema, tabs, tables, conds)
    ensures Nested(tabs, tables, conds, 0, map[]) == Select(Product(tables, 0), combo => AllTurned(tabs, conds, Join(map[], combo)))
  {
    NestedSelects(schema, tabs, tables, conds, 0, map[]);
    SelectSame(Product(tables, 0), combo => LaterHold(tabs, conds, 0, Join(map[], combo)), combo => AllTurned(tabs, conds, Join(map[], combo)));
  }

  predicate AllTurned(tabs: seq<string>, conds: seq<Condition>, r: Row) {
    forall c :: c in conds ==> HoldsTurned(tabs, c, r)
  }

  /**
   So the meaning of the query is preserved exactly if on every combination
   the turned conditions say together what the written ones say.
   */
  lemma MeaningPreservedIff(schema: Schema, tabs: seq<string>, tables: seq<seq<Row>>, conds: seq<Condition>)
    requires QueryOk(schema, tabs, tables, conds)
    ensures Nested(tabs, tables, conds, 0, map[]) == Select(Product(tables, 0), combo => AllHold(conds, Join(map[], combo))) <==>
            forall combo :: combo in Product(tables, 0) ==>
              (AllTurned(tabs, conds, Join(map[], combo)) <==> AllHold(conds, Join(map[], combo)))
  {
    ScansSelect(schema, tabs, tables, conds);
    var p := (combo: seq<Row>) => AllTurned(tabs, conds, Join(map[], combo));
    var q := (combo: seq<Row>) => AllHold(conds, Join(map[], combo));
    var all := Product(tables, 0);
    if Select(all, p) == Select(all, q) {
      forall combo | combo in all ensures p(combo) <==> q(combo) {
        assert combo in Select(all, p) <==> p(combo);
        assert combo in Select(all, q) <==> q(combo);
      }
    }
    if forall combo :: combo in all ==> (p(combo) <==> q(combo)) {
      SelectSame(all, p, q);
    }
  }

  /**
   That is so for all rows if every condition whose sides a scan exchanges
   compares columns of one type, length included.
   */
  lemma PushdownPreservesMeaning(schema: Schema, tabs: seq<string>, tables: seq<seq<Row>>, conds: seq<Condition>)
    requires QueryOk(schema, tabs, tables, conds)
    requires forall c, j :: c in conds && 0 <= j < |tabs| && FirstAt(tabs, c, j) ==> TurnsSafely(schema, tabs[j], c)
    ensures Nested(tabs, tables, conds, 0, map[]) == Select(Product(tables, 0), combo => AllHold(conds, Join(map[], combo)))
  {
    forall combo | combo in Product(tables, 0)
      ensures AllTurned(tabs, conds, Join(map[], combo)) <==> AllHold(conds, Join(map[], combo))
    {
      var r := Join(map[], combo);
      ProductRowsOk(schema, tabs, tables, 0, combo);
      JoinKeeps(schema, tabs, 0, map[], combo);
      forall c | c in conds ensures HoldsTurned(tabs, c, r) <==> Holds(c, r) {
        SafeTurn(schema, tabs, c, r);
      }
      assert forall k :: 0 <= k < |conds| ==> conds[k] in conds;
    }
    MeaningPreservedIff(schema, tabs, tables, conds);
  }

  lemma SafeTurn(schema: Schema, tabs: seq<string>, c: Condition, r: Row)
    requires CondOk(schema, c) && Covered(tabs, c) && RowOk(schema, tabs, r)
    requires forall j :: 0 <= j < |tabs| && FirstAt(tabs, c, j) ==> TurnsSafely(schema, tabs[j], c)
    ensures HoldsTurned(tabs, c, r) <==> Holds(c, r)
  {
    assert tabs[..|tabs|] == tabs;
    var j := ExactlyOneLevel(tabs, c, |tabs|);
    if Turned(tabs[j], c) != c {
      TypesAgree(schema, tabs, c, r);
      TurnedMeansTheSame(tabs[j], c, r);
    }
  }

  /**
   And only then: exchanging the sides of one condition over string columns
   changes what it says about some row exactly if their lengths differ.
   */
  lemma TurningChangesMeaningIff(schema: Schema, tab: string, c: Condition)
    requires CondOk(schema, c) && c.rhs.Col? && c.lhs != c.rhs.col
    requires schema[c.lhs].StrType? ==> schema[c.lhs].len > 0 && schema[c.rhs.col].len > 0
    ensures TurnsSafely(schema, tab, c) <==> forall r: Row :: Fits(schema, c, r) ==> (Holds(Turned(tab, c), r) <==> Holds(c, r))
  {
    if TurnsSafely(schema, tab, c) {
      forall r: Row | Fits(schema, c, r) ensures Holds(Turned(tab, c), r) <==> Holds(c, r) {
        if Turned(tab, c) != c {
          TurnedMeansTheSame(tab, c, r);
        }
      }
    } else {
      var r := TellsApart(schema, c);
      assert Fits(schema, c, r) && (Holds(Turned(tab, c), r) <==> !Holds(c, r));
    }
  }

  /** The row has the two columns of the condition, with their types. */
  predicate Fits(schema: Schema, c: Condition, r: Row)
    requires CondOk(schema, c) && c.rhs.Col?
  {
    c.lhs in r && c.rhs.col in r && HasType(r[c.lhs], schema[c.lhs]) && HasType(r[c.rhs.col], schema[c.rhs.col])
  }

  lemma TellsApart(schema: Schema, c: Condition) returns (r: Row)
    requires CondOk(schema, c) && c.rhs.Col? && c.lhs != c.rhs.col && schema[c.lhs].StrType?
    requires schema[c.lhs].len != schema[c.rhs.col].len && schema[c.lhs].len > 0 && schema[c.rhs.col].len > 0
    ensures Fits(schema, c, r) && (Holds(Swapped(c), r) <==> !Holds(c, r))
  {
    var n, m := schema[c.lhs].len, schema[c.rhs.col].len;
    if n < m {
      var a, b := Accepted(c.op, n, m);
      r := map[c.lhs := StrValue(a), c.rhs.col := StrValue(b)];
    } else {
      var b, a := Accepted(SwapOp(c.op), m, n);
      r := map[c.lhs := StrValue(a), c.rhs.col := StrValue(b)];
    }
  }

  /** For every operator there are strings of which it holds. */
  lemma Accepted(op: CompOp, n: nat, m: nat) returns (a: seq<bv8>, b: seq<bv8>)
    requires 0 < n <= m
    ensures |a| == n && |b| == m && Accepts(op, CompareBytes(a, b))
  {
    var zerosA: seq<bv8>, zerosB: seq<bv8> := seq(n, _ => 0), seq(m, _ => 0);
    match op
    case EQ | LE | GE =>
      a, b := zerosA, zerosB;
      SameBytes(a, b);
    case NE | LT => a, b := zerosA, zerosB[0 := 1];
    case GT => a, b := zerosA[0 := 1], zerosB;
  }

  lemma {:induction false} SameBytes(a: seq<bv8>, b: seq<bv8>)
    requires |a| <= |b| && forall i :: 0 <= i < |a| ==> a[i] == b[i]
    ensures CompareBytes(a, b) == 0
  {
    if a != [] {
      SameBytes(a[1..], b[1..]);
    }
  }

  /**
   Whatever rows are being joined, the conditions of each table can be fed and
   pass the runtime check, and they can be evaluated exactly if the left
   column, once turned, is no longer than the right one.
   */
  lemma ScansFailOnlyOnLengths(schema: Schema, tabs: seq<string>, conds: seq<Condition>, i: nat, rows: seq<Row>, c: Condition)
    requires Distinct(tabs) && i < |tabs| && RowsOk(schema, tabs, 0, rows)
    requires c in Level(conds, tabs, i) && CondOk(schema, c)
    ensures var feed := Join(map[], rows[..i]);
      var t := Turned(tabs[i], c);
      && CondOk(schema, t) && CanFeed(tabs[i], t, feed) && RuntimeOk(tabs[i], Fed(tabs[i], t, feed))
      && (Evaluable(Fed(tabs[i], t, feed), rows[i]) <==> LengthsFit(schema, t))
  {
    var feed := Join(map[], rows[..i]);
    var front := tabs[..i];
    forall k | 0 <= k < i ensures RowOk(schema, [front[0 + k]], rows[..i][k]) {
      assert RowOk(schema, [tabs[0 + k]], rows[k]);
    }
    JoinKeeps(schema, front, 0, map[], rows[..i]);
    forall k | 0 <= k < |rows| - i ensures RowOk(schema, [tabs[i + k]], rows[i..][k]) {
      assert RowOk(schema, [tabs[0 + (i + k)]], rows[i + k]);
    }
    OneCondition(schema, tabs, i, c, feed, rows[i..]);
  }
}
