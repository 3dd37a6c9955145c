/**
 Values, columns and conditions of a WHERE clause, and what a condition says
 about a row (src/execution/execution_defs.h, src/index/ix_node_handle.h and
 src/execution/executor_seq_scan.h).
 */
module Conditions {

  datatype TabCol = TabCol(tab: string, col: string)

  /** A string column has a fixed number of bytes. */
  datatype Value = IntValue(i: int) | FloatValue(f: real) | StrValue(bytes: seq<bv8>)

  datatype CompOp = EQ | NE | LT | GT | LE | GE

  datatype Operand = Col(col: TabCol) | Val(val: Value)

  datatype Condition = Condition(lhs: TabCol, op: CompOp, rhs: Operand)

  /** Column values by column; a row of one table, or of several joined. */
  type Row = map<TabCol, Value>

  // ---------------------------------------------------------------- comparison

  /**
   What ix_compare reads is there: the kinds agree, and the right side has at
   least the bytes of the left column.
   */
  predicate Comparable(a: Value, b: Value) {
    match a
    case IntValue(_) => b.IntValue?
    case FloatValue(_) => b.FloatValue?
    case StrValue(x) => b.StrValue? && |x| <= |b.bytes|
  }

  predicate SameType(a: Value, b: Value) {
    match a
    case IntValue(_) => b.IntValue?
    case FloatValue(_) => b.FloatValue?
    case StrValue(x) => b.StrValue? && |x| == |b.bytes|
  }

  /** memcmp */
  function CompareBytes(a: seq<bv8>, b: seq<bv8>): int
    requires |a| <= |b|
  {
    if a == [] then 0
    else if a[0] < b[0] then -1
    else if a[0] > b[0] then 1
    else CompareBytes(a[1..], b[1..])
  }

  function Compare(a: Value, b: Value): int
    requires Comparable(a, b)
  {
    match a
    case IntValue(i) => if i < b.i then -1 else if i > b.i then 1 else 0
    case FloatValue(f) => if f < b.f then -1 else if f > b.f then 1 else 0
    case StrValue(x) => CompareBytes(x, b.bytes)
  }

  lemma {:induction false} BytesOpposite(a: seq<bv8>, b: seq<bv8>)
    requires |a| == |b|
    ensures CompareBytes(a, b) == -CompareBytes(b, a)
    ensures CompareBytes(a, b) == 0 <==> a == b
  {
    if a != [] {
      BytesOpposite(a[1..], b[1..]);
      assert a == [a[0]] + a[1..] && b == [b[0]] + b[1..];
    }
  }

  /**
   Both orders can be compared exactly for values of one type, string length
   included; then they give opposite answers.
   */
  lemma ComparesBothWays(a: Value, b: Value)
    ensures Comparable(a, b) && Comparable(b, a) <==> SameType(a, b)
    ensures SameType(a, b) ==> Compare(a, b) == -Compare(b, a)
    ensures SameType(a, b) ==> (Compare(a, b) == 0 <==> a == b)
  {
    if SameType(a, b) && a.StrValue? {
      BytesOpposite(a.bytes, b.bytes);
    }
  }

  predicate Accepts(op: CompOp, cmp: int) {
    match op
    case EQ => cmp == 0
    case NE => cmp != 0
    case LT => cmp < 0
    case GT => cmp > 0
    case LE => cmp <= 0
    case GE => cmp >= 0
  }

  /** The strings agree before byte k, which is there in both. */
  predicate AgreeBefore(a: seq<bv8>, b: seq<bv8>, k: nat) {
    k < |a| && k < |b| && a[..k] == b[..k]
  }

  lemma {:induction false} DifferenceDecides(a: seq<bv8>, b: seq<bv8>, k: nat)
    requires |a| <= |b| && AgreeBefore(a, b, k)
    ensures a[k] < b[k] ==> CompareBytes(a, b) < 0
    ensures a[k] > b[k] ==> CompareBytes(a, b) > 0
  {
    if k > 0 {
      assert a[0] == a[..k][0] == b[..k][0] == b[0];
      assert a[1..][..k - 1] == a[..k][1..] && b[1..][..k - 1] == b[..k][1..];
      DifferenceDecides(a[1..], b[1..], k - 1);
    }
  }

  lemma {:induction false} FirstDifference(a: seq<bv8>, b: seq<bv8>) returns (k: nat)
    requires |a| <= |b|
    ensures CompareBytes(a, b) == 0 ==> a == b[..|a|]
    ensures CompareBytes(a, b) != 0 ==> AgreeBefore(a, b, k) && a[k] != b[k]
  {
    k := 0;
    if a != [] && a[0] == b[0] {
      var n := FirstDifference(a[1..], b[1..]);
      k := n + 1;
      if CompareBytes(a, b) == 0 {
        assert a == [a[0]] + a[1..] && b[..|a|] == [b[0]] + b[1..][..|a| - 1];
      } else {
        assert a[..k] == [a[0]] + a[1..][..n] && b[..k] == [b[0]] + b[1..][..n];
      }
    }
  }

  lemma {:induction false} PrefixIsEqual(b: seq<bv8>, n: nat)
    requires n <= |b|
    ensures CompareBytes(b[..n], b) == 0
  {
    if n > 0 {
      assert b[..n][1..] == b[1..][..n - 1];
      PrefixIsEqual(b[1..], n - 1);
    }
  }

  /** Byte strings are ordered by their first difference, as far as the left one goes. */
  lemma BytesOrdered(a: seq<bv8>, b: seq<bv8>)
    requires |a| <= |b|
    ensures CompareBytes(a, b) < 0 <==> exists k: nat :: AgreeBefore(a, b, k) && a[k] < b[k]
    ensures CompareBytes(a, b) > 0 <==> exists k: nat :: AgreeBefore(a, b, k) && a[k] > b[k]
    ensures CompareBytes(a, b) == 0 <==> a == b[..|a|]
  {
    var k := FirstDifference(a, b);
    if CompareBytes(a, b) != 0 {
      DifferenceDecides(a, b, k);
    }
    if a == b[..|a|] {
      PrefixIsEqual(b, |a|);
    }
    forall n: nat | AgreeBefore(a, b, n) && a[n] != b[n]
      ensures if a[n] < b[n] then CompareBytes(a, b) < 0 else CompareBytes(a, b) > 0
    {
      DifferenceDecides(a, b, n);
    }
  }

  /** The table the scan swaps operators by. */
  function SwapOp(op: CompOp): CompOp {
    match op
    case EQ => EQ
    case NE => NE
    case LT => GT
    case GT => LT
    case LE => GE
    case GE => LE
  }

  lemma SwapOpMirrors(op: CompOp, cmp: int)
    ensures Accepts(SwapOp(op), -cmp) <==> Accepts(op, cmp)
    ensures SwapOp(SwapOp(op)) == op
  {
  }

  // ---------------------------------------------------------------- conditions on rows

  predicate HasRhs(c: Condition, r: Row) {
    c.rhs.Col? ==> c.rhs.col in r
  }

  function Rhs(c: Condition, r: Row): Value
    requires HasRhs(c, r)
  {
    match c.rhs
    case Col(col) => r[col]
    case Val(v) => v
  }

  /** eval_cond does not fail on this row. */
  predicate Evaluable(c: Condition, r: Row) {
    c.lhs in r && HasRhs(c, r) && Comparable(r[c.lhs], Rhs(c, r))
  }

  predicate Holds(c: Condition, r: Row) {
    Evaluable(c, r) && Accepts(c.op, Compare(r[c.lhs], Rhs(c, r)))
  }

  /** eval_conds */
  predicate AllHold(cs: seq<Condition>, r: Row) {
    forall i :: 0 <= i < |cs| ==> Holds(cs[i], r)
  }

  /** What the operator says of two numbers, or of a string and as much of another, in their own order. */
  ghost predicate Satisfies(op: CompOp, a: Value, b: Value)
    requires Comparable(a, b)
  {
    match a
    case IntValue(i) =>
      (match op case EQ => i == b.i case NE => i != b.i case LT => i < b.i case GT => i > b.i case LE => i <= b.i case GE => i >= b.i)
    case FloatValue(f) =>
      (match op case EQ => f == b.f case NE => f != b.f case LT => f < b.f case GT => f > b.f case LE => f <= b.f case GE => f >= b.f)
    case StrValue(x) =>
      var y := b.bytes[..|x|];
      match op
      case EQ => x == y
      case NE => x != y
      case LT => exists k: nat :: AgreeBefore(x, b.bytes, k) && x[k] < b.bytes[k]
      case GT => exists k: nat :: AgreeBefore(x, b.bytes, k) && x[k] > b.bytes[k]
      case LE => x == y || exists k: nat :: AgreeBefore(x, b.bytes, k) && x[k] < b.bytes[k]
      case GE => x == y || exists k: nat :: AgreeBefore(x, b.bytes, k) && x[k] > b.bytes[k]
  }

  /** A condition that can be evaluated holds exactly if the operator says so of the values. */
  lemma HoldsInOrder(c: Condition, r: Row)
    requires Evaluable(c, r)
    ensures Holds(c, r) <==> Satisfies(c.op, r[c.lhs], Rhs(c, r))
  {
    if r[c.lhs].StrValue? {
      BytesOrdered(r[c.lhs].bytes, Rhs(c, r).bytes);
    }
  }

  /** On the numbers themselves, for integers. */
  lemma IntConditions(lhs: TabCol, rhs: Operand, r: Row, i: int, k: int)
    requires lhs in r && r[lhs] == IntValue(i) && HasRhs(Condition(lhs, EQ, rhs), r)
    requires Rhs(Condition(lhs, EQ, rhs), r) == IntValue(k)
    ensures Holds(Condition(lhs, EQ, rhs), r) <==> i == k
    ensures Holds(Condition(lhs, NE, rhs), r) <==> i != k
    ensures Holds(Condition(lhs, LT, rhs), r) <==> i < k
    ensures Holds(Condition(lhs, GT, rhs), r) <==> i > k
    ensures Holds(Condition(lhs, LE, rhs), r) <==> i <= k
    ensures Holds(Condition(lhs, GE, rhs), r) <==> i >= k
  {
  }

  /** And for floats. */
  lemma FloatConditions(lhs: TabCol, rhs: Operand, r: Row, x: real, y: real)
    requires lhs in r && r[lhs] == FloatValue(x) && HasRhs(Condition(lhs, EQ, rhs), r)
    requires Rhs(Condition(lhs, EQ, rhs), r) == FloatValue(y)
    ensures Holds(Condition(lhs, EQ, rhs), r) <==> x == y
    ensures Holds(Condition(lhs, NE, rhs), r) <==> x != y
    ensures Holds(Condition(lhs, LT, rhs), r) <==> x < y
    ensures Holds(Condition(lhs, GT, rhs), r) <==> x > y
    ensures Holds(Condition(lhs, LE, rhs), r) <==> x <= y
    ensures Holds(Condition(lhs, GE, rhs), r) <==> x >= y
  {
  }

  predicate SideTypesAgree(c: Condition, r: Row) {
    c.lhs in r && HasRhs(c, r) && SameType(r[c.lhs], Rhs(c, r))
  }

  // ---------------------------------------------------------------- swapping sides and feeding values

  function Swapped(c: Condition): Condition
    requires c.rhs.Col?
  {
    Condition(c.rhs.col, SwapOp(c.op), Col(c.lhs))
  }

  /** The scan's constructor: the left side must be on its own table. */
  function Turned(tab: string, c: Condition): Condition {
    if c.lhs.tab != tab && c.rhs.Col? then Swapped(c) else c
  }

  lemma TurnedMeansTheSame(tab: string, c: Condition, r: Row)
    requires SideTypesAgree(c, r)
    ensures SideTypesAgree(Turned(tab, c), r)
    ensures Holds(Turned(tab, c), r) <==> Holds(c, r)
  {
    ComparesBothWays(r[c.lhs], Rhs(c, r));
    if Turned(tab, c) != c {
      SwapOpMirrors(c.op, Compare(r[c.lhs], Rhs(c, r)));
    }
  }

  /** With columns of different length one of the two orders reads too far. */
  lemma DifferentLengthsDoNotSwap(c: Condition, r: Row)
    requires c.rhs.Col? && c.lhs in r && c.rhs.col in r
    ensures Evaluable(c, r) && Evaluable(Swapped(c), r) <==> SideTypesAgree(c, r)
  {
    ComparesBothWays(r[c.lhs], r[c.rhs.col]);
  }

  /** feed: a column of another table becomes the value it has there. */
  predicate CanFeed(tab: string, c: Condition, feed: Row) {
    c.rhs.Col? && c.rhs.col.tab != tab ==> c.rhs.col in feed
  }

  function Fed(tab: string, c: Condition, feed: Row): Condition
    requires CanFeed(tab, c, feed)
  {
    if c.rhs.Col? && c.rhs.col.tab != tab then c.(rhs := Val(feed[c.rhs.col])) else c
  }

  /** What check_runtime_conds asserts. */
  predicate RuntimeOk(tab: string, c: Condition) {
    c.lhs.tab == tab && (c.rhs.Col? ==> c.rhs.col.tab == tab)
  }

  /** All columns of `r` are of table `tab`. */
  predicate OfTable(r: Row, tab: string) {
    forall c :: c in r ==> c.tab == tab
  }

  predicate NotOfTable(r: Row, tab: string) {
    forall c :: c in r ==> c.tab != tab
  }

  /**
   A condition over the columns fed and the row of this table is, once fed, a
   condition on the row alone, and it says the same.
   */
  lemma FedMeansTheSame(tab: string, c: Condition, feed: Row, row: Row)
    requires c.lhs.tab == tab && OfTable(row, tab) && NotOfTable(feed, tab)
    requires c.lhs in feed + row && HasRhs(c, feed + row)
    ensures CanFeed(tab, c, feed) && RuntimeOk(tab, Fed(tab, c, feed))
    ensures Evaluable(Fed(tab, c, feed), row) <==> Evaluable(c, feed + row)
    ensures Holds(Fed(tab, c, feed), row) <==> Holds(c, feed + row)
  {
  }
}
