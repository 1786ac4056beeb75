/**
 * `ORDER BY column DESC` as SQLite evaluates it: values sort by storage class
 * (NULL, then numbers, then text), numbers by magnitude whether stored as
 * INTEGER or REAL, text by the BINARY collation (code point by code point,
 * a proper prefix first). Rows with equal keys keep their storage order.
 */
module Ordering {
  import opened Sql

  /** The storage class rank SQLite sorts by first. */
  function Rank(v: Value): nat {
    match v
    case Null => 0
    case Int(_) => 1
    case Real(_) => 1
    case Text(_) => 2
  }

  function Magnitude(v: Value): real
    requires v.Int? || v.Real?
  {
    if v.Int? then v.i as real else v.x
  }

  /** The BINARY collation: lexicographic by code point, a proper prefix before its extensions. */
  predicate TextLe(a: string, b: string) {
    a == [] || (b != [] && (a[0] < b[0] || (a[0] == b[0] && TextLe(a[1..], b[1..]))))
  }

  /** `a <= b` in SQLite's ascending order. */
  predicate ValueLe(a: Value, b: Value) {
    if Rank(a) != Rank(b) then Rank(a) < Rank(b)
    else match a
      case Null => true
      case Text(s) => TextLe(s, b.s)
      case _ => Magnitude(a) <= Magnitude(b)
  }

  lemma {:induction false} TextLeTotal(a: string, b: string)
    ensures TextLe(a, b) || TextLe(b, a)
  {
    if a != [] && b != [] && a[0] == b[0] {
      TextLeTotal(a[1..], b[1..]);
    }
  }

  lemma {:induction false} TextLeTransitive(a: string, b: string, c: string)
    requires TextLe(a, b) && TextLe(b, c)
    ensures TextLe(a, c)
  {
    if a != [] && a[0] == b[0] && b[0] == c[0] {
      TextLeTransitive(a[1..], b[1..], c[1..]);
    }
  }

  /** Any two values are comparable: the order is total. */
  lemma ValueLeTotal(a: Value, b: Value)
    ensures ValueLe(a, b) || ValueLe(b, a)
  {
    if a.Text? && b.Text? {
      TextLeTotal(a.s, b.s);
    }
  }

  lemma ValueLeTransitive(a: Value, b: Value, c: Value)
    requires ValueLe(a, b) && ValueLe(b, c)
    ensures ValueLe(a, c)
  {
    if a.Text? && b.Text? && c.Text? {
      TextLeTransitive(a.s, b.s, c.s);
    }
  }

  /** The value a row is sorted by; a missing column reads as NULL. */
  function SortKey(row: Row, column: Column): Value {
    Get(row, column, Null)
  }

  /** Descending by `column`: no row is followed by one with a larger key. */
  ghost predicate SortedDesc(rows: seq<Row>, column: Column) {
    forall i, j :: 0 <= i < j < |rows| ==> ValueLe(SortKey(rows[j], column), SortKey(rows[i], column))
  }

  /** Places `x` ahead of the first row whose key does not exceed its own. */
  function InsertDesc(x: Row, rows: seq<Row>, column: Column): (r: seq<Row>)
    ensures multiset(r) == multiset(rows) + multiset{x}
    ensures |r| == |rows| + 1
  {
    if rows == [] then [x]
    else if ValueLe(SortKey(rows[0], column), SortKey(x, column)) then [x] + rows
    else
      assert rows == [rows[0]] + rows[1..];
      [rows[0]] + InsertDesc(x, rows[1..], column)
  }

  /** The rows of a query in `ORDER BY column DESC` order, ties in storage order. */
  function OrderByDesc(rows: seq<Row>, column: Column): (r: seq<Row>)
    ensures multiset(r) == multiset(rows)
    ensures |r| == |rows|
  {
    if rows == [] then []
    else
      assert rows == [rows[0]] + rows[1..];
      InsertDesc(rows[0], OrderByDesc(rows[1..], column), column)
  }

  /** Inserting a row no larger than `top` into rows no larger than `top` keeps them all no larger. */
  lemma {:induction false} InsertDescBelow(x: Row, rows: seq<Row>, column: Column, top: Value)
    requires ValueLe(SortKey(x, column), top)
    requires forall i :: 0 <= i < |rows| ==> ValueLe(SortKey(rows[i], column), top)
    ensures forall i :: 0 <= i < |rows| + 1 ==> ValueLe(SortKey(InsertDesc(x, rows, column)[i], column), top)
  {
    if rows != [] && !ValueLe(SortKey(rows[0], column), SortKey(x, column)) {
      InsertDescBelow(x, rows[1..], column, top);
    }
  }

  lemma {:induction false} InsertDescSorted(x: Row, rows: seq<Row>, column: Column)
    requires SortedDesc(rows, column)
    ensures SortedDesc(InsertDesc(x, rows, column), column)
  {
    var r := InsertDesc(x, rows, column);
    if rows == [] {
    } else if ValueLe(SortKey(rows[0], column), SortKey(x, column)) {
      forall i, j | 0 <= i < j < |r| ensures ValueLe(SortKey(r[j], column), SortKey(r[i], column)) {
        if i == 0 && j > 1 {
          ValueLeTransitive(SortKey(rows[j - 1], column), SortKey(rows[0], column), SortKey(x, column));
        }
      }
    } else {
      var rest := InsertDesc(x, rows[1..], column);
      assert SortedDesc(rows[1..], column);
      InsertDescSorted(x, rows[1..], column);
      ValueLeTotal(SortKey(rows[0], column), SortKey(x, column));
      InsertDescBelow(x, rows[1..], column, SortKey(rows[0], column));
      assert r == [rows[0]] + rest;
    }
  }

  /** ORDER BY DESC returns every row exactly as often as it was stored, largest key first. */
  lemma {:induction false} OrderByDescSorted(rows: seq<Row>, column: Column)
    ensures SortedDesc(OrderByDesc(rows, column), column)
    ensures multiset(OrderByDesc(rows, column)) == multiset(rows)
  {
    if rows != [] {
      OrderByDescSorted(rows[1..], column);
      InsertDescSorted(rows[0], OrderByDesc(rows[1..], column), column);
    }
  }

  /** Rows already in descending order come back unchanged: the order keeps ties as stored. */
  lemma {:induction false} OrderByDescOfSorted(rows: seq<Row>, column: Column)
    requires SortedDesc(rows, column)
    ensures OrderByDesc(rows, column) == rows
  {
    if rows != [] {
      assert SortedDesc(rows[1..], column);
      OrderByDescOfSorted(rows[1..], column);
      if |rows| > 1 {
        assert ValueLe(SortKey(rows[1], column), SortKey(rows[0], column));
        assert rows[1..][0] == rows[1];
      }
      assert rows == [rows[0]] + rows[1..];
    }
  }
}
