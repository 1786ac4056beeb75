/**
 * An in-memory model of the few SQLite features the finance tracker relies on:
 * dynamically typed cells, tables whose columns are discovered at run time,
 * automatic row ids, NOT NULL / UNIQUE / PRIMARY KEY checks on INSERT,
 * INSERT OR REPLACE, and `=` comparison in WHERE clauses.
 */
module Sql {

  datatype Option<+T> = None | Some(value: T)

  /** A stored cell, one of SQLite's storage classes; Python's None is Null. */
  datatype Value = Null | Int(i: int) | Real(x: real) | Text(s: string)

  /**
   * Column names. Every name the application's SQL mentions is a constructor
   * of its own; a legacy table may carry any other name, kept as `Other`.
   * `Val` is the config table's `value` column.
   */
  datatype Column =
    | Id | Username | PasswordHash | Email | CreatedAt | Password
    | UserId | UserType | SavingsGoal | RiskTolerance
    | TDate | TType | Category | Amount | Note
    | Symbol | Shares | AvgPrice | AddedAt
    | GoalName | TargetAmount | CurrentAmount | Deadline
    | Key | Val
    | Other(name: string)

  /** A row as the application sees it: column name to value. */
  type Row = map<Column, Value>

  /** A table: its column names, its rows in storage order, and the next automatic row id. */
  datatype Table = Table(columns: set<Column>, rows: seq<Row>, nextId: int)

  /**
   * The constraints a CREATE TABLE statement declares: the INTEGER PRIMARY KEY
   * column that aliases the row id (if any), the NOT NULL columns, and the
   * columns that must be unique (the primary key included).
   */
  datatype Constraints = Constraints(rowid: Option<Column>, notNull: set<Column>, unique: set<Column>)

  /**
   * The exceptions the data layer can raise: sqlite3.IntegrityError (constraint
   * failure or datatype mismatch), sqlite3.OperationalError (a column the
   * table lacks, or a SELECT with an empty column list), and Python's
   * AttributeError.
   */
  datatype DbError = IntegrityError | OperationalError | AttributeError

  datatype Result<+T> = Ok(value: T) | Err(error: DbError) {
    predicate IsFailure() {
      Err?
    }

    function PropagateFailure<U>(): Result<U>
      requires Err?
    {
      Err(error)
    }

    function Extract(): T
      requires Ok?
    {
      value
    }
  }

  /** A fresh table as CREATE TABLE makes it. */
  function EmptyTable(columns: set<Column>): Table {
    Table(columns, [], 1)
  }

  /** Python truthiness of a value read back from SQLite. */
  predicate Truthy(v: Value) {
    match v
    case Null => false
    case Int(i) => i != 0
    case Real(x) => x != 0.0
    case Text(s) => s != ""
  }

  /** `row_dict.get(column, default)`: the default only when the column is absent. */
  function Get(r: Row, column: Column, default: Value): Value {
    if column in r then r[column] else default
  }

  /** SQL `a = b`: never true when either side is NULL; integers and reals compare numerically. */
  predicate SqlEq(a: Value, b: Value) {
    match (a, b)
    case (Int(x), Int(y)) => x == y
    case (Int(x), Real(y)) => x as real == y
    case (Real(x), Int(y)) => x == y as real
    case (Real(x), Real(y)) => x == y
    case (Text(x), Text(y)) => x == y
    case _ => false
  }

  lemma SqlEqSymmetric(a: Value, b: Value)
    ensures SqlEq(a, b) == SqlEq(b, a)
  {
  }

  lemma SqlEqTransitive(a: Value, b: Value, c: Value)
    requires SqlEq(a, b) && SqlEq(b, c)
    ensures SqlEq(a, c)
  {
  }

  /** A value SQL-equal to one of two unequal values is not SQL-equal to the other. */
  lemma SqlEqApart(a: Value, b: Value, v: Value)
    requires !SqlEq(a, b) && SqlEq(b, v)
    ensures !SqlEq(a, v)
  {
  }

  function Max(a: int, b: int): int {
    if a < b then b else a
  }

  /**
   * The storage engine's guarantees about a table: every row has exactly the
   * table's columns, and row ids are distinct integers below the next automatic id.
   */
  ghost predicate WellFormed(t: Table, c: Constraints) {
    && 1 <= t.nextId
    && (forall i :: 0 <= i < |t.rows| ==> t.rows[i].Keys == t.columns)
    && (c.rowid.Some? ==> RowidsBelow(t.rows, c.rowid.value, t.nextId) && RowidsDistinct(t.rows, c.rowid.value))
  }

  ghost predicate RowidsBelow(rows: seq<Row>, k: Column, next: int) {
    forall i :: 0 <= i < |rows| && k in rows[i] ==> rows[i][k].Int? && rows[i][k].i < next
  }

  ghost predicate RowidsDistinct(rows: seq<Row>, k: Column) {
    forall i, j :: 0 <= i < j < |rows| && k in rows[i] && k in rows[j] ==> rows[i][k] != rows[j][k]
  }

  /** The row INSERT stores for the listed values: NULL in every column not listed. */
  function Complete(columns: set<Column>, vals: Row): Row
    requires vals.Keys <= columns
  {
    map c | c in columns :: Get(vals, c, Null)
  }

  /** A NULL row id is replaced by the next automatic id. */
  function AssignRowid(t: Table, c: Constraints, row: Row): Row {
    if c.rowid.Some? && c.rowid.value in row && row[c.rowid.value] == Null
    then row[c.rowid.value := Int(t.nextId)]
    else row
  }

  /** The next automatic id once `row` is stored: past every row id used so far. */
  function NextIdAfter(t: Table, c: Constraints, row: Row): int {
    if c.rowid.Some? && c.rowid.value in row && row[c.rowid.value].Int?
    then Max(t.nextId, row[c.rowid.value].i + 1)
    else t.nextId
  }

  /** Does `row` share a value of some unique column with one of `rows`? */
  predicate Clashes(rows: seq<Row>, c: Constraints, row: Row) {
    exists col, i :: col in c.unique && 0 <= i < |rows| && col in row && col in rows[i] && SqlEq(rows[i][col], row[col])
  }

  predicate ClashesWith(other: Row, c: Constraints, row: Row) {
    exists col :: col in c.unique && col in row && col in other && SqlEq(other[col], row[col])
  }

  lemma ClashWitness(rows: seq<Row>, c: Constraints, row: Row) returns (i: int, col: Column)
    requires Clashes(rows, c, row)
    ensures 0 <= i < |rows| && col in c.unique && col in row && col in rows[i] && SqlEq(rows[i][col], row[col])
  {
    col, i :| col in c.unique && 0 <= i < |rows| && col in row && col in rows[i] && SqlEq(rows[i][col], row[col]);
  }

  lemma ClashesWithClashes(rows: seq<Row>, c: Constraints, row: Row, i: int)
    requires 0 <= i < |rows| && ClashesWith(rows[i], c, row)
    ensures Clashes(rows, c, row)
  {
  }

  /** The checks an INSERT makes before storing `row`; each failure is an IntegrityError. */
  predicate Violates(t: Table, c: Constraints, row: Row) {
    || (c.rowid.Some? && c.rowid.value in row && !row[c.rowid.value].Int?)
    || (exists col :: col in c.notNull && col in row && row[col] == Null)
    || Clashes(t.rows, c, row)
  }

  /**
   * `INSERT INTO t (cols) VALUES (...)`: fails when a listed column is missing
   * or a constraint is violated; otherwise appends exactly one row.
   */
  function Insert(t: Table, c: Constraints, vals: Row): (r: Result<Table>)
    ensures r == Err(OperationalError) <==> !(vals.Keys <= t.columns)
    ensures r.Ok? ==> && r.value.columns == t.columns
                      && |r.value.rows| == |t.rows| + 1
                      && r.value.rows[..|t.rows|] == t.rows
                      && r.value.rows[|t.rows|].Keys == t.columns
                      && !Clashes(t.rows, c, r.value.rows[|t.rows|])
                      && t.nextId <= r.value.nextId
    ensures r.Ok? ==> forall col :: col in vals && vals[col] != Null ==> r.value.rows[|t.rows|][col] == vals[col]
    ensures r.Ok? ==> forall col :: col in t.columns && Get(vals, col, Null) == Null && Some(col) != c.rowid ==> r.value.rows[|t.rows|][col] == Null
  {
    if !(vals.Keys <= t.columns) then Err(OperationalError)
    else
      var row := AssignRowid(t, c, Complete(t.columns, vals));
      if Violates(t, c, row) then Err(IntegrityError)
      else Ok(Table(t.columns, t.rows + [row], NextIdAfter(t, c, row)))
  }

  /** The row Insert stores, when it stores one. */
  function StoredRow(t: Table, c: Constraints, vals: Row): Row
    requires vals.Keys <= t.columns
  {
    AssignRowid(t, c, Complete(t.columns, vals))
  }

  lemma InsertStores(t: Table, c: Constraints, vals: Row)
    requires Insert(t, c, vals).Ok?
    ensures Insert(t, c, vals).value == Table(t.columns, t.rows + [StoredRow(t, c, vals)], NextIdAfter(t, c, StoredRow(t, c, vals)))
  {
  }

  /**
   * An INSERT into a table whose only unique column is its row id succeeds when
   * the values fit the table, fill every NOT NULL column, and bring a row id
   * that is automatic or a fresh integer.
   */
  lemma InsertSucceeds(t: Table, c: Constraints, vals: Row)
    requires vals.Keys <= t.columns
    requires c.rowid.Some? && c.rowid.value in t.columns && c.unique == {c.rowid.value} && c.rowid.value !in c.notNull
    requires forall col :: col in c.notNull && col in t.columns ==> Get(vals, col, Null) != Null
    requires Get(vals, c.rowid.value, Null) == Null || Get(vals, c.rowid.value, Null).Int?
    requires forall i :: 0 <= i < |t.rows| && c.rowid.value in t.rows[i] ==>
               && t.rows[i][c.rowid.value].Int?
               && t.rows[i][c.rowid.value] != (if Get(vals, c.rowid.value, Null) == Null then Int(t.nextId) else Get(vals, c.rowid.value, Null))
    ensures Insert(t, c, vals).Ok?
  {
    var row := StoredRow(t, c, vals);
    var k := c.rowid.value;
    assert row[k] == if Get(vals, k, Null) == Null then Int(t.nextId) else Get(vals, k, Null);
    forall i, col | 0 <= i < |t.rows| && col in c.unique && col in row && col in t.rows[i]
      ensures !SqlEq(t.rows[i][col], row[col])
    {
    }
  }

  /** Insert keeps the storage engine's guarantees. */
  lemma InsertWellFormed(t: Table, c: Constraints, vals: Row)
    requires WellFormed(t, c)
    requires c.rowid.Some? ==> c.rowid.value in c.unique
    requires Insert(t, c, vals).Ok?
    ensures WellFormed(Insert(t, c, vals).value, c)
  {
    var t' := Insert(t, c, vals).value;
    var row := StoredRow(t, c, vals);
    assert t'.rows == t.rows + [row];
    if c.rowid.Some? {
      var k := c.rowid.value;
      if k in row {
        assert row[k].Int?;
        forall i | 0 <= i < |t.rows| && k in t.rows[i]
          ensures t.rows[i][k] != row[k]
        {
          assert !SqlEq(t.rows[i][k], row[k]);
        }
      }
    }
  }

  /** The rows a condition keeps, in storage order: what a DELETE leaves and what a REPLACE keeps. */
  function Filter(rows: seq<Row>, keep: Row -> bool): (r: seq<Row>)
    ensures |r| <= |rows|
    ensures forall x :: x in r ==> x in rows && keep(x)
    ensures forall x :: x in rows && keep(x) ==> x in r
  {
    if rows == [] then []
    else
      var rest := Filter(rows[1..], keep);
      if keep(rows[0]) then [rows[0]] + rest else rest
  }

  /** Filter keeps every kept row as often as it occurs. */
  lemma {:induction false} FilterCounts(rows: seq<Row>, keep: Row -> bool)
    ensures forall x :: multiset(Filter(rows, keep))[x] == if keep(x) then multiset(rows)[x] else 0
  {
    if rows != [] {
      assert rows == [rows[0]] + rows[1..];
      FilterCounts(rows[1..], keep);
    }
  }

  /** A relation that holds between every row and each later one. */
  ghost predicate Pairwise(rows: seq<Row>, rel: (Row, Row) -> bool) {
    forall i, j :: 0 <= i < j < |rows| ==> rel(rows[i], rows[j])
  }

  lemma {:induction false} FilterPairwise(rows: seq<Row>, keep: Row -> bool, rel: (Row, Row) -> bool)
    requires Pairwise(rows, rel)
    ensures Pairwise(Filter(rows, keep), rel)
  {
    if rows != [] {
      var rest := Filter(rows[1..], keep);
      assert Pairwise(rows[1..], rel);
      FilterPairwise(rows[1..], keep, rel);
      if keep(rows[0]) {
        var r := [rows[0]] + rest;
        forall i, j | 0 <= i < j < |r| ensures rel(r[i], r[j]) {
          if i == 0 {
            assert r[j] == rest[j - 1];
            assert r[j] in rows[1..];
            var k :| 0 <= k < |rows[1..]| && rows[1..][k] == r[j];
            assert rows[k + 1] == r[j];
          } else {
            assert r[i] == rest[i - 1] && r[j] == rest[j - 1];
          }
        }
      }
    }
  }

  /** Deleting rows keeps the storage engine's guarantees. */
  lemma FilterWellFormed(t: Table, c: Constraints, keep: Row -> bool)
    requires WellFormed(t, c)
    ensures WellFormed(Table(t.columns, Filter(t.rows, keep), t.nextId), c)
  {
    var rows := Filter(t.rows, keep);
    forall i | 0 <= i < |rows| ensures rows[i].Keys == t.columns {
      assert rows[i] in t.rows;
    }
    if c.rowid.Some? {
      var k := c.rowid.value;
      forall i | 0 <= i < |rows| && k in rows[i] ensures rows[i][k].Int? && rows[i][k].i < t.nextId {
        assert rows[i] in t.rows;
      }
      var rel := (a: Row, b: Row) => k in a && k in b ==> a[k] != b[k];
      assert Pairwise(t.rows, rel);
      FilterPairwise(t.rows, keep, rel);
    }
  }

  /** No two rows share a value in a UNIQUE column (NULLs never clash). */
  ghost predicate UniqueValues(rows: seq<Row>, c: Constraints) {
    forall i, j :: 0 <= i < j < |rows| ==> !ClashesWith(rows[i], c, rows[j])
  }

  lemma InsertUnique(t: Table, c: Constraints, vals: Row)
    requires UniqueValues(t.rows, c) && Insert(t, c, vals).Ok?
    ensures UniqueValues(Insert(t, c, vals).value.rows, c)
  {
    var rows := Insert(t, c, vals).value.rows;
    forall i, j | 0 <= i < j < |rows| ensures !ClashesWith(rows[i], c, rows[j]) {
      if j == |t.rows| && ClashesWith(rows[i], c, rows[j]) {
        ClashesWithClashes(t.rows, c, rows[j], i);
      }
    }
  }

  lemma FilterUnique(rows: seq<Row>, c: Constraints, keep: Row -> bool)
    requires UniqueValues(rows, c)
    ensures UniqueValues(Filter(rows, keep), c)
  {
    var rel := (a: Row, b: Row) => !ClashesWith(a, c, b);
    assert Pairwise(rows, rel);
    FilterPairwise(rows, keep, rel);
  }

  /** An INSERT that leaves the row id to the table takes the next automatic id. */
  lemma InsertAutoId(t: Table, c: Constraints, vals: Row)
    requires Insert(t, c, vals).Ok?
    requires c.rowid.Some? && c.rowid.value in t.columns && Get(vals, c.rowid.value, Null) == Null
    ensures Insert(t, c, vals).value.rows == t.rows + [Complete(t.columns, vals)[c.rowid.value := Int(t.nextId)]]
    ensures Insert(t, c, vals).value.nextId == t.nextId + 1
  {
  }

  /**
   * `INSERT OR REPLACE INTO t (cols) VALUES (...)`: rows sharing a unique value
   * with the new row are deleted, then the row is inserted.
   */
  function Replace(t: Table, c: Constraints, vals: Row): (r: Result<Table>)
    ensures r == Err(OperationalError) <==> !(vals.Keys <= t.columns)
  {
    if !(vals.Keys <= t.columns) then Err(OperationalError)
    else
      var row := Complete(t.columns, vals);
      Insert(Table(t.columns, Filter(t.rows, x => !ClashesWith(x, c, row)), t.nextId), c, vals)
  }

  /** REPLACE keeps the storage engine's guarantees. */
  lemma ReplaceWellFormed(t: Table, c: Constraints, vals: Row)
    requires WellFormed(t, c)
    requires c.rowid.Some? ==> c.rowid.value in c.unique
    requires Replace(t, c, vals).Ok?
    ensures WellFormed(Replace(t, c, vals).value, c)
    ensures Replace(t, c, vals).value.columns == t.columns
  {
    var keep := x => !ClashesWith(x, c, Complete(t.columns, vals));
    FilterWellFormed(t, c, keep);
    InsertWellFormed(Table(t.columns, Filter(t.rows, keep), t.nextId), c, vals);
  }

  /** `SELECT * FROM rows WHERE column = v`, in storage order. */
  function Where(rows: seq<Row>, column: Column, v: Value): (r: seq<Row>)
    ensures |r| <= |rows|
    ensures forall x :: x in r ==> x in rows && column in x && SqlEq(x[column], v)
    ensures forall x :: x in rows && column in x && SqlEq(x[column], v) ==> x in r
  {
    if rows == [] then []
    else
      var rest := Where(rows[1..], column, v);
      if column in rows[0] && SqlEq(rows[0][column], v) then [rows[0]] + rest else rest
  }

  /** Where keeps every matching row as often as it occurs, and nothing else. */
  lemma {:induction false} WhereCounts(rows: seq<Row>, column: Column, v: Value)
    ensures forall x :: multiset(Where(rows, column, v))[x] == if column in x && SqlEq(x[column], v) then multiset(rows)[x] else 0
  {
    if rows != [] {
      assert rows == [rows[0]] + rows[1..];
      WhereCounts(rows[1..], column, v);
    }
  }

  lemma WhereAppend(rows: seq<Row>, row: Row, column: Column, v: Value)
    ensures Where(rows + [row], column, v) == Where(rows, column, v) + (if column in row && SqlEq(row[column], v) then [row] else [])
  {
    var a := rows + [row];
    if rows != [] {
      assert a[0] == rows[0] && a[1..] == rows[1..] + [row];
      WhereAppend(rows[1..], row, column, v);
    } else {
      assert a == [row] && a[1..] == [];
    }
  }

  /** A WHERE query no row matches returns nothing. */
  lemma {:induction false} WhereNone(rows: seq<Row>, column: Column, v: Value)
    requires forall x :: x in rows ==> !(column in x && SqlEq(x[column], v))
    ensures Where(rows, column, v) == []
  {
    if rows != [] {
      assert forall x :: x in rows[1..] ==> x in rows;
      WhereNone(rows[1..], column, v);
    }
  }

  /** Deleting only rows that do not match leaves a WHERE query's answer unchanged. */
  lemma {:induction false} WhereFilter(rows: seq<Row>, keep: Row -> bool, column: Column, v: Value)
    requires forall x :: x in rows && column in x && SqlEq(x[column], v) ==> keep(x)
    ensures Where(Filter(rows, keep), column, v) == Where(rows, column, v)
  {
    if rows != [] {
      assert forall x :: x in rows[1..] ==> x in rows;
      WhereFilter(rows[1..], keep, column, v);
    }
  }

  /** Deleting every matching row leaves a WHERE query nothing to return. */
  lemma {:induction false} WhereFilterNone(rows: seq<Row>, keep: Row -> bool, column: Column, v: Value)
    requires forall x :: x in rows && keep(x) ==> !(column in x && SqlEq(x[column], v))
    ensures Where(Filter(rows, keep), column, v) == []
  {
    if rows != [] {
      assert forall x :: x in rows[1..] ==> x in rows;
      WhereFilterNone(rows[1..], keep, column, v);
    }
  }

  /** `fetchone()` after a WHERE query: the first matching row in storage order. */
  lemma {:induction false} WhereHead(rows: seq<Row>, column: Column, v: Value, i: int)
    requires 0 <= i < |rows| && column in rows[i] && SqlEq(rows[i][column], v)
    requires forall j :: 0 <= j < i ==> !(column in rows[j] && SqlEq(rows[j][column], v))
    ensures Where(rows, column, v) != [] && Where(rows, column, v)[0] == rows[i]
  {
    if i > 0 {
      WhereHead(rows[1..], column, v, i - 1);
    }
  }
}
