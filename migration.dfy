/**
 * init_db: the schema-migration engine. Each table, in the order users,
 * user_profile, transactions, holdings, savings_goals, config, is created when
 * absent, left alone when it already has its key columns, or rebuilt through a
 * shadow table: legacy rows are read, transformed and inserted one by one, then
 * the legacy table is dropped and the shadow renamed into its place.
 */
module Migration {
  import opened Sql
  import opened Catalog

  // ---------------------------------------------------------------------------
  // Filling a shadow table
  // ---------------------------------------------------------------------------

  /**
   * A freshly created shadow table with the transformed legacy rows inserted in
   * order; the first failing row (a transform that raised, or an INSERT that
   * violated a constraint) aborts the whole migration.
   */
  function CopyRows(columns: set<Column>, c: Constraints, rows: seq<Result<Row>>): (r: Result<Table>)
    ensures r.Ok? ==> && r.value.columns == columns
                      && |r.value.rows| == |rows|
                      && 1 <= r.value.nextId
                      && forall i :: 0 <= i < |r.value.rows| ==> r.value.rows[i].Keys == columns
    decreases |rows|
  {
    if rows == [] then Ok(EmptyTable(columns))
    else
      var acc :- CopyRows(columns, c, rows[..|rows| - 1]);
      var row :- rows[|rows| - 1];
      Insert(acc, c, row)
  }

  lemma CopyRowsAppend(columns: set<Column>, c: Constraints, rows: seq<Result<Row>>, x: Result<Row>)
    ensures CopyRows(columns, c, rows + [x]) ==
              match CopyRows(columns, c, rows)
              case Err(e) => Err(e)
              case Ok(acc) => (match x case Err(e) => Err(e) case Ok(row) => Insert(acc, c, row))
  {
    assert (rows + [x])[..|rows|] == rows;
  }

  /** Once a prefix has failed, the whole copy fails with the same error. */
  lemma {:induction false} CopyRowsErrSticky(columns: set<Column>, c: Constraints, rows: seq<Result<Row>>, n: nat)
    requires n <= |rows| && CopyRows(columns, c, rows[..n]).Err?
    ensures CopyRows(columns, c, rows) == CopyRows(columns, c, rows[..n])
    decreases |rows|
  {
    if n < |rows| {
      var pre := rows[..|rows| - 1];
      assert pre[..n] == rows[..n];
      CopyRowsErrSticky(columns, c, pre, n);
    } else {
      assert rows[..n] == rows;
    }
  }

  /** A successful copy went through successful copies of every prefix, each a prefix of the result. */
  lemma {:induction false} CopyRowsPrefix(columns: set<Column>, c: Constraints, rows: seq<Result<Row>>, m: nat)
    requires CopyRows(columns, c, rows).Ok? && m <= |rows|
    ensures CopyRows(columns, c, rows[..m]).Ok?
    ensures CopyRows(columns, c, rows[..m]).value.rows == CopyRows(columns, c, rows).value.rows[..m]
    decreases |rows|
  {
    var n := |rows| - 1;
    if m == |rows| {
      assert rows[..m] == rows;
    } else {
      var acc := CopyRows(columns, c, rows[..n]).value;
      InsertStores(acc, c, rows[n].value);
      assert rows[..n][..m] == rows[..m];
      CopyRowsPrefix(columns, c, rows[..n], m);
    }
  }

  /** The shadow row carries every value it was given, except a NULL row id, which gets numbered. */
  ghost predicate Carries(stored: Row, vals: Row, columns: set<Column>, rowid: Option<Column>) {
    && stored.Keys == columns
    && (forall col :: col in columns && Some(col) != rowid ==> stored[col] == Get(vals, col, Null))
    && (rowid.Some? && rowid.value in columns && Get(vals, rowid.value, Null) != Null ==>
          stored[rowid.value] == Get(vals, rowid.value, Null))
  }

  /** A carried row whose row id was given (or which has none) is exactly the given row. */
  lemma CarriedExactly(stored: Row, vals: Row, columns: set<Column>, rowid: Option<Column>)
    requires Carries(stored, vals, columns, rowid) && vals.Keys == columns
    requires rowid.Some? && rowid.value in columns ==> vals[rowid.value] != Null
    ensures stored == vals
  {
  }

  /** A carried row that was numbered is the given row with its number. */
  lemma CarriedNumbered(stored: Row, vals: Row, columns: set<Column>, k: Column, id: Value)
    requires Carries(stored, vals, columns, Some(k)) && vals.Keys + {k} == columns && stored[k] == id
    ensures stored == vals[k := id]
  {
  }

  /** The i-th shadow row is what inserting the i-th transformed row stored. */
  lemma CopyRowsCarries(columns: set<Column>, c: Constraints, rows: seq<Result<Row>>, i: nat)
    requires CopyRows(columns, c, rows).Ok? && i < |rows|
    ensures rows[i].Ok? && Carries(CopyRows(columns, c, rows).value.rows[i], rows[i].value, columns, c.rowid)
  {
    CopyRowsPrefix(columns, c, rows, i + 1);
    CopyRowsPrefix(columns, c, rows, i);
    assert rows[..i + 1][..i] == rows[..i];
    var acc := CopyRows(columns, c, rows[..i]).value;
    assert rows[..i + 1][i] == rows[i];
    assert CopyRows(columns, c, rows[..i + 1]) == Insert(acc, c, rows[i].value);
  }

  /** A row given with every column, and with its row id when the table has one, is stored exactly as given. */
  lemma CopyRowsExact(columns: set<Column>, c: Constraints, rows: seq<Result<Row>>, i: nat, vals: Row)
    requires CopyRows(columns, c, rows).Ok? && i < |rows| && rows[i] == Ok(vals)
    requires vals.Keys == columns && (c.rowid.Some? && c.rowid.value in columns ==> vals[c.rowid.value] != Null)
    ensures CopyRows(columns, c, rows).value.rows[i] == vals
  {
    CopyRowsCarries(columns, c, rows, i);
    CarriedExactly(CopyRows(columns, c, rows).value.rows[i], vals, columns, c.rowid);
  }

  /** A successful copy stored no NULL in a NOT NULL column. */
  lemma CopyRowsNotNull(columns: set<Column>, c: Constraints, rows: seq<Result<Row>>, i: nat, col: Column)
    requires CopyRows(columns, c, rows).Ok? && i < |rows| && col in c.notNull && col in columns
    ensures CopyRows(columns, c, rows).value.rows[i][col] != Null
  {
    CopyRowsPrefix(columns, c, rows, i + 1);
    CopyRowsPrefix(columns, c, rows, i);
    assert rows[..i + 1][..i] == rows[..i];
    var acc := CopyRows(columns, c, rows[..i]).value;
    assert rows[..i + 1][i] == rows[i];
    assert CopyRows(columns, c, rows[..i + 1]) == Insert(acc, c, rows[i].value);
    InsertStores(acc, c, rows[i].value);
    assert !Violates(acc, c, StoredRow(acc, c, rows[i].value));
  }

  /** No row is given a row id: each is numbered automatically. */
  ghost predicate NumberedRows(rows: seq<Result<Row>>, k: Column) {
    forall i :: 0 <= i < |rows| ==> rows[i].Ok? && Get(rows[i].value, k, Null) == Null
  }

  /** Every row is given a row id of its own. */
  ghost predicate ExplicitRows(rows: seq<Result<Row>>, k: Column) {
    && (forall i :: 0 <= i < |rows| ==> rows[i].Ok? && Get(rows[i].value, k, Null).Int?)
    && (forall i, j :: 0 <= i < j < |rows| ==> Get(rows[i].value, k, Null) != Get(rows[j].value, k, Null))
  }

  /** Rows given without a row id are numbered consecutively from 1. */
  lemma {:induction false} CopyRowsNumbers(columns: set<Column>, c: Constraints, rows: seq<Result<Row>>)
    requires CopyRows(columns, c, rows).Ok? && c.rowid.Some? && c.rowid.value in columns
    requires NumberedRows(rows, c.rowid.value)
    ensures CopyRows(columns, c, rows).value.nextId == |rows| + 1
    ensures forall i :: 0 <= i < |rows| ==> CopyRows(columns, c, rows).value.rows[i][c.rowid.value] == Int(i + 1)
    decreases |rows|
  {
    if rows != [] {
      var n := |rows| - 1;
      var k := c.rowid.value;
      var acc := CopyRows(columns, c, rows[..n]).value;
      CopyRowsNumbers(columns, c, rows[..n]);
      InsertStores(acc, c, rows[n].value);
      assert StoredRow(acc, c, rows[n].value)[k] == Int(acc.nextId);
    }
  }

  /** Shadow copies keep the storage engine's guarantees. */
  lemma {:induction false} CopyRowsWellFormed(columns: set<Column>, c: Constraints, rows: seq<Result<Row>>)
    requires c.rowid.Some? ==> c.rowid.value in c.unique
    requires CopyRows(columns, c, rows).Ok?
    ensures WellFormed(CopyRows(columns, c, rows).value, c)
    decreases |rows|
  {
    if rows != [] {
      var n := |rows| - 1;
      CopyRowsWellFormed(columns, c, rows[..n]);
      InsertWellFormed(CopyRows(columns, c, rows[..n]).value, c, rows[n].value);
    }
  }

  /** Shadow copies hold no two rows with equal values in a UNIQUE column. */
  lemma {:induction false} CopyRowsUnique(columns: set<Column>, c: Constraints, rows: seq<Result<Row>>)
    requires CopyRows(columns, c, rows).Ok?
    ensures UniqueValues(CopyRows(columns, c, rows).value.rows, c)
    decreases |rows|
  {
    if rows != [] {
      var n := |rows| - 1;
      CopyRowsUnique(columns, c, rows[..n]);
      InsertUnique(CopyRows(columns, c, rows[..n]).value, c, rows[n].value);
    }
  }

  /**
   * A copy whose only unique column is the row id succeeds when every row fits
   * the table, no NOT NULL column receives NULL, and the row ids are all
   * automatic or all distinct integers.
   */
  lemma {:induction false} CopyRowsSucceeds(columns: set<Column>, c: Constraints, rows: seq<Result<Row>>)
    requires c.rowid.Some? && c.rowid.value in columns && c.unique == {c.rowid.value} && c.rowid.value !in c.notNull
    requires forall i :: 0 <= i < |rows| ==> rows[i].Ok? && rows[i].value.Keys <= columns
    requires forall i, col :: 0 <= i < |rows| && col in c.notNull && col in columns ==> Get(rows[i].value, col, Null) != Null
    requires NumberedRows(rows, c.rowid.value) || ExplicitRows(rows, c.rowid.value)
    ensures CopyRows(columns, c, rows).Ok?
    decreases |rows|
  {
    if rows != [] {
      var pre := rows[..|rows| - 1];
      CopyRowsSucceeds(columns, c, pre);
      CopyRowsLastFits(columns, c, rows);
    }
  }

  /** Once the earlier rows are copied, the last row's INSERT meets no constraint it could violate. */
  lemma CopyRowsLastFits(columns: set<Column>, c: Constraints, rows: seq<Result<Row>>)
    requires c.rowid.Some? && c.rowid.value in columns && c.unique == {c.rowid.value} && c.rowid.value !in c.notNull
    requires forall i :: 0 <= i < |rows| ==> rows[i].Ok? && rows[i].value.Keys <= columns
    requires forall i, col :: 0 <= i < |rows| && col in c.notNull && col in columns ==> Get(rows[i].value, col, Null) != Null
    requires NumberedRows(rows, c.rowid.value) || ExplicitRows(rows, c.rowid.value)
    requires rows != [] && CopyRows(columns, c, rows[..|rows| - 1]).Ok?
    ensures Insert(CopyRows(columns, c, rows[..|rows| - 1]).value, c, rows[|rows| - 1].value).Ok?
  {
    var n := |rows| - 1;
    var pre := rows[..n];
    var acc := CopyRows(columns, c, pre).value;
    if NumberedRows(rows, c.rowid.value) {
      CopyRowsNumbers(columns, c, pre);
    } else {
      CopyRowsKeepsIds(columns, c, pre);
    }
    InsertSucceeds(acc, c, rows[n].value);
  }

  /** Rows given a row id are stored under that id. */
  lemma CopyRowsKeepsIds(columns: set<Column>, c: Constraints, rows: seq<Result<Row>>)
    requires CopyRows(columns, c, rows).Ok? && c.rowid.Some? && c.rowid.value in columns
    requires forall i :: 0 <= i < |rows| ==> rows[i].Ok? && Get(rows[i].value, c.rowid.value, Null) != Null
    ensures forall i :: 0 <= i < |rows| ==>
      CopyRows(columns, c, rows).value.rows[i][c.rowid.value] == Get(rows[i].value, c.rowid.value, Null)
  {
    forall i | 0 <= i < |rows|
      ensures CopyRows(columns, c, rows).value.rows[i][c.rowid.value] == Get(rows[i].value, c.rowid.value, Null)
    {
      CopyRowsCarries(columns, c, rows, i);
    }
  }

  // ---------------------------------------------------------------------------
  // users: rebuilt when `id` or `password_hash` is missing
  // ---------------------------------------------------------------------------

  /**
   * The credential of a legacy row: the digest of its plaintext `password` when
   * that column exists and holds a truthy value, NULL otherwise. `.encode()` on a
   * truthy value that is not a string raises AttributeError.
   */
  function LegacyCredential(legacy: Row, hash: string -> string): Result<Value> {
    if Password in legacy && Truthy(legacy[Password]) then
      if legacy[Password].Text? then Ok(Text(hash(legacy[Password].s))) else Err(AttributeError)
    else Ok(Null)
  }

  /** The values inserted into users_new for one legacy row (its id is left to AUTOINCREMENT). */
  function UserFromLegacy(legacy: Row, hash: string -> string, now: string): Result<Row> {
    var credential :- LegacyCredential(legacy, hash);
    Ok(map[Username := Get(legacy, Username, Null),
           PasswordHash := credential,
           Email := Get(legacy, Email, Null),
           CreatedAt := Get(legacy, CreatedAt, Text(now))])
  }

  function UserRows(rows: seq<Row>, hash: string -> string, now: string): (r: seq<Result<Row>>)
    ensures |r| == |rows|
  {
    seq(|rows|, i requires 0 <= i < |rows| => UserFromLegacy(rows[i], hash, now))
  }

  function UserCopy(rows: seq<Row>, hash: string -> string, now: string): Result<Table> {
    CopyRows(UserColumns, UserConstraints, UserRows(rows, hash, now))
  }

  /** The legacy users table has a column the migration reads; otherwise its SELECT has an empty column list. */
  predicate UsersReadable(columns: set<Column>) {
    Username in columns || Email in columns || CreatedAt in columns || Password in columns
  }

  /** The users table the migration builds from a legacy one, or the error that aborts it. */
  function UsersMigrated(legacy: Table, hash: string -> string, now: string): Result<Table> {
    if UsersReadable(legacy.columns) then UserCopy(legacy.rows, hash, now) else Err(OperationalError)
  }

  /** The digest a migrated user ends up with. */
  function MigratedCredential(legacy: Row, hash: string -> string): Value {
    if Password in legacy && legacy[Password].Text? && legacy[Password].s != "" then Text(hash(legacy[Password].s)) else Null
  }

  /** The row a legacy user becomes once numbered `id`. */
  function MigratedUser(legacy: Row, id: int, hash: string -> string, now: string): Row {
    map[Id := Int(id),
        Username := Get(legacy, Username, Null),
        PasswordHash := MigratedCredential(legacy, hash),
        Email := Get(legacy, Email, Null),
        CreatedAt := Get(legacy, CreatedAt, Text(now))]
  }

  lemma UserFromLegacyNumbered(legacy: Row, id: int, hash: string -> string, now: string)
    requires UserFromLegacy(legacy, hash, now).Ok?
    ensures UserFromLegacy(legacy, hash, now).value.Keys + {Id} == UserColumns
    ensures Get(UserFromLegacy(legacy, hash, now).value, Id, Null) == Null
    ensures UserFromLegacy(legacy, hash, now).value[Id := Int(id)] == MigratedUser(legacy, id, hash, now)
  {
  }

  /**
   * Users migration: each legacy row becomes exactly one row, in order, numbered
   * 1, 2, ...; username and email are copied; the password is hashed when it is
   * a non-empty string and NULL otherwise; created_at is "now" only when the
   * legacy table has no such column.
   */
  lemma UserCopyRows(rows: seq<Row>, hash: string -> string, now: string)
    requires UserCopy(rows, hash, now).Ok?
    ensures var t := UserCopy(rows, hash, now).value;
      && t.columns == UserColumns && |t.rows| == |rows| && t.nextId == |rows| + 1
      && forall i :: 0 <= i < |rows| ==> t.rows[i] == MigratedUser(rows[i], i + 1, hash, now)
  {
    var conv := UserRows(rows, hash, now);
    UserRowsNumbered(rows, hash, now);
    CopyRowsNumbers(UserColumns, UserConstraints, conv);
    forall i | 0 <= i < |rows| ensures UserCopy(rows, hash, now).value.rows[i] == MigratedUser(rows[i], i + 1, hash, now) {
      UserCopyRow(rows, hash, now, i);
    }
  }

  /** No transformed legacy user brings an id of its own. */
  lemma UserRowsNumbered(rows: seq<Row>, hash: string -> string, now: string)
    requires UserCopy(rows, hash, now).Ok?
    ensures NumberedRows(UserRows(rows, hash, now), Id)
  {
    var conv := UserRows(rows, hash, now);
    forall i | 0 <= i < |rows| ensures conv[i].Ok? && Get(conv[i].value, Id, Null) == Null {
      CopyRowsCarries(UserColumns, UserConstraints, conv, i);
      UserFromLegacyNumbered(rows[i], i + 1, hash, now);
    }
  }

  /** The i-th migrated user, once numbered i + 1, is the i-th legacy user transformed. */
  lemma UserCopyRow(rows: seq<Row>, hash: string -> string, now: string, i: nat)
    requires UserCopy(rows, hash, now).Ok? && i < |rows|
    requires UserCopy(rows, hash, now).value.rows[i][Id] == Int(i + 1)
    ensures UserCopy(rows, hash, now).value.rows[i] == MigratedUser(rows[i], i + 1, hash, now)
  {
    var conv := UserRows(rows, hash, now);
    CopyRowsCarries(UserColumns, UserConstraints, conv, i);
    UserFromLegacyNumbered(rows[i], i + 1, hash, now);
    CarriedNumbered(UserCopy(rows, hash, now).value.rows[i], conv[i].value, UserColumns, Id, Int(i + 1));
  }

  ghost predicate CredentialFails(legacy: Row) {
    Password in legacy && Truthy(legacy[Password]) && !legacy[Password].Text?
  }

  /** Two legacy rows that users_new's UNIQUE columns cannot both hold. */
  predicate SameIdentity(a: Row, b: Row) {
    || SqlEq(Get(a, Username, Null), Get(b, Username, Null))
    || SqlEq(Get(a, Email, Null), Get(b, Email, Null))
  }

  /** Why a users migration aborts: a non-string password, a missing username, or a repeated username or email. */
  ghost predicate UsersRejected(rows: seq<Row>) {
    || (exists i :: 0 <= i < |rows| && CredentialFails(rows[i]))
    || (exists i :: 0 <= i < |rows| && Get(rows[i], Username, Null) == Null)
    || (exists i, j :: 0 <= i < j < |rows| && SameIdentity(rows[i], rows[j]))
  }

  /** The users copy aborts exactly when the legacy rows are rejected. */
  lemma {:induction false} UserCopyFails(rows: seq<Row>, hash: string -> string, now: string)
    ensures UserCopy(rows, hash, now).Err? <==> UsersRejected(rows)
    decreases |rows|
  {
    if rows != [] {
      var n := |rows| - 1;
      var pre := rows[..n];
      UserCopyPrefix(rows, hash, now, n);
      UserCopyFails(pre, hash, now);
      if UserCopy(pre, hash, now).Err? {
        RejectedGrows(rows, n);
      } else {
        UsersStep(rows, hash, now);
      }
    }
  }

  lemma RejectedGrows(rows: seq<Row>, n: nat)
    requires n <= |rows| && UsersRejected(rows[..n])
    ensures UsersRejected(rows)
  {
    var pre := rows[..n];
    if exists i :: 0 <= i < |pre| && CredentialFails(pre[i]) {
      var i :| 0 <= i < |pre| && CredentialFails(pre[i]);
      assert CredentialFails(rows[i]);
    } else if exists i :: 0 <= i < |pre| && Get(pre[i], Username, Null) == Null {
      var i :| 0 <= i < |pre| && Get(pre[i], Username, Null) == Null;
      assert Get(rows[i], Username, Null) == Null;
    } else {
      var i, j :| 0 <= i < j < |pre| && SameIdentity(pre[i], pre[j]);
      assert SameIdentity(rows[i], rows[j]);
    }
  }

  /** What is wrong with the last legacy row, given the rows before it. */
  ghost predicate LastRejected(rows: seq<Row>)
    requires |rows| > 0
  {
    var last := rows[|rows| - 1];
    || CredentialFails(last)
    || Get(last, Username, Null) == Null
    || (exists i :: 0 <= i < |rows| - 1 && SameIdentity(rows[i], last))
  }

  lemma RejectedSplit(rows: seq<Row>)
    requires |rows| > 0 && !UsersRejected(rows[..|rows| - 1])
    ensures UsersRejected(rows) <==> LastRejected(rows)
  {
    var n := |rows| - 1;
    var pre := rows[..n];
    if LastRejected(rows) {
      if CredentialFails(rows[n]) {
      } else if Get(rows[n], Username, Null) == Null {
      } else {
        var i :| 0 <= i < n && SameIdentity(rows[i], rows[n]);
        assert 0 <= i < n < |rows|;
      }
    } else {
      forall i | 0 <= i < |rows| ensures !CredentialFails(rows[i]) && Get(rows[i], Username, Null) != Null {
        if i < n { assert rows[i] == pre[i]; }
      }
      forall i, j | 0 <= i < j < |rows| ensures !SameIdentity(rows[i], rows[j]) {
        if j < n { assert rows[i] == pre[i] && rows[j] == pre[j]; }
      }
    }
  }

  /** Once the rows before it migrated cleanly, the last legacy row decides. */
  lemma UsersStep(rows: seq<Row>, hash: string -> string, now: string)
    requires |rows| > 0
    requires UserCopy(rows[..|rows| - 1], hash, now).Ok?
    requires !UsersRejected(rows[..|rows| - 1])
    ensures UserCopy(rows, hash, now).Err? <==> UsersRejected(rows)
  {
    var n := |rows| - 1;
    var pre := rows[..n];
    UserCopyPrefix(rows, hash, now, n);
    RejectedSplit(rows);
    if !CredentialFails(rows[n]) {
      var acc := UserCopy(pre, hash, now).value;
      UserCopyRows(pre, hash, now);
      UserInsert(acc, pre, rows[n], hash, now);
      forall i | 0 <= i < n ensures pre[i] == rows[i] { }
    }
  }

  /**
   * Inserting one more legacy user after users 1..n: the INSERT fails exactly
   * when the new username is NULL or the username or email is already taken.
   */
  lemma UserInsert(acc: Table, pre: seq<Row>, last: Row, hash: string -> string, now: string)
    requires acc.columns == UserColumns && |acc.rows| == |pre| && acc.nextId == |pre| + 1
    requires forall i :: 0 <= i < |pre| ==> acc.rows[i] == MigratedUser(pre[i], i + 1, hash, now)
    requires !CredentialFails(last)
    ensures UserFromLegacy(last, hash, now).Ok?
    ensures Insert(acc, UserConstraints, UserFromLegacy(last, hash, now).value).Err? <==>
              Get(last, Username, Null) == Null || exists i :: 0 <= i < |pre| && SameIdentity(pre[i], last)
  {
    var vals := UserFromLegacy(last, hash, now).value;
    UserFromLegacyNumbered(last, |pre| + 1, hash, now);
    var row := StoredRow(acc, UserConstraints, vals);
    assert row == MigratedUser(last, |pre| + 1, hash, now);
    UniqueClash(acc.rows, pre, last, hash, now);
  }

  /** Against migrated users numbered 1..n, user n+1 clashes exactly on a shared username or email. */
  lemma UniqueClash(stored: seq<Row>, pre: seq<Row>, last: Row, hash: string -> string, now: string)
    requires |stored| == |pre|
    requires forall i :: 0 <= i < |pre| ==> stored[i] == MigratedUser(pre[i], i + 1, hash, now)
    ensures var row := MigratedUser(last, |pre| + 1, hash, now);
      Clashes(stored, UserConstraints, row) <==> exists i :: 0 <= i < |pre| && SameIdentity(pre[i], last)
  {
    var row := MigratedUser(last, |pre| + 1, hash, now);
    if Clashes(stored, UserConstraints, row) {
      ClashSound(stored, pre, last, hash, now);
    }
    if exists i :: 0 <= i < |pre| && SameIdentity(pre[i], last) {
      ClashComplete(stored, pre, last, hash, now);
    }
  }

  lemma ClashComplete(stored: seq<Row>, pre: seq<Row>, last: Row, hash: string -> string, now: string)
    requires |stored| == |pre|
    requires forall i :: 0 <= i < |pre| ==> stored[i] == MigratedUser(pre[i], i + 1, hash, now)
    requires exists i :: 0 <= i < |pre| && SameIdentity(pre[i], last)
    ensures Clashes(stored, UserConstraints, MigratedUser(last, |pre| + 1, hash, now))
  {
    var i :| 0 <= i < |pre| && SameIdentity(pre[i], last);
    IdentityClashes(stored[i], pre[i], i + 1, last, |pre| + 1, hash, now);
    ClashesWithClashes(stored, UserConstraints, MigratedUser(last, |pre| + 1, hash, now), i);
  }

  lemma ClashSound(stored: seq<Row>, pre: seq<Row>, last: Row, hash: string -> string, now: string)
    requires |stored| == |pre|
    requires forall i :: 0 <= i < |pre| ==> stored[i] == MigratedUser(pre[i], i + 1, hash, now)
    requires Clashes(stored, UserConstraints, MigratedUser(last, |pre| + 1, hash, now))
    ensures exists i :: 0 <= i < |pre| && SameIdentity(pre[i], last)
  {
    var i, col := ClashWitness(stored, UserConstraints, MigratedUser(last, |pre| + 1, hash, now));
    ClashOnIdentity(stored[i], pre[i], i + 1, last, |pre| + 1, col, hash, now);
  }

  /** Two numbered users with different numbers clash only on username or email. */
  lemma ClashOnIdentity(u: Row, a: Row, m: int, last: Row, n: int, col: Column, hash: string -> string, now: string)
    requires u == MigratedUser(a, m, hash, now) && m != n
    requires col in UserConstraints.unique && SqlEq(u[col], MigratedUser(last, n, hash, now)[col])
    ensures SameIdentity(a, last)
  {
  }

  lemma IdentityClashes(u: Row, a: Row, m: int, last: Row, n: int, hash: string -> string, now: string)
    requires u == MigratedUser(a, m, hash, now) && SameIdentity(a, last)
    ensures ClashesWith(u, UserConstraints, MigratedUser(last, n, hash, now))
  {
    var row := MigratedUser(last, n, hash, now);
    if SqlEq(Get(a, Username, Null), Get(last, Username, Null)) {
      assert SqlEq(u[Username], row[Username]);
    } else {
      assert SqlEq(u[Email], row[Email]);
    }
  }

  /** The users migration aborts exactly when the legacy table is unreadable or its rows are rejected. */
  lemma UsersMigratedFails(legacy: Table, hash: string -> string, now: string)
    ensures UsersMigrated(legacy, hash, now).Err? <==> !UsersReadable(legacy.columns) || UsersRejected(legacy.rows)
  {
    UserCopyFails(legacy.rows, hash, now);
  }

  /** The users copy of all rows is the copy of all but the last, followed by the last row's INSERT. */
  lemma UserCopyPrefix(rows: seq<Row>, hash: string -> string, now: string, n: nat)
    requires n + 1 == |rows|
    ensures UserCopy(rows, hash, now) ==
      match UserCopy(rows[..n], hash, now)
      case Err(e) => Err(e)
      case Ok(acc) => (match UserFromLegacy(rows[n], hash, now) case Err(e) => Err(e) case Ok(vals) => Insert(acc, UserConstraints, vals))
  {
    var conv := UserRows(rows, hash, now);
    assert conv[..n] == UserRows(rows[..n], hash, now);
    assert conv[..n + 1] == conv;
    UserCopyStep(rows, hash, now, n);
  }

  lemma UserCopyStep(rows: seq<Row>, hash: string -> string, now: string, i: nat)
    requires i < |rows|
    ensures var conv := UserRows(rows, hash, now);
      CopyRows(UserColumns, UserConstraints, conv[..i + 1]) ==
        match CopyRows(UserColumns, UserConstraints, conv[..i])
        case Err(e) => Err(e)
        case Ok(acc) => (match UserFromLegacy(rows[i], hash, now) case Err(e) => Err(e) case Ok(vals) => Insert(acc, UserConstraints, vals))
  {
    var conv := UserRows(rows, hash, now);
    assert conv[..i + 1] == conv[..i] + [conv[i]];
    CopyRowsAppend(UserColumns, UserConstraints, conv[..i], conv[i]);
  }

  /** Loop over the legacy users rows, inserting each into the shadow table. */
  method MigrateUsers(legacy: Table, hash: string -> string, now: string) returns (r: Result<Table>)
    ensures r == UsersMigrated(legacy, hash, now)
  {
    if !UsersReadable(legacy.columns) {
      return Err(OperationalError);
    }
    var rows := legacy.rows;
    ghost var conv := UserRows(rows, hash, now);
    r := Ok(EmptyTable(UserColumns));
    var i := 0;
    while i < |rows| && r.Ok?
      invariant 0 <= i <= |rows|
      invariant r == CopyRows(UserColumns, UserConstraints, conv[..i])
    {
      var row := UserFromLegacy(rows[i], hash, now);
      UserCopyStep(rows, hash, now, i);
      match row {
        case Err(e) => r := Err(e);
        case Ok(vals) => r := Insert(r.value, UserConstraints, vals);
      }
      i := i + 1;
    }
    if i < |rows| {
      CopyRowsErrSticky(UserColumns, UserConstraints, conv, i);
    } else {
      assert conv[..i] == conv;
    }
  }

  // ---------------------------------------------------------------------------
  // user_profile: rebuilt when `user_id` is missing
  // ---------------------------------------------------------------------------

  /** The values inserted into user_profile_new for one legacy row, given the user it is paired with. */
  function ProfileFromLegacy(legacy: Row, userId: Value): Row {
    map[UserId := userId,
        UserType := Get(legacy, UserType, Text("general")),
        SavingsGoal := Get(legacy, SavingsGoal, Real(0.0)),
        RiskTolerance := Get(legacy, RiskTolerance, Text("moderate"))]
  }

  /** The user the i-th legacy profile row is paired with: the i-th user, or none past the last user. */
  function PairedUser(ids: seq<Value>, i: nat): Value {
    if i < |ids| then ids[i] else Null
  }

  /** The inserts the profile loop makes: rows paired with no user are skipped. */
  function ProfileRows(rows: seq<Row>, ids: seq<Value>): seq<Result<Row>>
    decreases |rows|
  {
    if rows == [] then []
    else
      var n := |rows| - 1;
      var uid := PairedUser(ids, n);
      ProfileRows(rows[..n], ids) + (if uid == Null then [] else [Ok(ProfileFromLegacy(rows[n], uid))])
  }

  lemma ProfileRowsStep(rows: seq<Row>, ids: seq<Value>, i: nat)
    requires i < |rows|
    ensures ProfileRows(rows[..i + 1], ids) ==
              ProfileRows(rows[..i], ids) + (if PairedUser(ids, i) == Null then [] else [Ok(ProfileFromLegacy(rows[i], PairedUser(ids, i)))])
  {
    assert rows[..i + 1][..i] == rows[..i];
  }

  /** `SELECT id FROM users`, in storage order. */
  function UserIds(users: Table): (ids: seq<Value>)
    ensures |ids| == |users.rows|
  {
    seq(|users.rows|, i requires 0 <= i < |users.rows| => Get(users.rows[i], Id, Null))
  }

  /** The user_profile table the migration builds from a legacy one, or the error that aborts it. */
  function ProfilesMigrated(legacy: Table, ids: seq<Value>): Result<Table> {
    CopyRows(ProfileColumns, ProfileConstraints, ProfileRows(legacy.rows, ids))
  }

  function Min(a: int, b: int): int {
    if a < b then a else b
  }

  lemma {:induction false} ProfileRowsPaired(rows: seq<Row>, ids: seq<Value>)
    requires forall i :: 0 <= i < |ids| ==> ids[i] != Null
    ensures |ProfileRows(rows, ids)| == Min(|rows|, |ids|)
    ensures forall i :: 0 <= i < Min(|rows|, |ids|) ==> ProfileRows(rows, ids)[i] == Ok(ProfileFromLegacy(rows[i], ids[i]))
    decreases |rows|
  {
    if rows != [] {
      var n := |rows| - 1;
      ProfileRowsPaired(rows[..n], ids);
    }
  }

  /**
   * Profile migration when the user ids are distinct integers (as they are in
   * any users table): the i-th legacy row is given the i-th user's id, extra
   * legacy rows are dropped, and absent columns take the defaults 'general',
   * 0.0 and 'moderate'.
   */
  lemma ProfilesPaired(legacy: Table, ids: seq<Value>)
    requires forall i :: 0 <= i < |ids| ==> ids[i].Int?
    requires forall i, j :: 0 <= i < j < |ids| ==> ids[i] != ids[j]
    ensures ProfilesMigrated(legacy, ids).Ok?
    ensures var t := ProfilesMigrated(legacy, ids).value;
      && t.columns == ProfileColumns
      && |t.rows| == Min(|legacy.rows|, |ids|)
      && forall i :: 0 <= i < |t.rows| ==> t.rows[i] == ProfileFromLegacy(legacy.rows[i], ids[i])
  {
    var conv := ProfileRows(legacy.rows, ids);
    ProfileRowsPaired(legacy.rows, ids);
    assert ExplicitRows(conv, UserId);
    CopyRowsSucceeds(ProfileColumns, ProfileConstraints, conv);
    forall i | 0 <= i < Min(|legacy.rows|, |ids|)
      ensures ProfilesMigrated(legacy, ids).value.rows[i] == ProfileFromLegacy(legacy.rows[i], ids[i])
    {
      CopyRowsExact(ProfileColumns, ProfileConstraints, conv, i, ProfileFromLegacy(legacy.rows[i], ids[i]));
    }
  }

  /** Loop over the legacy profile rows, pairing the i-th with the i-th user id. */
  method MigrateProfiles(legacy: Table, ids: seq<Value>) returns (r: Result<Table>)
    ensures r == ProfilesMigrated(legacy, ids)
  {
    var rows := legacy.rows;
    r := Ok(EmptyTable(ProfileColumns));
    var i := 0;
    while i < |rows| && r.Ok?
      invariant 0 <= i <= |rows|
      invariant r == CopyRows(ProfileColumns, ProfileConstraints, ProfileRows(rows[..i], ids))
    {
      var userId := if i < |ids| then ids[i] else Null;
      ProfileRowsStep(rows, ids, i);
      if userId != Null {
        CopyRowsAppend(ProfileColumns, ProfileConstraints, ProfileRows(rows[..i], ids), Ok(ProfileFromLegacy(rows[i], userId)));
        r := Insert(r.value, ProfileConstraints, ProfileFromLegacy(rows[i], userId));
      } else {
        assert ProfileRows(rows[..i + 1], ids) == ProfileRows(rows[..i], ids);
      }
      i := i + 1;
    }
    if i < |rows| {
      ProfileRowsErrSticky(rows, ids, i);
    } else {
      assert rows[..i] == rows;
    }
  }

  lemma {:induction false} ProfileRowsErrSticky(rows: seq<Row>, ids: seq<Value>, n: nat)
    requires n <= |rows|
    requires CopyRows(ProfileColumns, ProfileConstraints, ProfileRows(rows[..n], ids)).Err?
    ensures CopyRows(ProfileColumns, ProfileConstraints, ProfileRows(rows, ids))
         == CopyRows(ProfileColumns, ProfileConstraints, ProfileRows(rows[..n], ids))
    decreases |rows|
  {
    if n < |rows| {
      var m := |rows| - 1;
      assert rows[..m][..n] == rows[..n];
      ProfileRowsErrSticky(rows[..m], ids, n);
      ProfileRowsStep(rows, ids, m);
      assert rows[..m + 1] == rows;
      var uid := PairedUser(ids, m);
      if uid != Null {
        CopyRowsAppend(ProfileColumns, ProfileConstraints, ProfileRows(rows[..m], ids), Ok(ProfileFromLegacy(rows[m], uid)));
      } else {
        assert ProfileRows(rows, ids) == ProfileRows(rows[..m], ids);
      }
    } else {
      assert rows[..n] == rows;
    }
  }

  // ---------------------------------------------------------------------------
  // transactions and holdings: rebuilt when `user_id` is missing
  // ---------------------------------------------------------------------------

  /** The two tables whose legacy rows are handed to a default owner. */
  datatype Owned = Transactions | Holdings

  function OwnedColumns(kind: Owned): set<Column> {
    match kind
    case Transactions => TransactionColumns
    case Holdings => HoldingColumns
  }

  function OwnedConstraints(kind: Owned): Constraints {
    match kind
    case Transactions => TransactionConstraints
    case Holdings => HoldingConstraints
  }

  /** The values inserted into the shadow table for one legacy row: its legacy id, the owner, and defaults. */
  function OwnedFromLegacy(kind: Owned, legacy: Row, owner: Value, now: string): Row {
    match kind
    case Transactions =>
      map[Id := Get(legacy, Id, Null),
          UserId := owner,
          TDate := Get(legacy, TDate, Text(now)),
          TType := Get(legacy, TType, Text("")),
          Category := Get(legacy, Category, Text("")),
          Amount := Get(legacy, Amount, Real(0.0)),
          Note := Get(legacy, Note, Text(""))]
    case Holdings =>
      map[Id := Get(legacy, Id, Null),
          UserId := owner,
          Symbol := Get(legacy, Symbol, Text("")),
          Shares := Get(legacy, Shares, Real(0.0)),
          AvgPrice := Get(legacy, AvgPrice, Null),
          AddedAt := Get(legacy, AddedAt, Text(now))]
  }

  /** The shadow row fits the shadow table, carries the legacy id, and names the owner. */
  lemma OwnedFromLegacyFits(kind: Owned, legacy: Row, owner: Value, now: string)
    ensures var r := OwnedFromLegacy(kind, legacy, owner, now);
      r.Keys == OwnedColumns(kind) && r[Id] == Get(legacy, Id, Null) && r[UserId] == owner
  {
  }

  function OwnedRows(kind: Owned, rows: seq<Row>, owner: Value, now: string): (r: seq<Result<Row>>)
    ensures |r| == |rows|
  {
    seq(|rows|, i requires 0 <= i < |rows| => Ok(OwnedFromLegacy(kind, rows[i], owner, now)))
  }

  /**
   * `SELECT id FROM users LIMIT 1`, tested for truthiness: the owner legacy rows
   * are given, or None when there is no user (or the first id is 0).
   */
  function DefaultOwner(users: Table): Option<Value> {
    if |users.rows| > 0 && Truthy(Get(users.rows[0], Id, Null)) then Some(Get(users.rows[0], Id, Null)) else None
  }

  /** Without an owner the rows are read but never inserted: the rebuilt table is empty. */
  function OwnedMigrated(kind: Owned, legacy: Table, owner: Option<Value>, now: string): Result<Table> {
    match owner
    case None => Ok(EmptyTable(OwnedColumns(kind)))
    case Some(u) => CopyRows(OwnedColumns(kind), OwnedConstraints(kind), OwnedRows(kind, legacy.rows, u, now))
  }

  /** A legacy holding that holdings_new's NOT NULL symbol or shares refuses. */
  predicate NullHolding(legacy: Row) {
    Get(legacy, Symbol, Text("")) == Null || Get(legacy, Shares, Real(0.0)) == Null
  }

  /** The row a legacy row becomes: the legacy id kept when the legacy table has one, else numbered from 1. */
  function OwnedExpected(kind: Owned, legacy: Table, i: nat, owner: Value, now: string): Row
    requires i < |legacy.rows|
  {
    var vals := OwnedFromLegacy(kind, legacy.rows[i], owner, now);
    if Id in legacy.columns then vals else vals[Id := Int(i + 1)]
  }

  /** Legacy rows keep their distinct integer ids when the legacy table has an id column, and have none otherwise. */
  lemma OwnedRowsIds(kind: Owned, legacy: Table, owner: Value, now: string)
    requires WellFormed(legacy, OwnedConstraints(kind))
    ensures Id in legacy.columns ==> ExplicitRows(OwnedRows(kind, legacy.rows, owner, now), Id)
    ensures Id !in legacy.columns ==> NumberedRows(OwnedRows(kind, legacy.rows, owner, now), Id)
    ensures var conv := OwnedRows(kind, legacy.rows, owner, now);
      forall i :: 0 <= i < |conv| ==> conv[i].Ok? && conv[i].value.Keys == OwnedColumns(kind)
  {
    var conv := OwnedRows(kind, legacy.rows, owner, now);
    forall i | 0 <= i < |conv|
      ensures conv[i].Ok? && conv[i].value.Keys == OwnedColumns(kind)
      ensures Get(conv[i].value, Id, Null) == Get(legacy.rows[i], Id, Null)
    {
      OwnedFromLegacyFits(kind, legacy.rows[i], owner, now);
    }
    assert forall i :: 0 <= i < |conv| ==> legacy.rows[i].Keys == legacy.columns;
  }

  /** Only a legacy holding with a NULL symbol or shares gives NULL to a NOT NULL column. */
  lemma OwnedRowsNotNull(kind: Owned, legacy: Table, owner: Value, now: string)
    requires kind == Holdings ==> forall i :: 0 <= i < |legacy.rows| ==> !NullHolding(legacy.rows[i])
    ensures var conv := OwnedRows(kind, legacy.rows, owner, now);
      forall i, col :: 0 <= i < |conv| && col in OwnedConstraints(kind).notNull && col in OwnedColumns(kind) ==>
        Get(conv[i].value, col, Null) != Null
  {
  }

  /**
   * Transactions and holdings migration with an owner, for a legacy table whose
   * ids are distinct integers: every legacy row is copied, in order, keeping its
   * legacy id, with user_id set to the owner.
   */
  lemma OwnedMigratedRows(kind: Owned, legacy: Table, owner: Value, now: string)
    requires WellFormed(legacy, OwnedConstraints(kind))
    requires kind == Holdings ==> forall i :: 0 <= i < |legacy.rows| ==> !NullHolding(legacy.rows[i])
    ensures OwnedMigrated(kind, legacy, Some(owner), now).Ok?
    ensures var t := OwnedMigrated(kind, legacy, Some(owner), now).value;
      && t.columns == OwnedColumns(kind)
      && |t.rows| == |legacy.rows|
      && forall i :: 0 <= i < |legacy.rows| ==> t.rows[i] == OwnedExpected(kind, legacy, i, owner, now)
  {
    var cols := OwnedColumns(kind);
    var c := OwnedConstraints(kind);
    var conv := OwnedRows(kind, legacy.rows, owner, now);
    OwnedRowsIds(kind, legacy, owner, now);
    OwnedRowsNotNull(kind, legacy, owner, now);
    CopyRowsSucceeds(cols, c, conv);
    var t := OwnedMigrated(kind, legacy, Some(owner), now).value;
    if Id !in legacy.columns {
      CopyRowsNumbers(cols, c, conv);
    }
    forall i | 0 <= i < |legacy.rows| ensures t.rows[i] == OwnedExpected(kind, legacy, i, owner, now) {
      OwnedCopyRow(kind, legacy, owner, now, i);
    }
  }

  lemma OwnedCopyRow(kind: Owned, legacy: Table, owner: Value, now: string, i: nat)
    requires OwnedMigrated(kind, legacy, Some(owner), now).Ok? && i < |legacy.rows|
    requires Id in legacy.columns ==> Get(legacy.rows[i], Id, Null) != Null
    requires Id !in legacy.columns ==> OwnedMigrated(kind, legacy, Some(owner), now).value.rows[i][Id] == Int(i + 1)
    ensures OwnedMigrated(kind, legacy, Some(owner), now).value.rows[i] == OwnedExpected(kind, legacy, i, owner, now)
  {
    var conv := OwnedRows(kind, legacy.rows, owner, now);
    var vals := OwnedFromLegacy(kind, legacy.rows[i], owner, now);
    OwnedFromLegacyFits(kind, legacy.rows[i], owner, now);
    assert conv[i] == Ok(vals);
    var stored := OwnedMigrated(kind, legacy, Some(owner), now).value.rows[i];
    if Id in legacy.columns {
      CopyRowsExact(OwnedColumns(kind), OwnedConstraints(kind), conv, i, vals);
    } else {
      CopyRowsCarries(OwnedColumns(kind), OwnedConstraints(kind), conv, i);
      CarriedNumbered(stored, vals, OwnedColumns(kind), Id, Int(i + 1));
    }
  }

  /**
   * For a legacy holdings table whose ids are distinct integers, a migration with
   * an owner aborts exactly when a legacy row has a NULL symbol or shares.
   * LegacyIdsRefused covers repeated and non-integer ids.
   */
  lemma HoldingsMigratedFails(legacy: Table, owner: Value, now: string)
    requires WellFormed(legacy, HoldingConstraints)
    ensures OwnedMigrated(Holdings, legacy, Some(owner), now).Err? <==> exists i :: 0 <= i < |legacy.rows| && NullHolding(legacy.rows[i])
  {
    if OwnedMigrated(Holdings, legacy, Some(owner), now).Ok? {
      forall i | 0 <= i < |legacy.rows| ensures !NullHolding(legacy.rows[i]) {
        MigratedHoldingNotNull(legacy, owner, now, i);
      }
    } else if !exists i :: 0 <= i < |legacy.rows| && NullHolding(legacy.rows[i]) {
      OwnedMigratedRows(Holdings, legacy, owner, now);
    }
  }

  /** Legacy ids the shadow table's INTEGER PRIMARY KEY refuses: a non-integer id, or one id given to two rows. */
  predicate BadLegacyIds(rows: seq<Row>) {
    || (exists i :: 0 <= i < |rows| && Get(rows[i], Id, Null) != Null && !Get(rows[i], Id, Null).Int?)
    || (exists i, j :: 0 <= i < j < |rows| && Get(rows[i], Id, Null) != Null && Get(rows[i], Id, Null) == Get(rows[j], Id, Null))
  }

  /**
   * Whatever the other columns hold, a transactions or holdings migration with an
   * owner aborts when a legacy id is not an integer or is repeated.
   */
  lemma LegacyIdsRefused(kind: Owned, legacy: Table, owner: Value, now: string)
    requires BadLegacyIds(legacy.rows)
    ensures OwnedMigrated(kind, legacy, Some(owner), now).Err?
  {
    if OwnedMigrated(kind, legacy, Some(owner), now).Ok? {
      var cols := OwnedColumns(kind);
      var c := OwnedConstraints(kind);
      var conv := OwnedRows(kind, legacy.rows, owner, now);
      var t := CopyRows(cols, c, conv).value;
      CopyRowsWellFormed(cols, c, conv);
      if exists i :: 0 <= i < |legacy.rows| && Get(legacy.rows[i], Id, Null) != Null && !Get(legacy.rows[i], Id, Null).Int? {
        var i :| 0 <= i < |legacy.rows| && Get(legacy.rows[i], Id, Null) != Null && !Get(legacy.rows[i], Id, Null).Int?;
        LegacyIdStored(kind, legacy, owner, now, i);
        assert false;
      } else {
        var i, j :| 0 <= i < j < |legacy.rows| && Get(legacy.rows[i], Id, Null) != Null && Get(legacy.rows[i], Id, Null) == Get(legacy.rows[j], Id, Null);
        LegacyIdStored(kind, legacy, owner, now, i);
        LegacyIdStored(kind, legacy, owner, now, j);
        assert false;
      }
    }
  }

  /** A non-NULL legacy id is stored unchanged in the shadow row. */
  lemma LegacyIdStored(kind: Owned, legacy: Table, owner: Value, now: string, i: nat)
    requires OwnedMigrated(kind, legacy, Some(owner), now).Ok? && i < |legacy.rows|
    requires Get(legacy.rows[i], Id, Null) != Null
    ensures OwnedMigrated(kind, legacy, Some(owner), now).value.rows[i][Id] == Get(legacy.rows[i], Id, Null)
  {
    var conv := OwnedRows(kind, legacy.rows, owner, now);
    OwnedFromLegacyFits(kind, legacy.rows[i], owner, now);
    assert conv[i] == Ok(OwnedFromLegacy(kind, legacy.rows[i], owner, now));
    CopyRowsCarries(OwnedColumns(kind), OwnedConstraints(kind), conv, i);
  }

  lemma MigratedHoldingNotNull(legacy: Table, owner: Value, now: string, i: nat)
    requires OwnedMigrated(Holdings, legacy, Some(owner), now).Ok? && i < |legacy.rows|
    ensures !NullHolding(legacy.rows[i])
  {
    var conv := OwnedRows(Holdings, legacy.rows, owner, now);
    var vals := OwnedFromLegacy(Holdings, legacy.rows[i], owner, now);
    assert vals[Symbol] == Get(legacy.rows[i], Symbol, Text("")) && vals[Shares] == Get(legacy.rows[i], Shares, Real(0.0));
    var stored := OwnedMigrated(Holdings, legacy, Some(owner), now).value.rows[i];
    CopyRowsCarries(HoldingColumns, HoldingConstraints, conv, i);
    CopyRowsNotNull(HoldingColumns, HoldingConstraints, conv, i, Symbol);
    CopyRowsNotNull(HoldingColumns, HoldingConstraints, conv, i, Shares);
    assert stored[Symbol] == vals[Symbol] && stored[Shares] == vals[Shares];
  }

  lemma OwnedCopyStep(kind: Owned, rows: seq<Row>, owner: Value, now: string, i: nat)
    requires i < |rows|
    ensures var conv := OwnedRows(kind, rows, owner, now);
      CopyRows(OwnedColumns(kind), OwnedConstraints(kind), conv[..i + 1]) ==
        match CopyRows(OwnedColumns(kind), OwnedConstraints(kind), conv[..i])
        case Err(e) => Err(e)
        case Ok(acc) => Insert(acc, OwnedConstraints(kind), OwnedFromLegacy(kind, rows[i], owner, now))
  {
    var conv := OwnedRows(kind, rows, owner, now);
    assert conv[..i + 1] == conv[..i] + [conv[i]];
    CopyRowsAppend(OwnedColumns(kind), OwnedConstraints(kind), conv[..i], conv[i]);
  }

  /** Loop over the legacy rows of transactions or holdings, handing each to the owner. */
  method MigrateOwned(kind: Owned, legacy: Table, owner: Option<Value>, now: string) returns (r: Result<Table>)
    ensures r == OwnedMigrated(kind, legacy, owner, now)
  {
    if owner.None? {
      r := Ok(EmptyTable(OwnedColumns(kind)));
    } else {
      r := CopyOwned(kind, legacy.rows, owner.value, now);
    }
  }

  /** The loop proper: each legacy row is transformed and inserted, stopping at the first failure. */
  method CopyOwned(kind: Owned, rows: seq<Row>, owner: Value, now: string) returns (r: Result<Table>)
    ensures r == CopyRows(OwnedColumns(kind), OwnedConstraints(kind), OwnedRows(kind, rows, owner, now))
  {
    var c := OwnedConstraints(kind);
    ghost var conv := OwnedRows(kind, rows, owner, now);
    r := Ok(EmptyTable(OwnedColumns(kind)));
    var i := 0;
    while i < |rows| && r.Ok?
      invariant 0 <= i <= |rows|
      invariant r == CopyRows(OwnedColumns(kind), c, conv[..i])
    {
      OwnedCopyStep(kind, rows, owner, now, i);
      r := Insert(r.value, c, OwnedFromLegacy(kind, rows[i], owner, now));
      i := i + 1;
    }
    if i < |rows| {
      CopyRowsErrSticky(OwnedColumns(kind), c, conv, i);
    } else {
      assert conv[..i] == conv;
    }
  }

  // ---------------------------------------------------------------------------
  // init_db as a whole
  // ---------------------------------------------------------------------------

  function InitUsers(t: Option<Table>, hash: string -> string, now: string): (r: Result<Table>)
    ensures r.Ok? ==> UsersCurrent(r.value)
    ensures t.Some? && UsersCurrent(t.value) ==> r == Ok(t.value)
    ensures t.None? ==> r == Ok(EmptyTable(UserColumns))
  {
    match t
    case None => Ok(EmptyTable(UserColumns))
    case Some(u) => if UsersCurrent(u) then Ok(u) else UsersMigrated(u, hash, now)
  }

  function InitProfiles(t: Option<Table>, users: Table): (r: Result<Table>)
    ensures r.Ok? ==> OwnedCurrent(r.value)
    ensures t.Some? && OwnedCurrent(t.value) ==> r == Ok(t.value)
    ensures t.None? ==> r == Ok(EmptyTable(ProfileColumns))
  {
    match t
    case None => Ok(EmptyTable(ProfileColumns))
    case Some(p) => if OwnedCurrent(p) then Ok(p) else ProfilesMigrated(p, UserIds(users))
  }

  function InitOwned(kind: Owned, t: Option<Table>, users: Table, now: string): (r: Result<Table>)
    ensures r.Ok? ==> OwnedCurrent(r.value)
    ensures t.Some? && OwnedCurrent(t.value) ==> r == Ok(t.value)
    ensures t.None? ==> r == Ok(EmptyTable(OwnedColumns(kind)))
  {
    match t
    case None => Ok(EmptyTable(OwnedColumns(kind)))
    case Some(o) => if OwnedCurrent(o) then Ok(o) else OwnedMigrated(kind, o, DefaultOwner(users), now)
  }

  /** init_db's users block: create the table when absent, rebuild it when `id` or `password_hash` is missing. */
  method RebuildUsers(t: Option<Table>, hash: string -> string, now: string) returns (r: Result<Table>)
    ensures r == InitUsers(t, hash, now)
  {
    if t.None? {
      return Ok(EmptyTable(UserColumns));
    }
    if UsersCurrent(t.value) {
      return Ok(t.value);
    }
    r := MigrateUsers(t.value, hash, now);
  }

  /** init_db's user_profile block: pairs legacy rows with the user ids in storage order. */
  method RebuildProfiles(t: Option<Table>, users: Table) returns (r: Result<Table>)
    ensures r == InitProfiles(t, users)
  {
    if t.None? {
      return Ok(EmptyTable(ProfileColumns));
    }
    if OwnedCurrent(t.value) {
      return Ok(t.value);
    }
    r := MigrateProfiles(t.value, UserIds(users));
  }

  /** init_db's transactions and holdings blocks: legacy rows go to the first user, if there is one. */
  method RebuildOwned(kind: Owned, t: Option<Table>, users: Table, now: string) returns (r: Result<Table>)
    ensures r == InitOwned(kind, t, users, now)
  {
    if t.None? {
      return Ok(EmptyTable(OwnedColumns(kind)));
    }
    if OwnedCurrent(t.value) {
      return Ok(t.value);
    }
    r := MigrateOwned(kind, t.value, DefaultOwner(users), now);
  }

  /** `CREATE TABLE IF NOT EXISTS`: an existing table is kept whatever its columns. */
  function CreateIfMissing(t: Option<Table>, columns: set<Column>): Table {
    match t
    case None => EmptyTable(columns)
    case Some(x) => x
  }

  /**
   * The database a successful init_db commits, or the error that aborts it. A
   * failed run is taken as one step that changes nothing; the empty shadow
   * tables the program can leave behind on failure are not modelled.
   */
  function InitDbSpec(s: Tables, hash: string -> string, now: string): (r: Result<Tables>)
    ensures r.Ok? ==> Migrated(r.value)
  {
    var users :- InitUsers(s.users, hash, now);
    var profiles :- InitProfiles(s.profiles, users);
    var transactions :- InitOwned(Transactions, s.transactions, users, now);
    var holdings :- InitOwned(Holdings, s.holdings, users, now);
    Ok(Tables(Some(users), Some(profiles), Some(transactions), Some(holdings),
              Some(CreateIfMissing(s.goals, GoalColumns)), Some(CreateIfMissing(s.config, ConfigColumns))))
  }

  /** A migrated database is a fixed point of init_db, whatever the clock and hash. */
  lemma InitDbFixedPoint(s: Tables, hash: string -> string, now: string)
    requires Migrated(s)
    ensures InitDbSpec(s, hash, now) == Ok(s)
  {
  }

  /** Running init_db a second time changes neither schema nor rows. */
  lemma InitDbIdempotent(s: Tables, hash: string -> string, now: string, hash': string -> string, now': string)
    requires InitDbSpec(s, hash, now).Ok?
    ensures InitDbSpec(InitDbSpec(s, hash, now).value, hash', now') == InitDbSpec(s, hash, now)
  {
    InitDbFixedPoint(InitDbSpec(s, hash, now).value, hash', now');
  }

  lemma InitUsersWellFormed(t: Option<Table>, hash: string -> string, now: string)
    requires t.Some? && UsersCurrent(t.value) ==> WellFormed(t.value, UserConstraints)
    requires InitUsers(t, hash, now).Ok?
    ensures WellFormed(InitUsers(t, hash, now).value, UserConstraints)
  {
    if t.Some? && !UsersCurrent(t.value) {
      CopyRowsWellFormed(UserColumns, UserConstraints, UserRows(t.value.rows, hash, now));
    }
  }

  lemma InitProfilesWellFormed(t: Option<Table>, users: Table)
    requires t.Some? && OwnedCurrent(t.value) ==> WellFormed(t.value, ProfileConstraints)
    requires InitProfiles(t, users).Ok?
    ensures WellFormed(InitProfiles(t, users).value, ProfileConstraints)
  {
    if t.Some? && !OwnedCurrent(t.value) {
      CopyRowsWellFormed(ProfileColumns, ProfileConstraints, ProfileRows(t.value.rows, UserIds(users)));
    }
  }

  lemma InitOwnedWellFormed(kind: Owned, t: Option<Table>, users: Table, now: string)
    requires t.Some? && OwnedCurrent(t.value) ==> WellFormed(t.value, OwnedConstraints(kind))
    requires InitOwned(kind, t, users, now).Ok?
    ensures WellFormed(InitOwned(kind, t, users, now).value, OwnedConstraints(kind))
  {
    if t.Some? && !OwnedCurrent(t.value) && DefaultOwner(users).Some? {
      CopyRowsWellFormed(OwnedColumns(kind), OwnedConstraints(kind), OwnedRows(kind, t.value.rows, DefaultOwner(users).value, now));
    }
  }

  /** A committed init_db run is the six per-table results, each of which succeeded. */
  lemma InitDbParts(s: Tables, hash: string -> string, now: string)
    requires InitDbSpec(s, hash, now).Ok?
    ensures InitUsers(s.users, hash, now).Ok?
    ensures var users := InitUsers(s.users, hash, now).value;
      && InitProfiles(s.profiles, users).Ok?
      && InitOwned(Transactions, s.transactions, users, now).Ok?
      && InitOwned(Holdings, s.holdings, users, now).Ok?
      && InitDbSpec(s, hash, now).value ==
           Tables(Some(users), Some(InitProfiles(s.profiles, users).value),
                  Some(InitOwned(Transactions, s.transactions, users, now).value),
                  Some(InitOwned(Holdings, s.holdings, users, now).value),
                  Some(CreateIfMissing(s.goals, GoalColumns)), Some(CreateIfMissing(s.config, ConfigColumns)))
  {
  }

  /** init_db keeps the storage engine's guarantees on every table. */
  lemma InitDbWellFormed(s: Tables, hash: string -> string, now: string)
    requires KeptWellFormed(s)
    requires InitDbSpec(s, hash, now).Ok?
    ensures TablesWellFormed(InitDbSpec(s, hash, now).value)
  {
    InitDbParts(s, hash, now);
    var users := InitUsers(s.users, hash, now).value;
    InitUsersWellFormed(s.users, hash, now);
    InitProfilesWellFormed(s.profiles, users);
    InitOwnedWellFormed(Transactions, s.transactions, users, now);
    InitOwnedWellFormed(Holdings, s.holdings, users, now);
    CreatedWellFormed(s.goals, GoalColumns, GoalConstraints);
    CreatedWellFormed(s.config, ConfigColumns, ConfigConstraints);
    var db := InitDbSpec(s, hash, now).value;
    assert PresentWellFormed(db.users, UserConstraints);
    assert PresentWellFormed(db.profiles, ProfileConstraints);
    assert PresentWellFormed(db.transactions, TransactionConstraints);
    assert PresentWellFormed(db.holdings, HoldingConstraints);
  }

  lemma CreatedWellFormed(t: Option<Table>, columns: set<Column>, c: Constraints)
    requires PresentWellFormed(t, c)
    ensures WellFormed(CreateIfMissing(t, columns), c)
  {
  }

  /** init_db leaves a users table with unique usernames and emails. */
  lemma InitUsersUnique(t: Option<Table>, hash: string -> string, now: string)
    requires t.Some? && UsersCurrent(t.value) ==> UniqueValues(t.value.rows, UserConstraints)
    requires InitUsers(t, hash, now).Ok?
    ensures UniqueValues(InitUsers(t, hash, now).value.rows, UserConstraints)
  {
    if t.Some? && !UsersCurrent(t.value) {
      CopyRowsUnique(UserColumns, UserConstraints, UserRows(t.value.rows, hash, now));
    }
  }

  /**
   * Backfilling a legacy transactions or holdings table: with a first user to
   * own them, every legacy row survives, owned by that user; without one, the
   * rebuilt table is empty.
   */
  lemma OwnedBackfilled(kind: Owned, legacy: Table, users: Table, now: string)
    requires !OwnedCurrent(legacy) && InitOwned(kind, Some(legacy), users, now).Ok?
    ensures var t := InitOwned(kind, Some(legacy), users, now).value;
      match DefaultOwner(users)
      case None => t == EmptyTable(OwnedColumns(kind))
      case Some(owner) => |t.rows| == |legacy.rows| && forall i :: 0 <= i < |t.rows| ==> t.rows[i][UserId] == owner
  {
    if DefaultOwner(users).Some? {
      var owner := DefaultOwner(users).value;
      var conv := OwnedRows(kind, legacy.rows, owner, now);
      var t := InitOwned(kind, Some(legacy), users, now).value;
      assert t == CopyRows(OwnedColumns(kind), OwnedConstraints(kind), conv).value;
      forall i | 0 <= i < |t.rows| ensures t.rows[i][UserId] == owner {
        OwnedOwnerCopied(kind, legacy.rows, owner, now, i);
      }
    }
  }

  /** A copied legacy row carries the owner in `user_id`, which is not the rowid column. */
  lemma OwnedOwnerCopied(kind: Owned, rows: seq<Row>, owner: Value, now: string, i: nat)
    requires CopyRows(OwnedColumns(kind), OwnedConstraints(kind), OwnedRows(kind, rows, owner, now)).Ok? && i < |rows|
    ensures CopyRows(OwnedColumns(kind), OwnedConstraints(kind), OwnedRows(kind, rows, owner, now)).value.rows[i][UserId] == owner
  {
    var conv := OwnedRows(kind, rows, owner, now);
    CopyRowsCarries(OwnedColumns(kind), OwnedConstraints(kind), conv, i);
    OwnedFromLegacyFits(kind, rows[i], owner, now);
  }

  /**
   * When the users table is itself rebuilt from a non-empty legacy table, the
   * first account is renumbered to id 1, so id 1 owns the backfilled rows.
   */
  lemma LegacyUsersOwner(t: Table, hash: string -> string, now: string)
    requires !UsersCurrent(t) && |t.rows| >= 1 && InitUsers(Some(t), hash, now).Ok?
    ensures DefaultOwner(InitUsers(Some(t), hash, now).value) == Some(Int(1))
  {
    UserCopyRows(t.rows, hash, now);
  }

  /**
   * Transactions preservation through init_db: a legacy transactions table
   * without user_id keeps all its rows, each owned by the first user of the
   * users table init_db leaves (id 1 when that table was migrated too), or
   * is emptied when there is no such user.
   */
  lemma TransactionsPreserved(s: Tables, hash: string -> string, now: string)
    requires s.transactions.Some? && !OwnedCurrent(s.transactions.value)
    requires InitDbSpec(s, hash, now).Ok?
    ensures var db := InitDbSpec(s, hash, now).value;
      var t := db.transactions.value;
      match DefaultOwner(db.users.value)
      case None => t == EmptyTable(TransactionColumns)
      case Some(owner) =>
        && |t.rows| == |s.transactions.value.rows|
        && forall i :: 0 <= i < |t.rows| ==> t.rows[i][UserId] == owner
  {
    var users := InitUsers(s.users, hash, now).value;
    assert InitDbSpec(s, hash, now).value.transactions.value == InitOwned(Transactions, s.transactions, users, now).value;
    OwnedBackfilled(Transactions, s.transactions.value, users, now);
  }

  /** Scenario: legacy users and legacy transactions migrated together; every transaction goes to user 1. */
  lemma LegacyTransactionsToFirstAccount(s: Tables, hash: string -> string, now: string)
    requires s.users.Some? && !UsersCurrent(s.users.value) && |s.users.value.rows| >= 1
    requires s.transactions.Some? && !OwnedCurrent(s.transactions.value)
    requires InitDbSpec(s, hash, now).Ok?
    ensures var t := InitDbSpec(s, hash, now).value.transactions.value;
      && |t.rows| == |s.transactions.value.rows|
      && forall i :: 0 <= i < |t.rows| ==> t.rows[i][UserId] == Int(1)
  {
    LegacyUsersOwner(s.users.value, hash, now);
    TransactionsPreserved(s, hash, now);
  }

  /**
   * `CREATE TABLE IF NOT EXISTS` for savings_goals and config: an existing
   * table comes through init_db exactly as found (a savings_goals table
   * without user_id is not given one), a missing one is created empty.
   */
  lemma GoalsAndConfigKept(s: Tables, hash: string -> string, now: string)
    requires InitDbSpec(s, hash, now).Ok?
    ensures var db := InitDbSpec(s, hash, now).value;
      && (s.goals.Some? ==> db.goals == s.goals)
      && (s.goals.None? ==> db.goals == Some(EmptyTable(GoalColumns)))
      && (s.config.Some? ==> db.config == s.config)
      && (s.config.None? ==> db.config == Some(EmptyTable(ConfigColumns)))
  {
  }

  /**
   * With no user to own them (an empty users table, or a first id that is
   * NULL or 0), legacy transactions and holdings are dropped: the rebuilt
   * table is empty.
   */
  lemma OrphansDropped(kind: Owned, legacy: Table, users: Table, now: string)
    requires !OwnedCurrent(legacy) && DefaultOwner(users).None?
    ensures InitOwned(kind, Some(legacy), users, now) == Ok(EmptyTable(OwnedColumns(kind)))
  {
  }
}
