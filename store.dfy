/**
 * The per-user data operations of the finance tracker: holdings, transactions,
 * the investor profile, savings goals and the key/value config table. Each
 * operation is a function from the table it touches (and the Streamlit
 * session) to the new table or the exception the statement raises; the
 * Database class applies them in place.
 */
module Store {
  import opened Sql
  import opened Catalog
  import opened Ordering

  /** What the Streamlit session records about the visitor: `logged_in` and `user_id`. */
  datatype Session = Session(loggedIn: bool, userId: Value)

  /** A row belongs to `uid` when its `user_id = uid` holds in SQL. */
  predicate Owns(x: Row, uid: Value) {
    UserId in x && SqlEq(x[UserId], uid)
  }

  // ---------------------------------------------------------------------------
  // reading: `SELECT * FROM t WHERE user_id = ? [ORDER BY column DESC]`
  // ---------------------------------------------------------------------------

  /**
   * get_holdings (no ordering), get_transactions (ORDER BY tdate DESC) and
   * get_savings_goals (ORDER BY created_at DESC): logged out, an empty frame;
   * logged in, exactly the caller's rows, each as often as it is stored.
   */
  function Select(t: Table, s: Session, order: Option<Column>): (r: Result<seq<Row>>)
    ensures !s.loggedIn ==> r == Ok([])
    ensures s.loggedIn ==> (r.Err? <==> !(UserId in t.columns && (order.Some? ==> order.value in t.columns)))
    ensures r.Ok? && s.loggedIn ==> forall x :: multiset(r.value)[x] == if Owns(x, s.userId) then multiset(t.rows)[x] else 0
    ensures r.Ok? && order.Some? ==> SortedDesc(r.value, order.value)
  {
    if !s.loggedIn then Ok([])
    else if UserId !in t.columns then Err(OperationalError)
    else
      var mine := Where(t.rows, UserId, s.userId);
      WhereCounts(t.rows, UserId, s.userId);
      match order
      case None => Ok(mine)
      case Some(column) =>
        if column !in t.columns then Err(OperationalError)
        else
          OrderByDescSorted(mine, column);
          Ok(OrderByDesc(mine, column))
  }

  /** Changing the table without changing who owns what leaves every caller's query unchanged. */
  lemma SelectSameOwned(t: Table, t': Table, s: Session, order: Option<Column>)
    requires t'.columns == t.columns
    requires Where(t'.rows, UserId, s.userId) == Where(t.rows, UserId, s.userId)
    ensures Select(t', s, order) == Select(t, s, order)
  {
  }

  // ---------------------------------------------------------------------------
  // inserting: add_holding, add_transaction, add_savings_goal
  // ---------------------------------------------------------------------------

  /** `str.upper()` on one character, for the ASCII letters. */
  function UpperChar(ch: char): char {
    if 'a' <= ch <= 'z' then (ch as int - 32) as char else ch
  }

  /** `str.upper()`: every lower-case ASCII letter becomes its capital; nothing else changes. */
  function Upper(s: string): (r: string)
    ensures |r| == |s|
    ensures forall i :: 0 <= i < |s| ==> !('a' <= r[i] <= 'z')
    ensures forall i :: 0 <= i < |s| && 'a' <= s[i] <= 'z' ==> r[i] as int == s[i] as int - 32 && 'A' <= r[i] <= 'Z'
    ensures forall i :: 0 <= i < |s| && !('a' <= s[i] <= 'z') ==> r[i] == s[i]
  {
    seq(|s|, i requires 0 <= i < |s| => UpperChar(s[i]))
  }

  /**
   * An INSERT that names every column but the AUTOINCREMENT id succeeds exactly
   * when no NOT NULL column gets NULL, and appends the values under the next id.
   */
  lemma AppendsRow(t: Table, c: Constraints, vals: Row)
    requires WellFormed(t, c)
    requires c.rowid == Some(Id) && c.unique == {Id} && Id !in c.notNull
    requires Id !in vals && vals.Keys + {Id} == t.columns
    ensures Insert(t, c, vals).Ok? <==> forall col :: col in c.notNull && col in vals ==> vals[col] != Null
    ensures Insert(t, c, vals).Ok? ==> Insert(t, c, vals).value.rows == t.rows + [vals[Id := Int(t.nextId)]]
    ensures Insert(t, c, vals).Ok? ==> Insert(t, c, vals).value.nextId == t.nextId + 1
  {
    if forall col :: col in c.notNull && col in vals ==> vals[col] != Null {
      InsertSucceeds(t, c, vals);
    }
    if Insert(t, c, vals).Ok? {
      InsertAutoId(t, c, vals);
      assert Complete(t.columns, vals)[Id := Int(t.nextId)] == vals[Id := Int(t.nextId)];
    }
  }

  /** Appending a row the caller does not own leaves the caller's queries unchanged. */
  lemma AppendIsolated(t: Table, t': Table, row: Row, b: Session, order: Option<Column>)
    requires t'.columns == t.columns && t'.rows == t.rows + [row]
    requires !Owns(row, b.userId)
    ensures Select(t', b, order) == Select(t, b, order)
  {
    WhereAppend(t.rows, row, UserId, b.userId);
    SelectSameOwned(t, t', b, order);
  }

  /** The new row names the session's user; no other user can own it. */
  lemma NotOwnedByOthers(row: Row, a: Session, b: Session)
    requires UserId in row && (row[UserId] == a.userId || row[UserId] == Null)
    requires !SqlEq(b.userId, a.userId)
    ensures !Owns(row, b.userId)
  {
    SqlEqSymmetric(b.userId, a.userId);
  }

  function HoldingValues(s: Session, symbol: string, shares: Value, avgPrice: Value, now: string): Row {
    map[UserId := s.userId, Symbol := Text(Upper(symbol)), Shares := shares, AvgPrice := avgPrice, AddedAt := Text(now)]
  }

  /** add_holding: a no-op when logged out; otherwise one INSERT with the symbol upper-cased and the clock reading. */
  function AddHolding(t: Table, s: Session, symbol: string, shares: Value, avgPrice: Value, now: string): (r: Result<Table>)
    ensures !s.loggedIn ==> r == Ok(t)
  {
    if !s.loggedIn then Ok(t) else Insert(t, HoldingConstraints, HoldingValues(s, symbol, shares, avgPrice, now))
  }

  /**
   * A holding is stored unless `shares` is NULL; the stored row is owned by the
   * caller, has the next id, and its symbol upper-cased.
   */
  lemma AddHoldingStores(t: Table, s: Session, symbol: string, shares: Value, avgPrice: Value, now: string)
    requires WellFormed(t, HoldingConstraints) && t.columns == HoldingColumns && s.loggedIn
    ensures AddHolding(t, s, symbol, shares, avgPrice, now).Ok? <==> shares != Null
    ensures AddHolding(t, s, symbol, shares, avgPrice, now).Ok? ==>
      AddHolding(t, s, symbol, shares, avgPrice, now).value.rows == t.rows + [HoldingValues(s, symbol, shares, avgPrice, now)[Id := Int(t.nextId)]]
  {
    var vals := HoldingValues(s, symbol, shares, avgPrice, now);
    AppendsRow(t, HoldingConstraints, vals);
  }

  /** Another user's holdings are untouched by add_holding. */
  lemma AddHoldingIsolated(t: Table, a: Session, b: Session, symbol: string, shares: Value, avgPrice: Value, now: string)
    requires AddHolding(t, a, symbol, shares, avgPrice, now).Ok? && UserId in t.columns
    requires !SqlEq(b.userId, a.userId)
    ensures Select(AddHolding(t, a, symbol, shares, avgPrice, now).value, b, None) == Select(t, b, None)
  {
    if a.loggedIn {
      var t' := AddHolding(t, a, symbol, shares, avgPrice, now).value;
      var row := t'.rows[|t.rows|];
      assert t'.rows == t.rows + [row];
      NotOwnedByOthers(row, a, b);
      AppendIsolated(t, t', row, b, None);
    }
  }

  /** The caller's holdings list gains exactly the new holding, at the end. */
  lemma AddHoldingListed(t: Table, s: Session, symbol: string, shares: Value, avgPrice: Value, now: string)
    requires WellFormed(t, HoldingConstraints) && t.columns == HoldingColumns && s.loggedIn && s.userId != Null
    requires AddHolding(t, s, symbol, shares, avgPrice, now).Ok?
    ensures Select(AddHolding(t, s, symbol, shares, avgPrice, now).value, s, None).Ok?
    ensures Select(AddHolding(t, s, symbol, shares, avgPrice, now).value, s, None).value == Select(t, s, None).value +
      [HoldingValues(s, symbol, shares, avgPrice, now)[Id := Int(t.nextId)]]
  {
    AddHoldingStores(t, s, symbol, shares, avgPrice, now);
    var row := HoldingValues(s, symbol, shares, avgPrice, now)[Id := Int(t.nextId)];
    WhereAppend(t.rows, row, UserId, s.userId);
  }

  function TransactionValues(s: Session, tdate: Value, ttype: Value, category: Value, amount: Value, note: Value): Row {
    map[UserId := s.userId, TDate := tdate, TType := ttype, Category := category, Amount := amount, Note := note]
  }

  /** add_transaction: a no-op when logged out; otherwise one INSERT of the given values. */
  function AddTransaction(t: Table, s: Session, tdate: Value, ttype: Value, category: Value, amount: Value, note: Value): (r: Result<Table>)
    ensures !s.loggedIn ==> r == Ok(t)
  {
    if !s.loggedIn then Ok(t) else Insert(t, TransactionConstraints, TransactionValues(s, tdate, ttype, category, amount, note))
  }

  /** transactions declares no NOT NULL column: every transaction is stored, owned by the caller, under the next id. */
  lemma AddTransactionStores(t: Table, s: Session, tdate: Value, ttype: Value, category: Value, amount: Value, note: Value)
    requires WellFormed(t, TransactionConstraints) && t.columns == TransactionColumns && s.loggedIn
    ensures AddTransaction(t, s, tdate, ttype, category, amount, note).Ok?
    ensures AddTransaction(t, s, tdate, ttype, category, amount, note).value.rows == t.rows + [TransactionValues(s, tdate, ttype, category, amount, note)[Id := Int(t.nextId)]]
  {
    var vals := TransactionValues(s, tdate, ttype, category, amount, note);
    AppendsRow(t, TransactionConstraints, vals);
  }

  /** Another user's transactions are untouched by add_transaction. */
  lemma AddTransactionIsolated(t: Table, a: Session, b: Session, tdate: Value, ttype: Value, category: Value, amount: Value, note: Value)
    requires AddTransaction(t, a, tdate, ttype, category, amount, note).Ok? && UserId in t.columns
    requires !SqlEq(b.userId, a.userId)
    ensures Select(AddTransaction(t, a, tdate, ttype, category, amount, note).value, b, Some(TDate)) == Select(t, b, Some(TDate))
  {
    if a.loggedIn {
      var t' := AddTransaction(t, a, tdate, ttype, category, amount, note).value;
      var row := t'.rows[|t.rows|];
      assert t'.rows == t.rows + [row];
      NotOwnedByOthers(row, a, b);
      AppendIsolated(t, t', row, b, Some(TDate));
    }
  }

  function GoalValues(s: Session, goalName: Value, targetAmount: Value, deadline: Value, note: Value, now: string): Row {
    map[UserId := s.userId, GoalName := goalName, TargetAmount := targetAmount, CurrentAmount := Real(0.0),
        Deadline := deadline, Note := note, CreatedAt := Text(now)]
  }

  /** add_savings_goal: a no-op when logged out; otherwise one INSERT with nothing saved yet. */
  function AddSavingsGoal(t: Table, s: Session, goalName: Value, targetAmount: Value, deadline: Value, note: Value, now: string): (r: Result<Table>)
    ensures !s.loggedIn ==> r == Ok(t)
  {
    if !s.loggedIn then Ok(t) else Insert(t, GoalConstraints, GoalValues(s, goalName, targetAmount, deadline, note, now))
  }

  /**
   * A goal is stored unless its name or target is NULL; it is owned by the
   * caller, has the next id, and starts at a current amount of 0.0.
   */
  lemma AddSavingsGoalStores(t: Table, s: Session, goalName: Value, targetAmount: Value, deadline: Value, note: Value, now: string)
    requires WellFormed(t, GoalConstraints) && t.columns == GoalColumns && s.loggedIn
    ensures AddSavingsGoal(t, s, goalName, targetAmount, deadline, note, now).Ok? <==> goalName != Null && targetAmount != Null
    ensures AddSavingsGoal(t, s, goalName, targetAmount, deadline, note, now).Ok? ==>
      AddSavingsGoal(t, s, goalName, targetAmount, deadline, note, now).value.rows == t.rows + [GoalValues(s, goalName, targetAmount, deadline, note, now)[Id := Int(t.nextId)]]
  {
    var vals := GoalValues(s, goalName, targetAmount, deadline, note, now);
    AppendsRow(t, GoalConstraints, vals);
  }

  /** Another user's goals are untouched by add_savings_goal. */
  lemma AddSavingsGoalIsolated(t: Table, a: Session, b: Session, goalName: Value, targetAmount: Value, deadline: Value, note: Value, now: string)
    requires AddSavingsGoal(t, a, goalName, targetAmount, deadline, note, now).Ok? && UserId in t.columns
    requires !SqlEq(b.userId, a.userId)
    ensures Select(AddSavingsGoal(t, a, goalName, targetAmount, deadline, note, now).value, b, Some(CreatedAt)) == Select(t, b, Some(CreatedAt))
  {
    if a.loggedIn {
      var t' := AddSavingsGoal(t, a, goalName, targetAmount, deadline, note, now).value;
      var row := t'.rows[|t.rows|];
      assert t'.rows == t.rows + [row];
      NotOwnedByOthers(row, a, b);
      AppendIsolated(t, t', row, b, Some(CreatedAt));
    }
  }

  // ---------------------------------------------------------------------------
  // deleting: `DELETE FROM t WHERE id = ? AND user_id = ?`
  // ---------------------------------------------------------------------------

  /** The rows a delete or update by `uid` of row `id` acts on. */
  predicate Targets(x: Row, id: Value, uid: Value) {
    Id in x && SqlEq(x[Id], id) && Owns(x, uid)
  }

  /**
   * remove_holding, remove_transaction and remove_savings_goal: a no-op when
   * logged out; otherwise exactly the rows with that id AND the caller's
   * user_id disappear, every other row stays as often as it was stored.
   */
  function RemoveOwned(t: Table, s: Session, id: Value): (r: Result<Table>)
    ensures !s.loggedIn ==> r == Ok(t)
    ensures s.loggedIn ==> (r.Err? <==> !(Id in t.columns && UserId in t.columns))
    ensures r.Ok? ==> r.value.columns == t.columns && r.value.nextId == t.nextId
    ensures r.Ok? && s.loggedIn ==>
      forall x :: multiset(r.value.rows)[x] == if Targets(x, id, s.userId) then 0 else multiset(t.rows)[x]
  {
    if !s.loggedIn then Ok(t)
    else if Id !in t.columns || UserId !in t.columns then Err(OperationalError)
    else
      var keep := x => !Targets(x, id, s.userId);
      FilterCounts(t.rows, keep);
      Ok(Table(t.columns, Filter(t.rows, keep), t.nextId))
  }

  /** A delete keeps the storage engine's guarantees. */
  lemma RemoveOwnedWellFormed(t: Table, c: Constraints, s: Session, id: Value)
    requires WellFormed(t, c) && RemoveOwned(t, s, id).Ok?
    ensures WellFormed(RemoveOwned(t, s, id).value, c)
  {
    if s.loggedIn {
      FilterWellFormed(t, c, x => !Targets(x, id, s.userId));
    }
  }

  /** Another user's rows, in their storage order, survive any delete by the caller. */
  lemma RemoveOwnedIsolated(t: Table, a: Session, b: Session, id: Value, order: Option<Column>)
    requires RemoveOwned(t, a, id).Ok?
    requires !SqlEq(b.userId, a.userId)
    ensures Select(RemoveOwned(t, a, id).value, b, order) == Select(t, b, order)
  {
    if a.loggedIn {
      var keep := x => !Targets(x, id, a.userId);
      forall x | x in t.rows && UserId in x && SqlEq(x[UserId], b.userId) ensures keep(x) {
        if SqlEq(x[UserId], a.userId) {
          SqlEqSymmetric(x[UserId], b.userId);
          SqlEqTransitive(b.userId, x[UserId], a.userId);
        }
      }
      WhereFilter(t.rows, keep, UserId, b.userId);
      SelectSameOwned(t, RemoveOwned(t, a, id).value, b, order);
    }
  }

  // ---------------------------------------------------------------------------
  // update_savings_goal: `UPDATE savings_goals SET ... WHERE id = ? AND user_id = ?`
  // ---------------------------------------------------------------------------

  /** The keyword arguments of update_savings_goal; NULL stands for Python's None (not passed). */
  datatype GoalChanges = GoalChanges(goalName: Value, targetAmount: Value, currentAmount: Value, deadline: Value, note: Value)

  /** The columns update_savings_goal may set. */
  const GoalFields: set<Column> := {GoalName, TargetAmount, CurrentAmount, Deadline, Note}

  /** The argument passed for a column. */
  function Given(ch: GoalChanges, f: Column): Value {
    match f
    case GoalName => ch.goalName
    case TargetAmount => ch.targetAmount
    case CurrentAmount => ch.currentAmount
    case Deadline => ch.deadline
    case Note => ch.note
    case _ => Null
  }

  /** The SET list: one assignment per argument that is not None. */
  function Assignments(ch: GoalChanges): (r: Row)
    ensures r.Keys <= GoalFields
    ensures forall f :: f in GoalFields ==> Get(r, f, Null) == Given(ch, f)
    ensures r == map[] <==> ch == GoalChanges(Null, Null, Null, Null, Null)
  {
    var r := map f | f in GoalFields && Given(ch, f) != Null :: Given(ch, f);
    assert ch.goalName != Null ==> GoalName in r;
    assert ch.targetAmount != Null ==> TargetAmount in r;
    assert ch.currentAmount != Null ==> CurrentAmount in r;
    assert ch.deadline != Null ==> Deadline in r;
    assert ch.note != Null ==> Note in r;
    r
  }

  /** The lists hold one entry per argument among `done` that is not None, each column once. */
  ghost predicate Collected(ch: GoalChanges, done: set<Column>, columns: seq<Column>, params: seq<Value>) {
    && |columns| == |params|
    && (forall i :: 0 <= i < |columns| ==> columns[i] in done && Given(ch, columns[i]) != Null && params[i] == Given(ch, columns[i]))
    && (forall f :: f in done && Given(ch, f) != Null ==> f in columns)
    && (forall i, j :: 0 <= i < j < |columns| ==> columns[i] != columns[j])
  }

  /** One `if x is not None: updates.append(...); params.append(x)` step. */
  method AppendGiven(ch: GoalChanges, f: Column, ghost done: set<Column>, columns: seq<Column>, params: seq<Value>)
    returns (columns': seq<Column>, params': seq<Value>)
    requires Collected(ch, done, columns, params) && f !in done
    ensures Collected(ch, done + {f}, columns', params')
  {
    if Given(ch, f) != Null {
      columns', params' := columns + [f], params + [Given(ch, f)];
    } else {
      columns', params' := columns, params;
    }
  }

  /**
   * The `updates` and `params` lists update_savings_goal builds: one column and
   * its value per argument that is not None, each column once.
   */
  method CollectAssignments(ch: GoalChanges) returns (columns: seq<Column>, params: seq<Value>)
    ensures |columns| == |params|
    ensures forall i :: 0 <= i < |columns| ==> columns[i] in Assignments(ch) && params[i] == Assignments(ch)[columns[i]]
    ensures forall f :: f in Assignments(ch) ==> f in columns
    ensures forall i, j :: 0 <= i < j < |columns| ==> columns[i] != columns[j]
  {
    columns, params := [], [];
    columns, params := AppendGiven(ch, GoalName, {}, columns, params);
    columns, params := AppendGiven(ch, TargetAmount, {GoalName}, columns, params);
    columns, params := AppendGiven(ch, CurrentAmount, {GoalName, TargetAmount}, columns, params);
    columns, params := AppendGiven(ch, Deadline, {GoalName, TargetAmount, CurrentAmount}, columns, params);
    columns, params := AppendGiven(ch, Note, {GoalName, TargetAmount, CurrentAmount, Deadline}, columns, params);
    assert {GoalName, TargetAmount, CurrentAmount, Deadline} + {Note} == GoalFields;
    CollectedAll(ch, columns, params);
  }

  lemma CollectedAll(ch: GoalChanges, columns: seq<Column>, params: seq<Value>)
    requires Collected(ch, GoalFields, columns, params)
    ensures forall i :: 0 <= i < |columns| ==> columns[i] in Assignments(ch) && params[i] == Assignments(ch)[columns[i]]
    ensures forall f :: f in Assignments(ch) ==> f in columns
  {
    var r := Assignments(ch);
    forall i | 0 <= i < |columns| ensures columns[i] in r && params[i] == r[columns[i]] {
      assert Get(r, columns[i], Null) == Given(ch, columns[i]);
    }
    forall f | f in r ensures f in columns {
      assert Get(r, f, Null) == Given(ch, f);
    }
  }

  /** Each targeted row takes the updates values; every other row is left as it is. */
  function Patch(rows: seq<Row>, id: Value, uid: Value, updates: Row): (r: seq<Row>)
    ensures |r| == |rows|
    ensures forall i :: 0 <= i < |rows| ==> r[i] == if Targets(rows[i], id, uid) then rows[i] + updates else rows[i]
  {
    if rows == [] then []
    else [if Targets(rows[0], id, uid) then rows[0] + updates else rows[0]] + Patch(rows[1..], id, uid, updates)
  }

  /**
   * update_savings_goal: a no-op when logged out or when every argument is
   * None; otherwise one UPDATE of the named columns on the caller's goal.
   */
  function UpdateSavingsGoal(t: Table, s: Session, goalId: Value, ch: GoalChanges): (r: Result<Table>)
    ensures !s.loggedIn || ch == GoalChanges(Null, Null, Null, Null, Null) ==> r == Ok(t)
    ensures r.Ok? ==> r.value.columns == t.columns && r.value.nextId == t.nextId && |r.value.rows| == |t.rows|
  {
    var updates := Assignments(ch);
    if !s.loggedIn || updates == map[] then Ok(t)
    else if !(updates.Keys + {Id, UserId} <= t.columns) then Err(OperationalError)
    else Ok(Table(t.columns, Patch(t.rows, goalId, s.userId, updates), t.nextId))
  }

  /** The value a column ends up with: the argument when it was passed, the stored value otherwise. */
  function Updated(given: Value, stored: Value): Value {
    if given != Null then given else stored
  }

  /**
   * Row by row: the caller's goal with that id takes every passed argument and
   * keeps every other column; all other rows are unchanged.
   */
  lemma UpdateSavingsGoalFields(t: Table, s: Session, goalId: Value, ch: GoalChanges, i: int)
    requires UpdateSavingsGoal(t, s, goalId, ch).Ok? && 0 <= i < |t.rows|
    ensures var before, after := t.rows[i], UpdateSavingsGoal(t, s, goalId, ch).value.rows[i];
      if s.loggedIn && Targets(before, goalId, s.userId) then
        && after.Keys == before.Keys + Assignments(ch).Keys
        && (forall f :: f in GoalFields ==> Get(after, f, Null) == Updated(Given(ch, f), Get(before, f, Null)))
        && (forall col :: col in before && col !in GoalFields ==> after[col] == before[col])
      else after == before
  {
    var updates := Assignments(ch);
    if s.loggedIn && updates != map[] && Targets(t.rows[i], goalId, s.userId) {
      var before, after := t.rows[i], UpdateSavingsGoal(t, s, goalId, ch).value.rows[i];
      assert after == before + updates;
      forall f | f in GoalFields ensures Get(after, f, Null) == Updated(Given(ch, f), Get(before, f, Null)) {
        assert Get(updates, f, Null) == Given(ch, f);
      }
    }
  }

  /** An update keeps the storage engine's guarantees: it never touches the id and adds no column. */
  lemma UpdateSavingsGoalWellFormed(t: Table, s: Session, goalId: Value, ch: GoalChanges)
    requires WellFormed(t, GoalConstraints) && UpdateSavingsGoal(t, s, goalId, ch).Ok?
    ensures WellFormed(UpdateSavingsGoal(t, s, goalId, ch).value, GoalConstraints)
  {
    var rows := UpdateSavingsGoal(t, s, goalId, ch).value.rows;
    forall i | 0 <= i < |rows| ensures rows[i].Keys == t.columns && (Id in rows[i] ==> rows[i][Id] == t.rows[i][Id]) {
    }
  }

  /** Patching the caller's rows never changes who owns a row. */
  lemma {:induction false} PatchOwners(rows: seq<Row>, id: Value, uid: Value, updates: Row, v: Value)
    requires UserId !in updates
    requires !SqlEq(v, uid)
    ensures Where(Patch(rows, id, uid, updates), UserId, v) == Where(rows, UserId, v)
  {
    if rows != [] {
      PatchOwners(rows[1..], id, uid, updates, v);
      var p := Patch(rows, id, uid, updates);
      assert p[1..] == Patch(rows[1..], id, uid, updates);
      if Targets(rows[0], id, uid) && UserId in rows[0] && SqlEq(rows[0][UserId], v) {
        SqlEqSymmetric(rows[0][UserId], v);
        SqlEqTransitive(v, rows[0][UserId], uid);
      }
    }
  }

  /** Another user's goals are untouched by update_savings_goal. */
  lemma UpdateSavingsGoalIsolated(t: Table, a: Session, b: Session, goalId: Value, ch: GoalChanges)
    requires UpdateSavingsGoal(t, a, goalId, ch).Ok?
    requires !SqlEq(b.userId, a.userId)
    ensures Select(UpdateSavingsGoal(t, a, goalId, ch).value, b, Some(CreatedAt)) == Select(t, b, Some(CreatedAt))
  {
    var updates := Assignments(ch);
    if a.loggedIn && updates != map[] {
      PatchOwners(t.rows, goalId, a.userId, updates, b.userId);
      SelectSameOwned(t, UpdateSavingsGoal(t, a, goalId, ch).value, b, Some(CreatedAt));
    }
  }

  // ---------------------------------------------------------------------------
  // the investor profile: `REPLACE INTO user_profile` and its read-back
  // ---------------------------------------------------------------------------

  /** What get_user_profile shows a visitor with no stored profile. */
  const DefaultProfile: Row := map[UserType := Text("general"), SavingsGoal := Real(0.0), RiskTolerance := Text("moderate")]

  function ProfileValues(s: Session, userType: Value, savingsGoal: Value, riskTolerance: Value): Row {
    map[UserId := s.userId, UserType := userType, SavingsGoal := savingsGoal, RiskTolerance := riskTolerance]
  }

  /** save_user_profile: a no-op when logged out; otherwise REPLACE the caller's profile row. */
  function SaveProfile(t: Table, s: Session, userType: Value, savingsGoal: Value, riskTolerance: Value): (r: Result<Table>)
    ensures !s.loggedIn ==> r == Ok(t)
  {
    if !s.loggedIn then Ok(t) else Replace(t, ProfileConstraints, ProfileValues(s, userType, savingsGoal, riskTolerance))
  }

  /**
   * get_user_profile: the defaults when logged out or when the caller has no
   * profile row, otherwise the first row stored for the caller.
   */
  function GetProfile(t: Table, s: Session): (r: Result<Row>)
    ensures !s.loggedIn ==> r == Ok(DefaultProfile)
    ensures s.loggedIn ==> (r.Err? <==> UserId !in t.columns)
    ensures s.loggedIn && r.Ok? ==>
      if exists i :: 0 <= i < |t.rows| && Owns(t.rows[i], s.userId)
      then r.value in t.rows && Owns(r.value, s.userId)
      else r.value == DefaultProfile
  {
    if !s.loggedIn then Ok(DefaultProfile)
    else if UserId !in t.columns then Err(OperationalError)
    else
      var mine := Where(t.rows, UserId, s.userId);
      assert mine == [] ==> forall i :: 0 <= i < |t.rows| ==> t.rows[i] !in mine;
      if mine == [] then Ok(DefaultProfile) else Ok(mine[0])
  }

  /** The rows REPLACE keeps when it stores the completed row `row`. */
  lemma ReplaceKeeps(t: Table, c: Constraints, vals: Row)
    requires vals.Keys <= t.columns
    ensures !Clashes(Filter(t.rows, x => !ClashesWith(x, c, Complete(t.columns, vals))), c, Complete(t.columns, vals))
  {
    var row := Complete(t.columns, vals);
    var kept := Filter(t.rows, x => !ClashesWith(x, c, row));
    forall i, col | 0 <= i < |kept| && col in c.unique && col in row && col in kept[i]
      ensures !SqlEq(kept[i][col], row[col])
    {
      assert kept[i] in kept;
    }
  }

  /**
   * Saving a profile and reading it back: the caller then has exactly one
   * profile row, holding what was saved.
   */
  lemma SaveProfileRoundTrip(t: Table, s: Session, userType: Value, savingsGoal: Value, riskTolerance: Value)
    requires t.columns == ProfileColumns && s.loggedIn && s.userId.Int?
    ensures SaveProfile(t, s, userType, savingsGoal, riskTolerance).Ok?
    ensures var t' := SaveProfile(t, s, userType, savingsGoal, riskTolerance).value;
      && Where(t'.rows, UserId, s.userId) == [ProfileValues(s, userType, savingsGoal, riskTolerance)]
      && GetProfile(t', s) == Ok(ProfileValues(s, userType, savingsGoal, riskTolerance))
  {
    SaveProfileStored(t, s, ProfileValues(s, userType, savingsGoal, riskTolerance));
  }

  /** After the REPLACE, the caller's only profile row is the one just written. */
  lemma SaveProfileStored(t: Table, s: Session, vals: Row)
    requires t.columns == ProfileColumns && s.userId.Int?
    requires vals.Keys == ProfileColumns && vals[UserId] == s.userId
    ensures Replace(t, ProfileConstraints, vals).Ok?
    ensures Where(Replace(t, ProfileConstraints, vals).value.rows, UserId, s.userId) == [vals]
  {
    var row := Complete(t.columns, vals);
    assert row == vals;
    var keep := x => !ClashesWith(x, ProfileConstraints, row);
    var kept := Filter(t.rows, keep);
    ReplaceKeeps(t, ProfileConstraints, vals);
    assert !Violates(Table(t.columns, kept, t.nextId), ProfileConstraints, row);
    assert Replace(t, ProfileConstraints, vals).value.rows == kept + [row];
    forall x | x in t.rows && keep(x) ensures !(UserId in x && SqlEq(x[UserId], s.userId)) {
    }
    WhereFilterNone(t.rows, keep, UserId, s.userId);
    WhereAppend(kept, row, UserId, s.userId);
  }

  /** Another user's profile reads back the same after the caller saves theirs. */
  lemma SaveProfileIsolated(t: Table, a: Session, b: Session, userType: Value, savingsGoal: Value, riskTolerance: Value)
    requires SaveProfile(t, a, userType, savingsGoal, riskTolerance).Ok?
    requires a.userId != Null && !SqlEq(b.userId, a.userId)
    ensures GetProfile(SaveProfile(t, a, userType, savingsGoal, riskTolerance).value, b) == GetProfile(t, b)
  {
    if a.loggedIn {
      var vals := ProfileValues(a, userType, savingsGoal, riskTolerance);
      var row := Complete(t.columns, vals);
      var keep := x => !ClashesWith(x, ProfileConstraints, row);
      var kept := Filter(t.rows, keep);
      var t' := SaveProfile(t, a, userType, savingsGoal, riskTolerance).value;
      assert t'.rows == kept + [row];
      forall x | x in t.rows && UserId in x && SqlEq(x[UserId], b.userId) ensures keep(x) {
        if SqlEq(x[UserId], row[UserId]) {
          SqlEqSymmetric(x[UserId], b.userId);
          SqlEqTransitive(b.userId, x[UserId], a.userId);
        }
      }
      WhereFilter(t.rows, keep, UserId, b.userId);
      SqlEqSymmetric(b.userId, a.userId);
      WhereAppend(kept, row, UserId, b.userId);
    }
  }

  // ---------------------------------------------------------------------------
  // config: `REPLACE INTO config (key, value)` and `SELECT value ... WHERE key = ?`
  // ---------------------------------------------------------------------------

  /** set_config: store `value` under `key`, replacing any row with an equal key. */
  function SetConfig(t: Table, key: Value, value: Value): (r: Result<Table>)
    ensures r.Ok? <==> Key in t.columns && Val in t.columns
  {
    var vals := map[Key := key, Val := value];
    ConfigReplaceSucceeds(t, vals);
    Replace(t, ConfigConstraints, vals)
  }

  /** The config REPLACE fails only on a missing column: it deletes the clashing row before inserting. */
  lemma ConfigReplaceSucceeds(t: Table, vals: Row)
    ensures Replace(t, ConfigConstraints, vals).Ok? <==> vals.Keys <= t.columns
  {
    if vals.Keys <= t.columns {
      ReplaceKeeps(t, ConfigConstraints, vals);
      var kept := Table(t.columns, Filter(t.rows, x => !ClashesWith(x, ConfigConstraints, Complete(t.columns, vals))), t.nextId);
      assert StoredRow(kept, ConfigConstraints, vals) == Complete(t.columns, vals);
      assert !Violates(kept, ConfigConstraints, StoredRow(kept, ConfigConstraints, vals));
    }
  }

  /** get_config: the value of the first row with that key, None (NULL) when there is none. */
  function GetConfig(t: Table, key: Value): (r: Result<Value>)
    ensures r.Err? <==> !(Key in t.columns && Val in t.columns)
    ensures r.Ok? && (forall x :: x in t.rows ==> !(Key in x && SqlEq(x[Key], key))) ==> r.value == Null
  {
    if Key !in t.columns || Val !in t.columns then Err(OperationalError)
    else
      var found := Where(t.rows, Key, key);
      if found == [] then Ok(Null)
      else
        assert found[0] in found;
        Ok(Get(found[0], Val, Null))
  }

  /** Reading a key back after setting it gives the value updates; other keys read as before. */
  lemma ConfigRoundTrip(t: Table, key: Value, value: Value, other: Value)
    requires t.columns == ConfigColumns && key != Null
    requires !SqlEq(other, key)
    ensures SetConfig(t, key, value).Ok?
    ensures GetConfig(SetConfig(t, key, value).value, key) == Ok(value)
    ensures GetConfig(SetConfig(t, key, value).value, other) == GetConfig(t, other)
  {
    var vals := map[Key := key, Val := value];
    var row := Complete(t.columns, vals);
    assert row == vals;
    var keep := x => !ClashesWith(x, ConfigConstraints, row);
    var kept := Filter(t.rows, keep);
    ReplaceKeeps(t, ConfigConstraints, vals);
    assert !Violates(Table(t.columns, kept, t.nextId), ConfigConstraints, row);
    var t' := SetConfig(t, key, value).value;
    assert t'.rows == kept + [row];
    forall x | x in t.rows && keep(x) ensures !(Key in x && SqlEq(x[Key], key)) {
    }
    WhereFilterNone(t.rows, keep, Key, key);
    WhereAppend(kept, row, Key, key);
    forall x | x in t.rows && Key in x && SqlEq(x[Key], other) ensures keep(x) {
      if SqlEq(x[Key], key) {
        SqlEqSymmetric(x[Key], other);
        SqlEqTransitive(other, x[Key], key);
      }
    }
    WhereFilter(t.rows, keep, Key, other);
    SqlEqSymmetric(other, key);
    WhereAppend(kept, row, Key, other);
  }
}
