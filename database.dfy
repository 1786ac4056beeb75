/**
 * The finance tracker's SQLite file as one object: init_db brings an existing
 * file (or none) to the current schema, and every helper that writes applies
 * one statement to one of the six tables in place. The Streamlit session, the
 * clock and the password digest are passed in.
 */
module Persistence {
  import opened Sql
  import opened Catalog
  import opened Migration
  import Store
  import Identity

  /** What a writing helper returns: nothing, or the exception its statement raised. */
  function Done(next: Result<Table>): Result<()> {
    if next.Ok? then Ok(()) else Err(next.error)
  }

  /** The table a writing helper leaves: the new one on success, the old one when the statement failed. */
  function Applied(next: Result<Table>, current: Table): Table {
    if next.Ok? then next.value else current
  }

  class Database {
    var users: Table
    var profiles: Table
    var transactions: Table
    var holdings: Table
    var goals: Table
    var config: Table

    constructor (users: Table, profiles: Table, transactions: Table, holdings: Table, goals: Table, config: Table)
      ensures this.users == users && this.profiles == profiles && this.transactions == transactions
      ensures this.holdings == holdings && this.goals == goals && this.config == config
    {
      this.users := users;
      this.profiles := profiles;
      this.transactions := transactions;
      this.holdings := holdings;
      this.goals := goals;
      this.config := config;
    }

    /** The file's contents, with every table present. */
    ghost function State(): Tables
      reads this
    {
      Tables(Some(users), Some(profiles), Some(transactions), Some(holdings), Some(goals), Some(config))
    }

    /**
     * What init_db establishes and every helper keeps: the storage engine's
     * guarantees on each table, the migrated schema, and no two users sharing
     * a username or a non-NULL email.
     */
    ghost predicate Valid()
      reads this
    {
      && TablesWellFormed(State())
      && Migrated(State())
      && UniqueValues(users.rows, UserConstraints)
    }

    /**
     * init_db: open the file as found, migrate each table in turn, commit. An
     * error is returned with no object; what the program leaves in the file on
     * an error is not modelled.
     */
    static method InitDb(found: Tables, hash: string -> string, now: string) returns (r: Result<Database>)
      requires KeptWellFormed(found)
      requires found.users.Some? && UsersCurrent(found.users.value) ==> UniqueValues(found.users.value.rows, UserConstraints)
      ensures r.Err? ==> InitDbSpec(found, hash, now) == Err(r.error)
      ensures r.Ok? ==> fresh(r.value) && r.value.Valid() && InitDbSpec(found, hash, now) == Ok(r.value.State())
    {
      var users := RebuildUsers(found.users, hash, now);
      if users.Err? {
        return Err(users.error);
      }
      var profiles := RebuildProfiles(found.profiles, users.value);
      if profiles.Err? {
        return Err(profiles.error);
      }
      var transactions := RebuildOwned(Transactions, found.transactions, users.value, now);
      if transactions.Err? {
        return Err(transactions.error);
      }
      var holdings := RebuildOwned(Holdings, found.holdings, users.value, now);
      if holdings.Err? {
        return Err(holdings.error);
      }
      var db := new Database(users.value, profiles.value, transactions.value, holdings.value,
                             CreateIfMissing(found.goals, GoalColumns), CreateIfMissing(found.config, ConfigColumns));
      InitDbWellFormed(found, hash, now);
      InitUsersUnique(found.users, hash, now);
      return Ok(db);
    }

    /** register_user, all-or-nothing: the users row and the default profile row are written together or not at all. */
    method RegisterUser(username: Value, password: string, email: Value, hash: string -> string, now: string)
      returns (outcome: Identity.Registration)
      requires Valid()
      modifies this
      ensures Valid()
      ensures var (after, answer) := Identity.Register(Identity.Accounts(old(users), old(profiles)), username, password, email, hash, now);
        && outcome == answer
        && State() == old(State()).(users := Some(after.users), profiles := Some(after.profiles))
    {
      var a := Identity.Accounts(users, profiles);
      var (after, answer) := Identity.Register(a, username, password, email, hash, now);
      Identity.RegisterKeepsUnique(a, username, password, email, hash, now);
      users := after.users;
      profiles := after.profiles;
      outcome := answer;
    }

    /** set_config */
    method SetConfig(key: Value, value: Value) returns (r: Result<()>)
      requires Valid()
      modifies this
      ensures Valid()
      ensures var next := Store.SetConfig(old(config), key, value);
        r == Done(next) && config == Applied(next, old(config))
      ensures State() == old(State()).(config := Some(config))
    {
      var next := Store.SetConfig(config, key, value);
      if next.Ok? {
        ReplaceWellFormed(config, ConfigConstraints, map[Key := key, Val := value]);
        config := next.value;
      }
      r := Done(next);
    }

    /** add_holding */
    method AddHolding(s: Store.Session, symbol: string, shares: Value, avgPrice: Value, now: string) returns (r: Result<()>)
      requires Valid()
      modifies this
      ensures Valid()
      ensures var next := Store.AddHolding(old(holdings), s, symbol, shares, avgPrice, now);
        r == Done(next) && holdings == Applied(next, old(holdings))
      ensures State() == old(State()).(holdings := Some(holdings))
    {
      var next := Store.AddHolding(holdings, s, symbol, shares, avgPrice, now);
      if next.Ok? {
        if s.loggedIn {
          InsertWellFormed(holdings, HoldingConstraints, Store.HoldingValues(s, symbol, shares, avgPrice, now));
        }
        holdings := next.value;
      }
      r := Done(next);
    }

    /** remove_holding */
    method RemoveHolding(s: Store.Session, id: Value) returns (r: Result<()>)
      requires Valid()
      modifies this
      ensures Valid()
      ensures var next := Store.RemoveOwned(old(holdings), s, id);
        r == Done(next) && holdings == Applied(next, old(holdings))
      ensures State() == old(State()).(holdings := Some(holdings))
    {
      var next := Store.RemoveOwned(holdings, s, id);
      if next.Ok? {
        Store.RemoveOwnedWellFormed(holdings, HoldingConstraints, s, id);
        holdings := next.value;
      }
      r := Done(next);
    }

    /** add_transaction */
    method AddTransaction(s: Store.Session, tdate: Value, ttype: Value, category: Value, amount: Value, note: Value)
      returns (r: Result<()>)
      requires Valid()
      modifies this
      ensures Valid()
      ensures var next := Store.AddTransaction(old(transactions), s, tdate, ttype, category, amount, note);
        r == Done(next) && transactions == Applied(next, old(transactions))
      ensures State() == old(State()).(transactions := Some(transactions))
    {
      var next := Store.AddTransaction(transactions, s, tdate, ttype, category, amount, note);
      if next.Ok? {
        if s.loggedIn {
          InsertWellFormed(transactions, TransactionConstraints, Store.TransactionValues(s, tdate, ttype, category, amount, note));
        }
        transactions := next.value;
      }
      r := Done(next);
    }

    /** remove_transaction */
    method RemoveTransaction(s: Store.Session, id: Value) returns (r: Result<()>)
      requires Valid()
      modifies this
      ensures Valid()
      ensures var next := Store.RemoveOwned(old(transactions), s, id);
        r == Done(next) && transactions == Applied(next, old(transactions))
      ensures State() == old(State()).(transactions := Some(transactions))
    {
      var next := Store.RemoveOwned(transactions, s, id);
      if next.Ok? {
        Store.RemoveOwnedWellFormed(transactions, TransactionConstraints, s, id);
        transactions := next.value;
      }
      r := Done(next);
    }

    /** save_user_profile */
    method SaveUserProfile(s: Store.Session, userType: Value, savingsGoal: Value, riskTolerance: Value) returns (r: Result<()>)
      requires Valid()
      modifies this
      ensures Valid()
      ensures var next := Store.SaveProfile(old(profiles), s, userType, savingsGoal, riskTolerance);
        r == Done(next) && profiles == Applied(next, old(profiles))
      ensures State() == old(State()).(profiles := Some(profiles))
    {
      var next := Store.SaveProfile(profiles, s, userType, savingsGoal, riskTolerance);
      if next.Ok? {
        if s.loggedIn {
          ReplaceWellFormed(profiles, ProfileConstraints, Store.ProfileValues(s, userType, savingsGoal, riskTolerance));
        }
        profiles := next.value;
      }
      r := Done(next);
    }

    /** add_savings_goal */
    method AddSavingsGoal(s: Store.Session, goalName: Value, targetAmount: Value, deadline: Value, note: Value, now: string)
      returns (r: Result<()>)
      requires Valid()
      modifies this
      ensures Valid()
      ensures var next := Store.AddSavingsGoal(old(goals), s, goalName, targetAmount, deadline, note, now);
        r == Done(next) && goals == Applied(next, old(goals))
      ensures State() == old(State()).(goals := Some(goals))
    {
      var next := Store.AddSavingsGoal(goals, s, goalName, targetAmount, deadline, note, now);
      if next.Ok? {
        if s.loggedIn {
          InsertWellFormed(goals, GoalConstraints, Store.GoalValues(s, goalName, targetAmount, deadline, note, now));
        }
        goals := next.value;
      }
      r := Done(next);
    }

    /** update_savings_goal: nothing when logged out or when the SET list it collects is empty. */
    method UpdateSavingsGoal(s: Store.Session, goalId: Value, changes: Store.GoalChanges) returns (r: Result<()>)
      requires Valid()
      modifies this
      ensures Valid()
      ensures var next := Store.UpdateSavingsGoal(old(goals), s, goalId, changes);
        r == Done(next) && goals == Applied(next, old(goals))
      ensures State() == old(State()).(goals := Some(goals))
    {
      if !s.loggedIn {
        return Ok(());
      }
      var columns, params := Store.CollectAssignments(changes);
      if columns == [] {
        assert Store.Assignments(changes) == map[];
        return Ok(());
      }
      var next := Store.UpdateSavingsGoal(goals, s, goalId, changes);
      if next.Ok? {
        Store.UpdateSavingsGoalWellFormed(goals, s, goalId, changes);
        goals := next.value;
      }
      r := Done(next);
    }

    /** remove_savings_goal */
    method RemoveSavingsGoal(s: Store.Session, id: Value) returns (r: Result<()>)
      requires Valid()
      modifies this
      ensures Valid()
      ensures var next := Store.RemoveOwned(old(goals), s, id);
        r == Done(next) && goals == Applied(next, old(goals))
      ensures State() == old(State()).(goals := Some(goals))
    {
      var next := Store.RemoveOwned(goals, s, id);
      if next.Ok? {
        Store.RemoveOwnedWellFormed(goals, GoalConstraints, s, id);
        goals := next.value;
      }
      r := Done(next);
    }
  }
}
