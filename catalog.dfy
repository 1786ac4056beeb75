/**
 * The target schema of the finance tracker's six tables, as init_db creates
 * them, and the column-presence tests init_db uses to decide whether an
 * existing table must be rebuilt.
 */
module Catalog {
  import opened Sql

  const UserColumns: set<Column> := {Id, Username, PasswordHash, Email, CreatedAt}
  const ProfileColumns: set<Column> := {UserId, UserType, SavingsGoal, RiskTolerance}
  const TransactionColumns: set<Column> := {Id, UserId, TDate, TType, Category, Amount, Note}
  const HoldingColumns: set<Column> := {Id, UserId, Symbol, Shares, AvgPrice, AddedAt}
  const GoalColumns: set<Column> := {Id, UserId, GoalName, TargetAmount, CurrentAmount, Deadline, Note, CreatedAt}
  const ConfigColumns: set<Column> := {Key, Val}

  /** `id INTEGER PRIMARY KEY AUTOINCREMENT, username TEXT NOT NULL UNIQUE, email TEXT UNIQUE` */
  const UserConstraints := Constraints(Some(Id), {Username}, {Id, Username, Email})
  /** `user_id INTEGER PRIMARY KEY` */
  const ProfileConstraints := Constraints(Some(UserId), {}, {UserId})
  /** `id INTEGER PRIMARY KEY AUTOINCREMENT` */
  const TransactionConstraints := Constraints(Some(Id), {}, {Id})
  /** `id INTEGER PRIMARY KEY AUTOINCREMENT, symbol TEXT NOT NULL, shares REAL NOT NULL` */
  const HoldingConstraints := Constraints(Some(Id), {Symbol, Shares}, {Id})
  /** `id INTEGER PRIMARY KEY AUTOINCREMENT, goal_name TEXT NOT NULL, target_amount REAL NOT NULL` */
  const GoalConstraints := Constraints(Some(Id), {GoalName, TargetAmount}, {Id})
  /** `key TEXT PRIMARY KEY` (not a row id alias) */
  const ConfigConstraints := Constraints(None, {}, {Key})

  /** The users table is current when it has both `id` and `password_hash`. */
  predicate UsersCurrent(t: Table) {
    Id in t.columns && PasswordHash in t.columns
  }

  /** user_profile, transactions and holdings are current when they have `user_id`. */
  predicate OwnedCurrent(t: Table) {
    UserId in t.columns
  }

  /** The whole database: each table present or absent. */
  datatype Tables = Tables(
    users: Option<Table>,
    profiles: Option<Table>,
    transactions: Option<Table>,
    holdings: Option<Table>,
    goals: Option<Table>,
    config: Option<Table>)

  ghost predicate PresentWellFormed(t: Option<Table>, c: Constraints) {
    t.Some? ==> WellFormed(t.value, c)
  }

  /** Every table that exists meets the storage engine's guarantees under its declared constraints. */
  ghost predicate TablesWellFormed(s: Tables) {
    && PresentWellFormed(s.users, UserConstraints)
    && PresentWellFormed(s.profiles, ProfileConstraints)
    && PresentWellFormed(s.transactions, TransactionConstraints)
    && PresentWellFormed(s.holdings, HoldingConstraints)
    && PresentWellFormed(s.goals, GoalConstraints)
    && PresentWellFormed(s.config, ConfigConstraints)
  }

  /**
   * The tables init_db keeps as found meet the storage engine's guarantees:
   * users once it has `id` and `password_hash`, the per-user tables once they
   * have `user_id`, savings_goals and config always. A legacy table that init_db
   * rebuilds is read row by row and may hold anything.
   */
  ghost predicate KeptWellFormed(s: Tables) {
    && (s.users.Some? && UsersCurrent(s.users.value) ==> WellFormed(s.users.value, UserConstraints))
    && (s.profiles.Some? && OwnedCurrent(s.profiles.value) ==> WellFormed(s.profiles.value, ProfileConstraints))
    && (s.transactions.Some? && OwnedCurrent(s.transactions.value) ==> WellFormed(s.transactions.value, TransactionConstraints))
    && (s.holdings.Some? && OwnedCurrent(s.holdings.value) ==> WellFormed(s.holdings.value, HoldingConstraints))
    && PresentWellFormed(s.goals, GoalConstraints)
    && PresentWellFormed(s.config, ConfigConstraints)
  }

  /** What init_db establishes: every table exists, and the four migrated ones pass their guard. */
  predicate Migrated(s: Tables) {
    && s.users.Some? && UsersCurrent(s.users.value)
    && s.profiles.Some? && OwnedCurrent(s.profiles.value)
    && s.transactions.Some? && OwnedCurrent(s.transactions.value)
    && s.holdings.Some? && OwnedCurrent(s.holdings.value)
    && s.goals.Some?
    && s.config.Some?
  }
}
