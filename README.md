# Finance tracker persistence, in Dafny

This project models the storage layer of the personal-finance tracker
`financeapp.py`. That layer is everything the Streamlit pages call to reach
the SQLite file:

- `init_db`, which migrates an older database file (or none) to the current
  schema of six tables: `users`, `user_profile`, `transactions`, `holdings`,
  `savings_goals` and `config`;
- account registration and login;
- the config key/value store;
- the per-user create/read/update/delete helpers for holdings, transactions,
  the investor profile and savings goals.

The files, one module each:

| file | module | what it holds |
|---|---|---|
| `sql.dfy` | `Sql` | The few SQLite features the application relies on. Cells are dynamically typed (`Value`). Columns are discovered at run time (`Table.columns`). It covers rowid allocation, `NOT NULL`/`UNIQUE`/`PRIMARY KEY` checks on `INSERT`, `REPLACE`, and SQL `=` in `WHERE`. |
| `catalog.dfy` | `Catalog` | The six table layouts and their constraints, copied from the `CREATE TABLE` statements. It also defines what "already migrated" means. |
| `migration.dfy` | `Migration` | `init_db`. For each table there is a specification function and the imperative method that copies legacy rows one at a time into the shadow table. |
| `ordering.dfy` | `Ordering` | SQLite's ordering of values, and `ORDER BY … DESC` as a sort. |
| `store.dfy` | `Store` | The per-user helpers and `set_config`/`get_config`. Each is a function from the table it touches to the new table, or to the exception its statement raises. |
| `identity.dfy` | `Identity` | `register_user` and `login_user`. |
| `database.dfy` | `Persistence` | The database as a `Database` object with one field per table. `InitDb` builds it. Every writing helper is a method that updates its table in place and keeps the object's invariant. |
| `scenarios.dfy` | `Scenarios` | Worked cases on concrete data. |

Python's `None` is the `Null` value.

Three things in the program are not modelled from the inside:

- **Session.** The Streamlit session (`logged_in`, `user_id`) is passed in as a `Session` argument.
- **Clock.** `datetime.utcnow().isoformat()` is a `now` string argument.
- **Password digest.** `hash_password` (SHA-256, hex) is an arbitrary function `hash: string -> string`. The properties depend only on its being deterministic.

Every SQL error the program can hit is a `DbError`:

- `IntegrityError`: a NOT NULL, UNIQUE or PRIMARY KEY violation;
- `OperationalError`: a missing column;
- `AttributeError`: a legacy password that is truthy but not text, so Python's `.encode()` fails.

A helper that does not catch the error propagates it.

## Model

| member | source | states |
|---|---|---|
| Sql.Insert | financeapp.py:322-323 | An INSERT fails with OperationalError exactly when it names a column the table lacks. On success it appends one row holding every given non-NULL value. That row clashes with no stored row on a UNIQUE column, and the rowid counter never goes back. |
| Sql.InsertSucceeds | financeapp.py:269-272 | An INSERT into a table whose only UNIQUE column is its rowid succeeds when every NOT NULL value is present and the id is new (or NULL). |
| Sql.InsertWellFormed | financeapp.py:66-70 | An INSERT keeps the table's rowids integral, distinct and below the next rowid. |
| Sql.InsertUnique | financeapp.py:66-70 | An INSERT keeps every pair of rows apart on every UNIQUE column. |
| Sql.InsertAutoId | financeapp.py:325 | An INSERT that gives no rowid stores the row under the table's next rowid and bumps the counter by one; this is `lastrowid`. |
| Sql.Replace | financeapp.py:348 | REPLACE fails with OperationalError exactly when it names a column the table lacks. |
| Sql.ReplaceWellFormed | financeapp.py:419-420 | REPLACE keeps the table well formed and its columns unchanged. |
| Sql.Filter | financeapp.py:383 | The rows kept are exactly the stored rows the predicate accepts. |
| Sql.FilterCounts | financeapp.py:383 | Filtering keeps each accepted row as many times as it is stored and drops every other row. |
| Sql.FilterWellFormed | financeapp.py:410 | Deleting rows keeps a table well formed. |
| Sql.FilterUnique | financeapp.py:348 | Deleting rows keeps UNIQUE columns unique. |
| Sql.Where | financeapp.py:374 | `WHERE column = v` returns exactly the stored rows whose cell equals `v` under SQL `=`. A NULL cell never matches. |
| Sql.WhereCounts | financeapp.py:374 | `WHERE` keeps each matching row as many times as it is stored. |
| Sql.WhereAppend | financeapp.py:365-366 | Appending a row adds it to a `WHERE` result exactly when it matches. |
| Sql.WhereFilter | financeapp.py:383 | Deleting only non-matching rows leaves a `WHERE` result unchanged. |
| Sql.WhereHead | financeapp.py:338-339 | `fetchone` after a `WHERE` gives the first stored row that matches. |
| Sql.SqlEqSymmetric | financeapp.py:338 | SQL `=` is symmetric. |
| Sql.SqlEqTransitive | financeapp.py:338 | SQL `=` is transitive. |
| Ordering.ValueLeTotal | financeapp.py:401 | SQLite's ordering (NULL < numbers < text) is total. |
| Ordering.ValueLeTransitive | financeapp.py:401 | SQLite's ordering is transitive. |
| Ordering.TextLeTotal | financeapp.py:480 | The ordering of text is total. |
| Ordering.TextLeTransitive | financeapp.py:480 | The ordering of text is transitive. |
| Ordering.InsertDescSorted | financeapp.py:401 | Inserting a row into a list sorted descending keeps it sorted. |
| Ordering.OrderByDescSorted | financeapp.py:401 | `ORDER BY column DESC` returns the same rows, with the same counts, sorted descending on that column. |
| Ordering.OrderByDescOfSorted | financeapp.py:480 | Sorting rows that are already in descending order leaves them as they are. |
| Migration.CopyRows | financeapp.py:82-91 | Copying legacy rows into the shadow table keeps one row per legacy row, each holding exactly the shadow table's columns. |
| Migration.CopyRowsErrSticky | financeapp.py:82-91 | Once an INSERT of the copy loop raises, the rest of the loop does not run and the error is the result. |
| Migration.CopyRowsNumbers | financeapp.py:88-91 | Rows copied without an id are numbered 1, 2, … in the order read. |
| Migration.CopyRowsWellFormed | financeapp.py:64-72 | The shadow table the copy builds is well formed. |
| Migration.CopyRowsUnique | financeapp.py:66-70 | The shadow table has no two rows equal on a UNIQUE column. |
| Migration.CopyRowsSucceeds | financeapp.py:261-272 | The copy cannot fail when every NOT NULL value is present and the ids are all absent or all integral and distinct. |
| Migration.UserCopyRows | financeapp.py:82-91 | A successful users migration yields one row per legacy row, in order, with ids 1..n. Each row holds the legacy username and email, `hash(password)` when the legacy password is truthy (else NULL), and the legacy `created_at` (else `now`). |
| Migration.UserCopyFails | financeapp.py:82-91 | The users copy fails exactly when a legacy password is truthy but not text, a username is NULL, or two legacy rows share a username or a non-NULL email. |
| Migration.UsersMigratedFails | financeapp.py:73-91 | Rebuilding `users` fails exactly when the legacy table has none of the columns the SELECT reads, or when the copy above fails. |
| Migration.MigrateUsers | financeapp.py:73-93 | The loop over legacy users computes exactly the users migration. |
| Migration.ProfileRowsPaired | financeapp.py:135-146 | Legacy profile row i is paired with user id i, and rows beyond the last user are skipped. |
| Migration.ProfilesPaired | financeapp.py:128-146 | The profile migration always succeeds and yields `min(legacy rows, users)` rows. Row i carries the i-th user id and the legacy `user_type`/`savings_goal`/`risk_tolerance`, or general/0.0/moderate when the legacy table lacks them. |
| Migration.MigrateProfiles | financeapp.py:128-148 | The loop over legacy profiles computes exactly the profile migration. |
| Migration.OwnedMigratedRows | financeapp.py:189-209 | For a legacy table whose ids are distinct integers, with an owner, every legacy transaction or holding is copied in order, keeping its legacy id (or numbered from 1 when there is none), with `user_id` set to the owner and the documented defaults. |
| Migration.HoldingsMigratedFails | financeapp.py:241-272 | For a legacy holdings table whose ids are distinct integers, rebuilding it for an owner fails exactly when a legacy row has a NULL symbol or NULL shares. |
| Migration.LegacyIdsRefused | financeapp.py:261-272 | For any legacy transactions or holdings table, rebuilding it for an owner fails when a legacy id is not stored as an integer or two rows share an id. |
| Migration.MigrateOwned | financeapp.py:197-209 | The transactions and holdings loop computes exactly the owned-table migration. |
| Migration.CopyOwned | financeapp.py:261-272 | The per-row INSERT loop computes exactly the copy of the legacy rows. |
| Migration.OrphansDropped | financeapp.py:194-196 | With no first user (or a first id that is NULL or 0), a rebuilt transactions or holdings table is empty. |
| Migration.OwnedBackfilled | financeapp.py:194-209 | Rebuilding a legacy transactions or holdings table: with a first user whose id is truthy, every legacy row survives with `user_id` set to that id; without one, the table ends up empty. |
| Migration.LegacyUsersOwner | financeapp.py:82-91 | When users is itself rebuilt from a non-empty legacy table, its first account is renumbered to id 1, and id 1 becomes the default owner read at lines 194-196 and 258-260. |
| Migration.TransactionsPreserved | financeapp.py:194-209 | Through the whole init_db, whether users was current or legacy, a legacy transactions table keeps every row, owned by the first user of the users table init_db leaves. With no such user, it is emptied. |
| Migration.LegacyTransactionsToFirstAccount | financeapp.py:82-91 | When legacy users and legacy transactions are migrated in the same run, every transaction survives and belongs to user 1. |
| Migration.GoalsAndConfigKept | financeapp.py:288-309 | init_db passes an existing savings_goals or config table through exactly as found, even a savings_goals table without `user_id`. A missing one is created empty. |
| Migration.InitUsers | financeapp.py:49-103 | An absent users table is created empty. One that has `id` and `password_hash` is kept as it is. Whatever init_db leaves has both. |
| Migration.InitProfiles | financeapp.py:105-158 | An absent user_profile table is created empty. One that has `user_id` is kept. The result has `user_id`. |
| Migration.InitOwned | financeapp.py:160-286 | Likewise for transactions and holdings. |
| Migration.RebuildUsers | financeapp.py:49-103 | The users block of init_db computes InitUsers. |
| Migration.RebuildProfiles | financeapp.py:105-158 | The user_profile block computes InitProfiles. |
| Migration.RebuildOwned | financeapp.py:160-286 | The transactions and holdings blocks compute InitOwned. |
| Migration.InitDbSpec | financeapp.py:45-312 | When init_db commits, every table exists and users/profile/transactions/holdings carry their key columns. |
| Migration.InitDbFixedPoint | financeapp.py:63 | An already-migrated database is left exactly as it is, whatever the clock and digest. |
| Migration.InitDbIdempotent | financeapp.py:45-312 | Running init_db twice gives the same database as running it once. |
| Migration.InitDbWellFormed | financeapp.py:45-312 | init_db keeps every table well formed. |
| Migration.InitUsersUnique | financeapp.py:66-70 | After init_db no two users share a username or a non-NULL email. This holds for a rebuilt table with no assumption on the legacy rows, and for a kept table that already had this property. |
| Identity.RegisterAsWritten | financeapp.py:317-333 | register_user as written. A refusal always carries "Username or email already exists.", and the profile table changes only on success. |
| Identity.Register | financeapp.py:317-333 | All-or-nothing registration. It gives the same answer as the code, and when it does not register, both tables are left exactly as they were. |
| Identity.UserInsertRefused | financeapp.py:322-323 | The users INSERT fails only with IntegrityError. It fails exactly when the username is NULL or an existing user has the same username or the same non-NULL email. |
| Identity.ProfileInsertRefused | financeapp.py:326-327 | The default-profile INSERT fails (IntegrityError) exactly when a profile row already holds that user id. Otherwise it appends general/0.0/moderate for that id. |
| Identity.RegisterOutcome | financeapp.py:317-331 | Registration never raises. It is refused exactly when the username is NULL or taken, or the new id already has a profile. Otherwise it returns the next rowid, appends the account with the stored digest, and appends the default profile. |
| Identity.RegisterAsWrittenStrands | financeapp.py:322-331 | As written, when a profile row already holds the new id, the answer is "Username or email already exists." although the account row was committed. |
| Identity.RegisterKeepsUnique | financeapp.py:66-70 | Registration keeps usernames and non-NULL emails unique and both tables well formed. |
| Identity.Login | financeapp.py:335-343 | Login raises only when the users table lacks `id`, `username` or `password_hash`. Every failure carries "Invalid username or password.". A success names the id of a row with that username whose stored digest equals `hash(password)`, so a NULL digest never logs in. |
| Identity.LoginIff | financeapp.py:338-343 | With unique usernames, login succeeds with id `i` if and only if a user row has that username, `hash(password)` as digest, and id `i`. |
| Identity.LoginFinds | financeapp.py:338-342 | A user whose stored digest is `hash(password)` logs in and gets their own id. |
| Identity.UniqueUsernameFirst | financeapp.py:338-339 | With unique usernames, `fetchone` returns the one row with that username. |
| Identity.RegisterThenLogin | financeapp.py:317-343 | Right after registering, the same username and password log in as the new id. |
| Store.Select | financeapp.py:370-376 | Logged out: no rows. Logged in: it fails exactly when `user_id` (or the ORDER BY column) is missing; otherwise it returns exactly the caller's rows, each as often as stored, sorted descending when ordered. |
| Store.SelectSameOwned | financeapp.py:397-403 | Two tables with the same caller rows give the same listing. |
| Store.Upper | financeapp.py:366 | `upper()` keeps the length, maps each ASCII lower-case letter to its capital, and leaves every other character alone. |
| Store.AddHolding | financeapp.py:360-368 | Logged out, the table is unchanged. |
| Store.AddHoldingStores | financeapp.py:365-366 | Logged in, the INSERT succeeds exactly when shares is not NULL. It appends the caller's id, the upper-cased symbol, shares, average price and `now` under the next id. |
| Store.AddHoldingIsolated | financeapp.py:365-366 | Adding a holding leaves every other user's listing unchanged. |
| Store.AddHoldingListed | financeapp.py:370-376 | After adding a holding, the caller's listing is the old listing plus the new row. |
| Store.AddTransaction | financeapp.py:387-395 | Logged out, the table is unchanged. |
| Store.AddTransactionStores | financeapp.py:392-393 | Logged in, the INSERT always succeeds and appends the caller's transaction under the next id. |
| Store.AddTransactionIsolated | financeapp.py:401 | Adding a transaction leaves every other user's listing unchanged. |
| Store.AddSavingsGoal | financeapp.py:434-444 | Logged out, the table is unchanged. |
| Store.AddSavingsGoalStores | financeapp.py:439-442 | Logged in, the INSERT succeeds exactly when the name and target are not NULL. It appends the caller's goal with `current_amount` 0.0 and `created_at` = `now`. |
| Store.AddSavingsGoalIsolated | financeapp.py:480 | Adding a goal leaves every other user's listing unchanged. |
| Store.RemoveOwned | financeapp.py:378-385 | Logged out, the table is unchanged. Logged in, it fails exactly when `id` or `user_id` is missing; otherwise it deletes exactly the rows matching both the id and the caller's user_id and keeps every other row. This covers remove_holding, remove_transaction (405-412) and remove_savings_goal (484-491). |
| Store.RemoveOwnedWellFormed | financeapp.py:410 | A delete keeps the table well formed. |
| Store.RemoveOwnedIsolated | financeapp.py:489 | A delete leaves every other user's listing unchanged. |
| Store.Assignments | financeapp.py:452-466 | The SET list holds exactly the passed (non-None) arguments, and it is empty exactly when all five are None. |
| Store.CollectAssignments | financeapp.py:450-466 | The `updates`/`params` lists built one `if` at a time pair each passed column with its argument, name every passed column, and repeat none. |
| Store.UpdateSavingsGoal | financeapp.py:446-474 | Logged out or with nothing passed, the table is unchanged. Otherwise the UPDATE keeps the columns, the counter and the number of rows. |
| Store.UpdateSavingsGoalFields | financeapp.py:467-472 | Only the caller's goal with that id changes: each passed field takes its argument, every other column keeps its value, and every other row is unchanged. |
| Store.UpdateSavingsGoalWellFormed | financeapp.py:472 | The UPDATE keeps the table well formed. |
| Store.UpdateSavingsGoalIsolated | financeapp.py:472 | The UPDATE leaves every other user's goal listing unchanged. |
| Store.SaveProfile | financeapp.py:414-422 | Logged out, the table is unchanged. |
| Store.SaveProfileRoundTrip | financeapp.py:414-432 | After saving, the caller has exactly one profile row, holding the saved values, and get_user_profile returns it. |
| Store.SaveProfileIsolated | financeapp.py:419-420 | Saving one user's profile leaves every other user's profile as read before. |
| Store.GetProfile | financeapp.py:424-432 | Logged out, or with no row for the caller: general/0.0/moderate. Otherwise a stored row of the caller. It fails exactly when `user_id` is missing. |
| Store.SetConfig | financeapp.py:345-350 | REPLACE fails exactly when the config table lacks `key` or `value`. |
| Store.ConfigReplaceSucceeds | financeapp.py:348 | REPLACE on config never violates UNIQUE(key): it deletes the clashing row before inserting. |
| Store.GetConfig | financeapp.py:352-358 | Fails exactly when a column is missing. Gives NULL when no row has the key. |
| Store.ConfigRoundTrip | financeapp.py:345-358 | After `set_config(k, v)`, `get_config(k)` returns `v` and every other key reads as before. |
| Persistence.Database.InitDb | financeapp.py:45-312 | The object init_db builds holds exactly the committed database of InitDbSpec, or the error that aborts it. It satisfies the invariant: well-formed tables, migrated schema, unique usernames and emails. Legacy tables it rebuilds may hold anything; only the tables it keeps as found are assumed well formed. |
| Persistence.Database.RegisterUser | financeapp.py:317-333 | Registration updates `users` and `user_profile` in place as the all-or-nothing Identity.Register says (see Findings), leaves the other tables alone and keeps the invariant. |
| Persistence.Database.SetConfig | financeapp.py:345-350 | The config table becomes Store.SetConfig's result. Nothing else changes. |
| Persistence.Database.AddHolding | financeapp.py:360-368 | The holdings table becomes Store.AddHolding's result, or stays when the INSERT raises. The invariant is kept. |
| Persistence.Database.RemoveHolding | financeapp.py:378-385 | The holdings table becomes Store.RemoveOwned's result. Nothing else changes. |
| Persistence.Database.AddTransaction | financeapp.py:387-395 | The transactions table becomes Store.AddTransaction's result. Nothing else changes. |
| Persistence.Database.RemoveTransaction | financeapp.py:405-412 | The transactions table becomes Store.RemoveOwned's result. Nothing else changes. |
| Persistence.Database.SaveUserProfile | financeapp.py:414-422 | The user_profile table becomes Store.SaveProfile's result. Nothing else changes. |
| Persistence.Database.AddSavingsGoal | financeapp.py:434-444 | The savings_goals table becomes Store.AddSavingsGoal's result. Nothing else changes. |
| Persistence.Database.UpdateSavingsGoal | financeapp.py:446-474 | It returns early when logged out or when the collected SET list is empty. Otherwise the savings_goals table becomes Store.UpdateSavingsGoal's result. Nothing else changes. |
| Persistence.Database.RemoveSavingsGoal | financeapp.py:484-491 | The savings_goals table becomes Store.RemoveOwned's result. Nothing else changes. |
| Persistence.Database.constructor | financeapp.py:45-47 | The object holds the six tables it is given. |
| Scenarios.FreshFileCreatesTables | financeapp.py:94-103 | With no database file, init_db creates all six tables empty. |
| Scenarios.FirstRegistration | financeapp.py:317-343 | The first account in a fresh file gets id 1 and the default profile, and logs in with its password. |
| Scenarios.FirstHolding | financeapp.py:360-376 | Alice's holding entered as "aapl" is listed back as her single row with symbol "AAPL". |
| Scenarios.LegacyPasswordMigrated | financeapp.py:82-91 | Legacy user bob with plaintext `pw123` becomes user 1 with `hash("pw123")` as digest. He logs in with that password and with no other. |
| Scenarios.RegisterAsWrittenKeepsAccount | financeapp.py:322-331 | As written, registering "carol" when a stale profile row holds id 1 answers "Username or email already exists.", yet carol's account was stored and logs in. |
| Scenarios.RegisterRefusesWhole | financeapp.py:317-333 | All-or-nothing registration gives the same answer in that case and leaves both tables as they were. |

## Left out

- The Streamlit pages, pandas, price fetching, analytics and the assistant are outside the storage layer and are not modelled. The `get_*` helpers return rows, not DataFrames. `df.iloc[0].to_dict()` is the first matching row. The helpers that read through `pd.read_sql_query` (get_holdings, get_transactions, get_user_profile, get_savings_goals) raise its `pandas.errors.DatabaseError` where the model returns `OperationalError`.
- SHA-256 itself: `hash_password` is an arbitrary deterministic function.
- Each call reads the clock once (`now`). The source calls `utcnow()` afresh for each legacy row. The values would differ only by the time the loop takes.
- `str.upper()` is modelled for ASCII letters only. Python's full Unicode case mapping (for example `ß` to `SS`) is not modelled.
- Rows that tie on the ORDER BY column come back in an order SQLite does not define. The model fixes one order and proves only that the result is sorted and a permutation.
- SQLite's type affinity (a REAL column turning the text `'1.5'` into a number, for instance) is not modelled. Cells keep the storage class they were given. The only type check modelled is the one that rejects a rowid not stored as an integer. SQLite converts an integral REAL (`2.0`) or integer-looking TEXT (`'2'`) given to an INTEGER PRIMARY KEY into that integer and accepts it; the model refuses it with IntegrityError, so a legacy table with such ids fails to migrate in the model but not in the program.
- Integer ids are unbounded, so SQLite's 64-bit rowid limit and the "database full" error it can raise are not modelled.
- Connections, commits, crashes and concurrent sessions are not modelled. A successful init_db is modelled as one step ending in its commit at line 311, and a failed one as changing nothing (see the next line). register_user's two commits are modelled as written by Identity.RegisterAsWritten (see Findings).
- init_db after a failure: Python's sqlite3 module, with the default isolation level used at line 46, opens a transaction only at the first INSERT, so a `CREATE TABLE …_new` (lines 65, 120, 178, 243) that runs before any INSERT of the run is committed at once. When a later INSERT raises, for example on a repeated legacy username, the transaction is rolled back but that empty shadow table stays. Every later init_db then raises OperationalError at the same `CREATE TABLE`, so the file never migrates. The model returns the error and leaves the file as found, so it captures neither the leftover table nor the repeated failure.
- Without ORDER BY, SQLite leaves the order of a SELECT unspecified; the planner may, for instance, answer `SELECT id FROM users` (lines 133, 194 and 258) from the UNIQUE index on username. The model fixes storage (insertion) order for every unordered read. This decides Migration.UserIds (which legacy profile row goes to which user) and Migration.DefaultOwner (which user owns backfilled transactions and holdings), as well as the row order of get_holdings.
- The `FOREIGN KEY` clauses are not modelled, since SQLite does not enforce them unless `PRAGMA foreign_keys` is on, and the program never turns it on.
- Tables init_db keeps as found (already migrated, or created with `IF NOT EXISTS`) are assumed to carry the constraints of the current `CREATE TABLE` statements.
- Migration.HoldingsMigratedFails: the exact failure condition is proved only for legacy ids that are distinct integers (or absent). Migration.LegacyIdsRefused proves that a repeated or non-integer id also aborts. A legacy table that mixes NULL ids with explicit ones, where a numbered row can later clash with an explicit id, is not characterised.
- Migration.OwnedMigratedRows: describes the rebuilt rows only for legacy ids that are distinct integers (or absent); otherwise Migration.LegacyIdsRefused applies, or the mixed case above.
- Store.SaveProfileIsolated: requires the saving user's id to be non-NULL. With a NULL id, REPLACE's clash rule on a NULL primary key is SQLite-specific and is not modelled.
- Persistence.Database.InitDb: requires each table init_db keeps as found to be well formed, and a kept users table to have unique usernames and non-NULL emails. Those are the users table that already has `id` and `password_hash`, the tables that already have `user_id`, and savings_goals and config. A table with the current key columns is assumed to have been created by the current `CREATE TABLE` statements, whose constraints SQLite enforced on every write. A kept table created otherwise is not covered. Legacy tables that init_db rebuilds carry no requirement here.
- Persistence.Database.RegisterUser: applies the all-or-nothing Identity.Register. In the case the Findings row describes, the program as written keeps the committed users row (line 324) while the object leaves `users` unchanged. The as-written behaviour is Identity.RegisterAsWritten, proved by Identity.RegisterAsWrittenStrands and Scenarios.RegisterAsWrittenKeepsAccount.

## Findings

| source | as written | input that shows it | evidently intended | confidence | as-written member | corrected member |
|---|---|---|---|---|---|---|
| financeapp.py:322-331 | The users row is committed (line 324) before the default profile row is inserted. An IntegrityError from the profile INSERT is reported as "Username or email already exists." although the account stays stored. | A user_profile row already holds the id the new account receives. This happens, for example, after the users migration renumbered the accounts while user_profile (already having `user_id`) kept the old ids. Registering "carol" then answers "already exists", yet carol can log in. | Registration either stores both rows or neither; a refused registration leaves no account behind. | not executed | Identity.RegisterAsWritten, Scenarios.RegisterAsWrittenKeepsAccount | Identity.Register, Scenarios.RegisterRefusesWhole |
