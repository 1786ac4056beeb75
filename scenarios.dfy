/**
 * Worked cases on concrete data: a first run against no database file, a
 * legacy users table with a plaintext password, and the registration that
 * leaves an account behind while reporting a duplicate.
 */
module Scenarios {
  import opened Sql
  import opened Catalog
  import opened Migration
  import opened Store
  import opened Identity

  /** No database file yet: init_db finds no table at all. */
  const NoFile := Tables(None, None, None, None, None, None)

  /** A first run creates all six tables, empty. */
  lemma FreshFileCreatesTables(hash: string -> string, now: string)
    ensures InitDbSpec(NoFile, hash, now) ==
      Ok(Tables(Some(EmptyTable(UserColumns)), Some(EmptyTable(ProfileColumns)), Some(EmptyTable(TransactionColumns)),
                Some(EmptyTable(HoldingColumns)), Some(EmptyTable(GoalColumns)), Some(EmptyTable(ConfigColumns))))
  {
  }

  /** The first account registered in a fresh file gets id 1, the default profile, and can log in. */
  lemma FirstRegistration(password: string, hash: string -> string, now: string)
    ensures var a := Accounts(EmptyTable(UserColumns), EmptyTable(ProfileColumns));
      var (b, outcome) := Register(a, Text("alice"), password, Text("alice@example.com"), hash, now);
      && outcome == Registered(Int(1))
      && b.profiles.rows == [ProfileDefaults(Int(1))]
      && GetProfile(b.profiles, Session(true, Int(1))) == Ok(ProfileDefaults(Int(1)))
      && Login(b.users, Text("alice"), password, hash) == Ok(LoggedIn(Int(1)))
  {
    var a := Accounts(EmptyTable(UserColumns), EmptyTable(ProfileColumns));
    FirstRegistrationStores(password, hash, now);
    FirstRegistrationLogsIn(password, hash, now);
    var b := Register(a, Text("alice"), password, Text("alice@example.com"), hash, now).0;
    DefaultProfileRead(b.profiles, Int(1));
  }

  /** A profile table holding only the default row of `id` gives that row back to `id`. */
  lemma DefaultProfileRead(t: Table, id: Value)
    requires t.rows == [ProfileDefaults(id)] && t.columns == ProfileColumns && id.Int?
    ensures GetProfile(t, Session(true, id)) == Ok(ProfileDefaults(id))
  {
    WhereHead(t.rows, UserId, id, 0);
  }

  lemma FirstRegistrationLogsIn(password: string, hash: string -> string, now: string)
    ensures var a := Accounts(EmptyTable(UserColumns), EmptyTable(ProfileColumns));
      Login(Register(a, Text("alice"), password, Text("alice@example.com"), hash, now).0.users, Text("alice"), password, hash)
        == Ok(LoggedIn(Int(1)))
  {
    var a := Accounts(EmptyTable(UserColumns), EmptyTable(ProfileColumns));
    assert a.users == Table(UserColumns, [], 1) && a.profiles == Table(ProfileColumns, [], 1);
    FirstRegistrationStores(password, hash, now);
    RegisterThenLogin(a, Text("alice"), password, Text("alice@example.com"), hash, now);
  }

  lemma FirstRegistrationStores(password: string, hash: string -> string, now: string)
    ensures var a := Accounts(EmptyTable(UserColumns), EmptyTable(ProfileColumns));
      var (b, outcome) := Register(a, Text("alice"), password, Text("alice@example.com"), hash, now);
      outcome == Registered(Int(1)) && b.profiles.rows == [ProfileDefaults(Int(1))] && b.profiles.columns == ProfileColumns
  {
    var a := Accounts(EmptyTable(UserColumns), EmptyTable(ProfileColumns));
    assert a.users == Table(UserColumns, [], 1) && a.profiles == Table(ProfileColumns, [], 1);
    assert !Taken(a.users, Text("alice"), Text("alice@example.com")) && !HasProfile(a.profiles, Int(1));
    RegisterOutcome(a, Text("alice"), password, Text("alice@example.com"), hash, now);
  }

  /** Alice's first holding, entered as "aapl", is listed back as the single row "AAPL". */
  lemma FirstHolding(later: string)
    ensures var alice := Session(true, Int(1));
      var t := AddHolding(EmptyTable(HoldingColumns), alice, "aapl", Real(10.0), Null, later);
      && t.Ok?
      && Select(t.value, alice, None) ==
           Ok([map[Id := Int(1), UserId := Int(1), Symbol := Text("AAPL"), Shares := Real(10.0), AvgPrice := Null, AddedAt := Text(later)]])
  {
    var alice := Session(true, Int(1));
    var empty := EmptyTable(HoldingColumns);
    AddHoldingStores(empty, alice, "aapl", Real(10.0), Null, later);
    AddHoldingListed(empty, alice, "aapl", Real(10.0), Null, later);
    assert Upper("aapl") == "AAPL";
    assert Select(empty, alice, None) == Ok([]);
    assert HoldingValues(alice, "aapl", Real(10.0), Null, later)[Id := Int(1)] ==
      map[Id := Int(1), UserId := Int(1), Symbol := Text("AAPL"), Shares := Real(10.0), AvgPrice := Null, AddedAt := Text(later)];
  }

  /** A row of the legacy users table, from before accounts had ids and digests. */
  const Bob: Row := map[Username := Text("bob"), Password := Text("pw123"), Email := Text("b@x.com")]
  const LegacyUsers := Table({Username, Password, Email}, [Bob], 1)

  /** Bob's plaintext password is replaced by its digest; he logs in with it, and with nothing else. */
  lemma LegacyPasswordMigrated(hash: string -> string, now: string, wrong: string)
    requires hash(wrong) != hash("pw123")
    ensures InitUsers(Some(LegacyUsers), hash, now).Ok?
    ensures var users := InitUsers(Some(LegacyUsers), hash, now).value;
      && users.rows == [map[Id := Int(1), Username := Text("bob"), PasswordHash := Text(hash("pw123")),
                            Email := Text("b@x.com"), CreatedAt := Text(now)]]
      && Login(users, Text("bob"), "pw123", hash) == Ok(LoggedIn(Int(1)))
      && Login(users, Text("bob"), wrong, hash) == Ok(Rejected(InvalidLogin))
  {
    assert !CredentialFails(Bob) && Get(Bob, Username, Null) != Null;
    assert !UsersRejected([Bob]);
    UserCopyFails([Bob], hash, now);
    UserCopyRows([Bob], hash, now);
    var users := UserCopy([Bob], hash, now).value;
    assert MigratedCredential(Bob, hash) == Text(hash("pw123"));
    assert users.rows[0] == MigratedUser(Bob, 1, hash, now);
    LoginFinds(users, Text("bob"), "pw123", hash, 0);
  }

  /** A user_profile row whose user_id is the id the next account will get. */
  const StaleProfiles := Table(ProfileColumns, [ProfileDefaults(Int(1))], 2)

  /**
   * As written, registering against a stale profile row answers "Username or
   * email already exists." although the account was stored and can log in.
   */
  lemma RegisterAsWrittenKeepsAccount(hash: string -> string, now: string)
    ensures var a := Accounts(EmptyTable(UserColumns), StaleProfiles);
      var (b, outcome) := RegisterAsWritten(a, Text("carol"), "secret", Null, hash, now);
      && outcome == Refused(DuplicateMessage)
      && b.users != a.users
      && Login(b.users, Text("carol"), "secret", hash) == Ok(LoggedIn(Int(1)))
  {
    var a := Accounts(EmptyTable(UserColumns), StaleProfiles);
    var vals := UserValues(Text("carol"), "secret", Null, hash, now);
    var row := vals[Id := Int(1)];
    AppendsAccount(vals);
    var users := Table(UserColumns, [row], 2);
    ProfileInsertRefused(StaleProfiles, 1);
    assert HasProfile(StaleProfiles, Int(1)) by {
      assert SqlEq(Get(StaleProfiles.rows[0], UserId, Null), Int(1));
    }
    LoginAppended(EmptyTable(UserColumns), users, row, Text("carol"), "secret", hash);
  }

  /** The first INSERT into an empty users table stores the values under id 1. */
  lemma AppendsAccount(vals: Row)
    requires vals.Keys == UserColumns - {Id} && Get(vals, Username, Null) != Null
    ensures Insert(EmptyTable(UserColumns), UserConstraints, vals) == Ok(Table(UserColumns, [vals[Id := Int(1)]], 2))
  {
    var row := StoredRow(EmptyTable(UserColumns), UserConstraints, vals);
    assert row == vals[Id := Int(1)];
    assert !Violates(EmptyTable(UserColumns), UserConstraints, row);
  }

  /** The all-or-nothing registration gives the same answer and leaves both tables as they were. */
  lemma RegisterRefusesWhole(hash: string -> string, now: string)
    ensures var a := Accounts(EmptyTable(UserColumns), StaleProfiles);
      Register(a, Text("carol"), "secret", Null, hash, now) == (a, Refused(DuplicateMessage))
  {
    RegisterAsWrittenKeepsAccount(hash, now);
  }
}
