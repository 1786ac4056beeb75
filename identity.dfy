/**
 * Accounts: register_user writes a users row and a default user_profile row;
 * login_user compares the stored digest with the digest of the password typed.
 * The digest function (SHA-256 as hex in the application) is a parameter: any
 * deterministic string function.
 */
module Identity {
  import opened Sql
  import opened Catalog

  const DuplicateMessage := "Username or email already exists."
  const InvalidLogin := "Invalid username or password."

  /** What register_user gives back: `(user_id, None)`, `(None, message)`, or an exception it lets escape. */
  datatype Registration = Registered(id: Value) | Refused(message: string) | Raised(error: DbError)

  /** The two tables register_user writes. */
  datatype Accounts = Accounts(users: Table, profiles: Table)

  function UserValues(username: Value, password: string, email: Value, hash: string -> string, now: string): Row {
    map[Username := username, PasswordHash := Text(hash(password)), Email := email, CreatedAt := Text(now)]
  }

  /** The profile every new account starts with. */
  function ProfileDefaults(id: Value): Row {
    map[UserId := id, UserType := Text("general"), SavingsGoal := Real(0.0), RiskTolerance := Text("moderate")]
  }

  /** `cursor.lastrowid`: the id of the row an INSERT just appended. */
  function LastRowid(t: Table): Value {
    if t.rows == [] then Null else Get(t.rows[|t.rows| - 1], Id, Null)
  }

  /** Some existing user already has this username, or this email when it is not NULL. */
  ghost predicate Taken(users: Table, username: Value, email: Value) {
    exists i :: 0 <= i < |users.rows| &&
      (SqlEq(Get(users.rows[i], Username, Null), username) || SqlEq(Get(users.rows[i], Email, Null), email))
  }

  /** A user_profile row already carries this user id. */
  ghost predicate HasProfile(profiles: Table, id: Value) {
    exists j :: 0 <= j < |profiles.rows| && SqlEq(Get(profiles.rows[j], UserId, Null), id)
  }

  /**
   * register_user exactly as written: the users row is committed before the
   * profile row is inserted, and an IntegrityError from either INSERT is
   * reported as a duplicate username or email.
   */
  function RegisterAsWritten(a: Accounts, username: Value, password: string, email: Value, hash: string -> string, now: string): (r: (Accounts, Registration))
    ensures r.1.Refused? ==> r.1.message == DuplicateMessage
    ensures r.0.profiles == a.profiles || r.1.Registered?
  {
    match Insert(a.users, UserConstraints, UserValues(username, password, email, hash, now))
    case Err(e) => (a, if e == IntegrityError then Refused(DuplicateMessage) else Raised(e))
    case Ok(users) =>
      var id := LastRowid(users);
      match Insert(a.profiles, ProfileConstraints, ProfileDefaults(id))
      case Err(e) => (Accounts(users, a.profiles), if e == IntegrityError then Refused(DuplicateMessage) else Raised(e))
      case Ok(profiles) => (Accounts(users, profiles), Registered(id))
  }

  /**
   * register_user made all-or-nothing: the same answer as the code gives, but
   * when the profile row cannot be written the new users row is not kept either.
   */
  function Register(a: Accounts, username: Value, password: string, email: Value, hash: string -> string, now: string): (r: (Accounts, Registration))
    ensures r.1 == RegisterAsWritten(a, username, password, email, hash, now).1
    ensures !r.1.Registered? ==> r.0 == a
    ensures r.1.Registered? ==> r.0 == RegisterAsWritten(a, username, password, email, hash, now).0
  {
    var (written, outcome) := RegisterAsWritten(a, username, password, email, hash, now);
    if outcome.Registered? then (written, outcome) else (a, outcome)
  }

  /** Registration's users INSERT: it fails exactly on a NULL username or a taken username or email. */
  lemma UserInsertRefused(users: Table, username: Value, password: string, email: Value, hash: string -> string, now: string)
    requires WellFormed(users, UserConstraints) && users.columns == UserColumns
    ensures var r := Insert(users, UserConstraints, UserValues(username, password, email, hash, now));
      && (r.Err? ==> r.error == IntegrityError)
      && (r.Err? <==> username == Null || Taken(users, username, email))
  {
    var vals := UserValues(username, password, email, hash, now);
    var row := StoredRow(users, UserConstraints, vals);
    assert row[Id] == Int(users.nextId) && row[Username] == username && row[Email] == email;
    if Clashes(users.rows, UserConstraints, row) {
      ClashTakes(users, row, username, email);
    }
    if Taken(users, username, email) {
      TakenClashes(users, row, username, email);
    }
  }

  lemma ClashTakes(users: Table, row: Row, username: Value, email: Value)
    requires WellFormed(users, UserConstraints) && users.columns == UserColumns
    requires row.Keys == UserColumns && row[Id] == Int(users.nextId) && row[Username] == username && row[Email] == email
    requires Clashes(users.rows, UserConstraints, row)
    ensures Taken(users, username, email)
  {
    var i, col := ClashWitness(users.rows, UserConstraints, row);
    assert col != Id;
    assert SqlEq(Get(users.rows[i], Username, Null), username) || SqlEq(Get(users.rows[i], Email, Null), email);
  }

  lemma TakenClashes(users: Table, row: Row, username: Value, email: Value)
    requires WellFormed(users, UserConstraints) && users.columns == UserColumns
    requires row.Keys == UserColumns && row[Username] == username && row[Email] == email
    requires Taken(users, username, email)
    ensures Clashes(users.rows, UserConstraints, row)
  {
    var i :| 0 <= i < |users.rows| &&
      (SqlEq(Get(users.rows[i], Username, Null), username) || SqlEq(Get(users.rows[i], Email, Null), email));
    assert Username in users.rows[i] && Email in users.rows[i];
    if SqlEq(Get(users.rows[i], Username, Null), username) {
      assert SqlEq(users.rows[i][Username], row[Username]);
    } else {
      assert SqlEq(users.rows[i][Email], row[Email]);
    }
  }

  /** Registration's profile INSERT succeeds unless a profile row already holds the new id. */
  lemma ProfileInsertRefused(profiles: Table, id: int)
    requires WellFormed(profiles, ProfileConstraints) && profiles.columns == ProfileColumns
    ensures var r := Insert(profiles, ProfileConstraints, ProfileDefaults(Int(id)));
      && (r.Err? <==> HasProfile(profiles, Int(id)))
      && (r.Err? ==> r.error == IntegrityError)
      && (r.Ok? ==> r.value.rows == profiles.rows + [ProfileDefaults(Int(id))])
  {
    var row := StoredRow(profiles, ProfileConstraints, ProfileDefaults(Int(id)));
    assert row == ProfileDefaults(Int(id));
    if Clashes(profiles.rows, ProfileConstraints, row) {
      var j, col := ClashWitness(profiles.rows, ProfileConstraints, row);
      assert SqlEq(Get(profiles.rows[j], UserId, Null), Int(id));
    }
    if HasProfile(profiles, Int(id)) {
      var j :| 0 <= j < |profiles.rows| && SqlEq(Get(profiles.rows[j], UserId, Null), Int(id));
      assert UserId in profiles.rows[j];
      assert Clashes(profiles.rows, ProfileConstraints, row);
    }
  }

  /**
   * Registration on the migrated schema: refused with the duplicate message
   * exactly when the username is NULL or taken, or the email is taken (a NULL
   * email never is), or a profile row already holds the new id; otherwise the
   * account gets the next id, the digest of the password, and the default profile.
   */
  lemma RegisterOutcome(a: Accounts, username: Value, password: string, email: Value, hash: string -> string, now: string)
    requires WellFormed(a.users, UserConstraints) && a.users.columns == UserColumns
    requires WellFormed(a.profiles, ProfileConstraints) && a.profiles.columns == ProfileColumns
    ensures var (b, outcome) := Register(a, username, password, email, hash, now);
      && !outcome.Raised?
      && (outcome.Refused? <==> username == Null || Taken(a.users, username, email) || HasProfile(a.profiles, Int(a.users.nextId)))
      && (outcome.Registered? ==>
            && outcome.id == Int(a.users.nextId)
            && b.users.rows == a.users.rows + [UserValues(username, password, email, hash, now)[Id := Int(a.users.nextId)]]
            && b.users.nextId == a.users.nextId + 1
            && b.profiles.rows == a.profiles.rows + [ProfileDefaults(outcome.id)])
  {
    var vals := UserValues(username, password, email, hash, now);
    UserInsertRefused(a.users, username, password, email, hash, now);
    var r := Insert(a.users, UserConstraints, vals);
    if r.Ok? {
      InsertAutoId(a.users, UserConstraints, vals);
      assert Complete(a.users.columns, vals)[Id := Int(a.users.nextId)] == vals[Id := Int(a.users.nextId)];
      assert LastRowid(r.value) == Int(a.users.nextId);
      ProfileInsertRefused(a.profiles, a.users.nextId);
    }
  }

  /**
   * register_user as written, when a profile row already holds the id the new
   * account receives: the caller is told the username or email exists, yet the
   * account was stored under that id.
   */
  lemma RegisterAsWrittenStrands(a: Accounts, username: Value, password: string, email: Value, hash: string -> string, now: string)
    requires WellFormed(a.users, UserConstraints) && a.users.columns == UserColumns
    requires WellFormed(a.profiles, ProfileConstraints) && a.profiles.columns == ProfileColumns
    requires username != Null && !Taken(a.users, username, email) && HasProfile(a.profiles, Int(a.users.nextId))
    ensures var (b, outcome) := RegisterAsWritten(a, username, password, email, hash, now);
      && outcome == Refused(DuplicateMessage)
      && b.users.rows == a.users.rows + [UserValues(username, password, email, hash, now)[Id := Int(a.users.nextId)]]
      && b.profiles == a.profiles
  {
    var vals := UserValues(username, password, email, hash, now);
    UserInsertRefused(a.users, username, password, email, hash, now);
    InsertAutoId(a.users, UserConstraints, vals);
    assert Complete(a.users.columns, vals)[Id := Int(a.users.nextId)] == vals[Id := Int(a.users.nextId)];
    assert LastRowid(Insert(a.users, UserConstraints, vals).value) == Int(a.users.nextId);
    ProfileInsertRefused(a.profiles, a.users.nextId);
  }

  /** The users table keeps every row unique in username, email and id. */
  lemma RegisterKeepsUnique(a: Accounts, username: Value, password: string, email: Value, hash: string -> string, now: string)
    requires UniqueValues(a.users.rows, UserConstraints)
    requires WellFormed(a.users, UserConstraints) && WellFormed(a.profiles, ProfileConstraints)
    ensures var b := Register(a, username, password, email, hash, now).0;
      && UniqueValues(b.users.rows, UserConstraints)
      && WellFormed(b.users, UserConstraints) && WellFormed(b.profiles, ProfileConstraints)
  {
    var vals := UserValues(username, password, email, hash, now);
    var r := Insert(a.users, UserConstraints, vals);
    if Register(a, username, password, email, hash, now).1.Registered? {
      InsertUnique(a.users, UserConstraints, vals);
      InsertWellFormed(a.users, UserConstraints, vals);
      InsertWellFormed(a.profiles, ProfileConstraints, ProfileDefaults(LastRowid(r.value)));
    }
  }

  // ---------------------------------------------------------------------------
  // login_user
  // ---------------------------------------------------------------------------

  /** What login_user gives back: `(user_id, None)` or `(None, message)`. */
  datatype LoginOutcome = LoggedIn(id: Value) | Rejected(message: string)

  /**
   * login_user: the first user row with that username logs in when its stored
   * digest equals the digest of the password; an unknown user and a wrong
   * password get the same message.
   */
  function Login(users: Table, username: Value, password: string, hash: string -> string): (r: Result<LoginOutcome>)
    ensures r.Err? <==> !({Id, Username, PasswordHash} <= users.columns)
    ensures r.Ok? && r.value.Rejected? ==> r.value.message == InvalidLogin
    ensures r.Ok? && r.value.LoggedIn? ==>
      exists x :: x in users.rows && Username in x && SqlEq(x[Username], username)
               && Get(x, PasswordHash, Null) == Text(hash(password)) && Get(x, Id, Null) == r.value.id
  {
    if !({Id, Username, PasswordHash} <= users.columns) then Err(OperationalError)
    else
      var found := Where(users.rows, Username, username);
      if found != [] && Get(found[0], PasswordHash, Null) == Text(hash(password))
      then
        assert found[0] in found;
        Ok(LoggedIn(Get(found[0], Id, Null)))
      else Ok(Rejected(InvalidLogin))
  }

  /** With usernames unique, the user row matching a username is the first one. */
  lemma UniqueUsernameFirst(users: Table, username: Value, i: int)
    requires UniqueValues(users.rows, UserConstraints)
    requires 0 <= i < |users.rows| && Username in users.rows[i] && SqlEq(users.rows[i][Username], username)
    ensures Where(users.rows, Username, username) != [] && Where(users.rows, Username, username)[0] == users.rows[i]
  {
    forall j | 0 <= j < i && Username in users.rows[j] ensures !SqlEq(users.rows[j][Username], username) {
      assert !ClashesWith(users.rows[j], UserConstraints, users.rows[i]);
      SqlEqApart(users.rows[j][Username], users.rows[i][Username], username);
    }
    WhereHead(users.rows, Username, username, i);
  }

  /**
   * login_user succeeds with id `id` exactly when a user row has that username,
   * the digest of the password as its password_hash, and that id. A row whose
   * password_hash is NULL (a migrated account without a password) never logs in.
   */
  lemma LoginIff(users: Table, username: Value, password: string, hash: string -> string, id: Value)
    requires UniqueValues(users.rows, UserConstraints) && WellFormed(users, UserConstraints)
    requires {Id, Username, PasswordHash} <= users.columns
    ensures Login(users, username, password, hash) == Ok(LoggedIn(id)) <==>
      exists i :: 0 <= i < |users.rows| && SqlEq(users.rows[i][Username], username)
                  && users.rows[i][PasswordHash] == Text(hash(password)) && users.rows[i][Id] == id
  {
    if exists i :: 0 <= i < |users.rows| && SqlEq(users.rows[i][Username], username)
                   && users.rows[i][PasswordHash] == Text(hash(password)) && users.rows[i][Id] == id {
      var i :| 0 <= i < |users.rows| && SqlEq(users.rows[i][Username], username)
               && users.rows[i][PasswordHash] == Text(hash(password)) && users.rows[i][Id] == id;
      LoginFinds(users, username, password, hash, i);
    }
    if Login(users, username, password, hash) == Ok(LoggedIn(id)) {
      LoginLocates(users, username, password, hash, id);
    }
  }

  lemma LoginLocates(users: Table, username: Value, password: string, hash: string -> string, id: Value)
    requires WellFormed(users, UserConstraints) && {Id, Username, PasswordHash} <= users.columns
    requires Login(users, username, password, hash) == Ok(LoggedIn(id))
    ensures exists i :: 0 <= i < |users.rows| && SqlEq(users.rows[i][Username], username)
                        && users.rows[i][PasswordHash] == Text(hash(password)) && users.rows[i][Id] == id
  {
    var x :| x in users.rows && Username in x && SqlEq(x[Username], username)
             && Get(x, PasswordHash, Null) == Text(hash(password)) && Get(x, Id, Null) == id;
    var i :| 0 <= i < |users.rows| && users.rows[i] == x;
    assert x.Keys == users.columns;
  }

  lemma LoginFinds(users: Table, username: Value, password: string, hash: string -> string, i: int)
    requires UniqueValues(users.rows, UserConstraints) && {Id, Username, PasswordHash} <= users.columns
    requires 0 <= i < |users.rows| && Username in users.rows[i] && SqlEq(users.rows[i][Username], username)
    requires Get(users.rows[i], PasswordHash, Null) == Text(hash(password))
    ensures Login(users, username, password, hash) == Ok(LoggedIn(Get(users.rows[i], Id, Null)))
  {
    UniqueUsernameFirst(users, username, i);
  }

  /** A login right after appending the only row with that username finds that row. */
  lemma LoginAppended(users: Table, users': Table, row: Row, username: Value, password: string, hash: string -> string)
    requires {Id, Username, PasswordHash} <= users'.columns
    requires users'.rows == users.rows + [row]
    requires forall x :: x in users.rows ==> !(Username in x && SqlEq(x[Username], username))
    requires Username in row && row[Username] == username && username != Null
    requires Get(row, PasswordHash, Null) == Text(hash(password))
    ensures Login(users', username, password, hash) == Ok(LoggedIn(Get(row, Id, Null)))
  {
    WhereNone(users.rows, Username, username);
    WhereAppend(users.rows, row, Username, username);
  }

  /** A username that is not taken matches no stored row. */
  lemma UntakenUsername(users: Table, username: Value, email: Value)
    requires !Taken(users, username, email)
    ensures forall x :: x in users.rows ==> !(Username in x && SqlEq(x[Username], username))
  {
    forall x | x in users.rows ensures !(Username in x && SqlEq(x[Username], username)) {
      var i :| 0 <= i < |users.rows| && users.rows[i] == x;
      assert !SqlEq(Get(users.rows[i], Username, Null), username);
    }
  }

  /** Registering and then logging in with the same username and password yields the new id. */
  lemma RegisterThenLogin(a: Accounts, username: Value, password: string, email: Value, hash: string -> string, now: string)
    requires WellFormed(a.users, UserConstraints) && a.users.columns == UserColumns
    requires WellFormed(a.profiles, ProfileConstraints) && a.profiles.columns == ProfileColumns
    requires Register(a, username, password, email, hash, now).1.Registered?
    ensures Login(Register(a, username, password, email, hash, now).0.users, username, password, hash)
            == Ok(LoggedIn(Register(a, username, password, email, hash, now).1.id))
  {
    RegisterOutcome(a, username, password, email, hash, now);
    var row := UserValues(username, password, email, hash, now)[Id := Int(a.users.nextId)];
    UntakenUsername(a.users, username, email);
    LoginAppended(a.users, Register(a, username, password, email, hash, now).0.users, row, username, password, hash);
  }
}
