/**
 * The users table of the dashboard and the operations on it:
 * `get_user_by_username`, `register_user` (check, then insert),
 * `login_user` (look up, verify the password, open a session),
 * `create_default_admin` and `migrate_users_from_file` (insert-if-absent).
 *
 * The table is a map keyed by username, the primary key of the users table.
 * Hashing is the stand-in of module Bcrypt with the salt as a parameter;
 * a storage failure in `register_user` is the parameter `fault`, carrying the
 * exception's text. The CSV file of `migrate_users_from_file` is given as its
 * rows, or `None` when the file does not exist.
 *
 * As for sessions, value-level functions describe each operation and the class
 * `UserDatabase` holds the table; its methods are proved to do what the
 * functions say.
 */
module UserService {
  import opened Wrappers
  import Bcrypt
  import SessionService

  /** A row of the users table, without its key. */
  datatype UserRecord = UserRecord(passwordHash: string, role: string)

  type Users = map<string, UserRecord>

  /** The tuple `(username, password_hash, role)` a lookup returns. */
  datatype User = User(username: string, passwordHash: string, role: string)

  const MsgUserExists: string := "⚠️ Username already exists."
  const MsgRegistered: string := "✅ User registered successfully."
  const MsgRegisterErrorPrefix: string := "❌ Error registering user: "
  const MsgUserNotFound: string := "❌ User not found."
  const MsgLoginSuccessful: string := " Login successful!"
  const MsgIncorrectPassword: string := " Incorrect password."

  const DefaultAdminName: string := "admin"
  const DefaultAdminPassword: string := "admin123"
  const DefaultAdminRole: string := "admin"

  /** `get_user_by_username`: the stored row for exactly that name, or `None`. */
  function Lookup(users: Users, username: string): (r: Option<User>)
    ensures r.None? <==> username !in users
    ensures r.Some? ==> (r.value.username == username
      && UserRecord(r.value.passwordHash, r.value.role) == users[username])
  {
    if username in users then
      Some(User(username, users[username].passwordHash, users[username].role))
    else None
  }

  /** `register_user(username, password_hash, role)`: the new table and the
      `(success, message)` pair. No validation of the fields happens here. */
  function Register(users: Users, username: string, passwordHash: string, role: string,
                    fault: Option<string>): (r: (Users, (bool, string)))
    ensures r.1.0 <==> fault.None? && username !in users
    ensures r.0.Keys == if r.1.0 then users.Keys + {username} else users.Keys
    ensures forall u :: u in users ==> r.0[u] == users[u]
  {
    if fault.Some? then (users, (false, MsgRegisterErrorPrefix + fault.value))
    else if username in users then (users, (false, MsgUserExists))
    else (users[username := UserRecord(passwordHash, role)], (true, MsgRegistered))
  }

  /** The 4-tuple `(success, message, token, role)` of `login_user`. */
  datatype LoginReply = LoginReply(success: bool, message: string,
                                   token: Option<SessionService.Token>, role: Option<string>)

  /** `login_user(username, password)` against the users table and the sessions
      table, with `token` the fresh value the session would get and `now` the
      clock: the new sessions table and the reply. */
  function Login(users: Users, sessions: SessionService.Table, username: string, password: string,
                 now: int, token: SessionService.Token): (r: (SessionService.Table, LoginReply))
    requires token !in sessions
    ensures r.1.success <==>
      (Lookup(users, username).Some? && Bcrypt.CheckPw(password, Lookup(users, username).value.passwordHash))
    ensures !r.1.success ==> r.0 == sessions && r.1.token.None? && r.1.role.None?
    ensures r.1.success ==>
      (r.1.token == Some(token) && r.0.Keys == sessions.Keys + {token} && r.0[token].username == username)
  {
    match Lookup(users, username)
    case None => (sessions, LoginReply(false, MsgUserNotFound, None, None))
    case Some(User(usernameDb, storedHash, role)) =>
      if Bcrypt.CheckPw(password, storedHash) then
        var (sessions', reply) := SessionService.Step(sessions,
          SessionService.Create(token, usernameDb, now, SessionService.DefaultHoursValid));
        (sessions', LoginReply(true, MsgLoginSuccessful, Some(token), Some(role)))
      else (sessions, LoginReply(false, MsgIncorrectPassword, None, None))
  }

  /** `create_default_admin`: insert `admin` / `admin123` / `admin` unless a user
      named `admin` exists. */
  function DefaultAdmin(users: Users, salt: Bcrypt.Salt): (users': Users)
    ensures users'.Keys == users.Keys + {DefaultAdminName}
    ensures forall u :: u in users ==> users'[u] == users[u]
  {
    if DefaultAdminName in users then users
    else users[DefaultAdminName := UserRecord(Bcrypt.HashPw(DefaultAdminPassword, salt), DefaultAdminRole)]
  }

  /** A row of the CSV file: `username,password,role`, the password in clear text. */
  datatype CsvRow = CsvRow(username: string, password: string, role: string)

  /** The per-row step of the migration: hash the password and insert the row
      unless the username is taken. */
  function InsertIfAbsent(users: Users, row: CsvRow, salt: Bcrypt.Salt): Users {
    if row.username in users then users
    else users[row.username := UserRecord(Bcrypt.HashPw(row.password, salt), row.role)]
  }

  /** The rows processed in file order, `salts[k]` being the salt drawn for row `k`. */
  function MigrateRows(users: Users, rows: seq<CsvRow>, salts: seq<Bcrypt.Salt>): Users
    requires |salts| == |rows|
    decreases |rows|
  {
    if rows == [] then users
    else MigrateRows(InsertIfAbsent(users, rows[0], salts[0]), rows[1..], salts[1..])
  }

  /** `migrate_users_from_file`: a missing file leaves the table unchanged. */
  function Migrate(users: Users, file: Option<seq<CsvRow>>, salts: seq<Bcrypt.Salt>): (users': Users)
    requires file.Some? ==> |salts| == |file.value|
    ensures file.None? ==> users' == users
    ensures forall u :: u in users ==> u in users' && users'[u] == users[u]
    ensures forall u :: u in users' <==> u in users || (file.Some? && NamedIn(file.value, u))
  {
    match file
    case None => users
    case Some(rows) =>
      MigrateKeepsExisting(users, rows, salts);
      MigrateRows(users, rows, salts)
  }

  predicate NamedIn(rows: seq<CsvRow>, username: string) {
    exists k :: 0 <= k < |rows| && rows[k].username == username
  }

  /** Registering a name that is taken fails with the "already exists" message
      and leaves the table as it was, whatever hash and role are supplied. */
  lemma RegisterTakenName(users: Users, username: string, passwordHash: string, role: string)
    requires username in users
    ensures Register(users, username, passwordHash, role, None) == (users, (false, MsgUserExists))
  {
  }

  /** Registering a new name inserts exactly that row, with no check of its
      format, and succeeds; a second registration of the same name then fails. */
  lemma RegisterNewName(users: Users, username: string, passwordHash: string, role: string,
                        hash2: string, role2: string)
    requires username !in users
    ensures var (users', reply) := Register(users, username, passwordHash, role, None);
      && reply == (true, MsgRegistered)
      && users'.Keys == users.Keys + {username}
      && Lookup(users', username) == Some(User(username, passwordHash, role))
      && (forall other :: other in users ==> users'[other] == users[other])
      && Register(users', username, hash2, role2, None) == (users', (false, MsgUserExists))
  {
  }

  /** A storage failure during registration reports the error and inserts nothing. */
  lemma RegisterFault(users: Users, username: string, passwordHash: string, role: string, error: string)
    ensures Register(users, username, passwordHash, role, Some(error))
      == (users, (false, MsgRegisterErrorPrefix + error))
  {
  }

  /** Login outcomes: an unknown name and a wrong password both fail with their
      own message and open no session; a verifying password opens exactly one
      session, for the stored username, lasting the default hour, and returns
      its token and the stored role. */
  lemma LoginOutcomes(users: Users, sessions: SessionService.Table, username: string,
                      password: string, now: int, token: SessionService.Token)
    requires token !in sessions
    ensures var (sessions', reply) := Login(users, sessions, username, password, now, token);
      && (username !in users ==>
            sessions' == sessions && reply == LoginReply(false, MsgUserNotFound, None, None))
      && (username in users && !Bcrypt.CheckPw(password, users[username].passwordHash) ==>
            sessions' == sessions && reply == LoginReply(false, MsgIncorrectPassword, None, None))
      && (reply.success <==> username in users && Bcrypt.CheckPw(password, users[username].passwordHash))
      && (reply.success ==>
            && reply == LoginReply(true, MsgLoginSuccessful, Some(token), Some(users[username].role))
            && sessions' == sessions[token := SessionService.Session(username,
                 now + SessionService.MicrosPerHour)])
  {
  }

  /** Registering a new user with the hash of a password, then logging in with
      that password, succeeds and opens a session that validates at once. */
  lemma RegisterThenLogin(users: Users, sessions: SessionService.Table, username: string,
                          password: string, salt: Bcrypt.Salt, role: string, now: int,
                          token: SessionService.Token)
    requires username !in users && token !in sessions
    ensures var (users', _) := Register(users, username, Bcrypt.HashPw(password, salt), role, None);
      var (sessions', reply) := Login(users', sessions, username, password, now, token);
      && reply == LoginReply(true, MsgLoginSuccessful, Some(token), Some(role))
      && SessionService.Step(sessions', SessionService.Validate(token, now, false))
         == (sessions', SessionService.Checked(true))
  {
    Bcrypt.CheckPwHashPw(password, salt);
  }

  /** The default admin is present afterwards; an existing `admin` is never
      replaced; running it again changes nothing. */
  lemma DefaultAdminIdempotent(users: Users, salt1: Bcrypt.Salt, salt2: Bcrypt.Salt)
    ensures var users' := DefaultAdmin(users, salt1);
      && users'.Keys == users.Keys + {DefaultAdminName}
      && (forall u :: u in users ==> users'[u] == users[u])
      && (DefaultAdminName !in users ==> (users'[DefaultAdminName].role == DefaultAdminRole
            && Bcrypt.CheckPw(DefaultAdminPassword, users'[DefaultAdminName].passwordHash)))
      && DefaultAdmin(users', salt2) == users'
  {
    Bcrypt.CheckPwHashPw(DefaultAdminPassword, salt1);
  }

  /** Migration never changes a user that already exists, and afterwards the
      table holds exactly the old names and the names in the file. */
  lemma {:induction false} MigrateKeepsExisting(users: Users, rows: seq<CsvRow>, salts: seq<Bcrypt.Salt>)
    requires |salts| == |rows|
    ensures forall u :: u in users ==> (u in MigrateRows(users, rows, salts)
      && MigrateRows(users, rows, salts)[u] == users[u])
    ensures forall u :: u in MigrateRows(users, rows, salts) <==> u in users || NamedIn(rows, u)
    decreases |rows|
  {
    if rows != [] {
      var users1 := InsertIfAbsent(users, rows[0], salts[0]);
      MigrateKeepsExisting(users1, rows[1..], salts[1..]);
      forall u ensures NamedIn(rows, u) <==> u == rows[0].username || NamedIn(rows[1..], u) {
        if NamedIn(rows, u) && u != rows[0].username {
          var k :| 0 <= k < |rows| && rows[k].username == u;
          assert rows[1..][k - 1].username == u;
        }
        if NamedIn(rows[1..], u) {
          var k :| 0 <= k < |rows| - 1 && rows[1..][k].username == u;
          assert rows[k + 1].username == u;
        }
      }
    }
  }

  /** Among rows with the same new username the first one wins: its password
      (hashed with its own salt) and its role are what is stored. */
  lemma {:induction false} MigrateFirstRowWins(users: Users, rows: seq<CsvRow>, salts: seq<Bcrypt.Salt>, k: nat)
    requires |salts| == |rows| && k < |rows|
    requires rows[k].username !in users
    requires forall j :: 0 <= j < k ==> rows[j].username != rows[k].username
    ensures var u := rows[k].username;
      u in MigrateRows(users, rows, salts)
      && MigrateRows(users, rows, salts)[u] == UserRecord(Bcrypt.HashPw(rows[k].password, salts[k]), rows[k].role)
    decreases |rows|
  {
    var users1 := InsertIfAbsent(users, rows[0], salts[0]);
    if k == 0 {
      MigrateKeepsExisting(users1, rows[1..], salts[1..]);
    } else {
      assert rows[1..][k - 1] == rows[k] && salts[1..][k - 1] == salts[k];
      assert forall j :: 0 <= j < k - 1 ==> rows[1..][j] == rows[j + 1];
      MigrateFirstRowWins(users1, rows[1..], salts[1..], k - 1);
    }
  }

  /** Running the migration a second time over the same file changes nothing,
      whatever salts it draws. */
  lemma MigrateIdempotent(users: Users, rows: seq<CsvRow>, salts1: seq<Bcrypt.Salt>, salts2: seq<Bcrypt.Salt>)
    requires |salts1| == |rows| && |salts2| == |rows|
    ensures var users' := MigrateRows(users, rows, salts1);
      MigrateRows(users', rows, salts2) == users'
  {
    var users' := MigrateRows(users, rows, salts1);
    MigrateKeepsExisting(users, rows, salts1);
    MigrateAllPresent(users', rows, salts2);
  }

  /** Without a users file the migration is skipped and the table is unchanged. */
  lemma MigrateMissingFile(users: Users, salts: seq<Bcrypt.Salt>)
    ensures Migrate(users, None, salts) == users
  {
  }

  /** Migrating rows whose names are all present already changes nothing. */
  lemma {:induction false} MigrateAllPresent(users: Users, rows: seq<CsvRow>, salts: seq<Bcrypt.Salt>)
    requires |salts| == |rows|
    requires forall k :: 0 <= k < |rows| ==> rows[k].username in users
    ensures MigrateRows(users, rows, salts) == users
    decreases |rows|
  {
    if rows != [] {
      assert InsertIfAbsent(users, rows[0], salts[0]) == users;
      assert forall k :: 0 <= k < |rows| - 1 ==> rows[1..][k] == rows[k + 1];
      MigrateAllPresent(users, rows[1..], salts[1..]);
    }
  }

  /** The users table of the application database, next to its sessions table. */
  class UserDatabase {
    var users: Users
    const sessions: SessionService.SessionStore

    constructor (sessions: SessionService.SessionStore)
      ensures users == map[] && this.sessions == sessions
    {
      users := map[];
      this.sessions := sessions;
    }

    /** `register_user`: count the rows with that name, then insert. */
    method RegisterUser(username: string, passwordHash: string, role: string, fault: Option<string>)
      returns (success: bool, message: string)
      modifies this
      ensures (users, (success, message)) == Register(old(users), username, passwordHash, role, fault)
    {
      if fault.Some? {
        return false, MsgRegisterErrorPrefix + fault.value;
      }
      if username in users {
        return false, MsgUserExists;
      }
      users := users[username := UserRecord(passwordHash, role)];
      return true, MsgRegistered;
    }

    /** `login_user`: look the user up, check the password against the stored
        hash and, when it matches, open a session for the stored username. */
    method LoginUser(username: string, password: string, now: int, token: SessionService.Token)
      returns (success: bool, message: string, sessionToken: Option<SessionService.Token>, role: Option<string>)
      requires token !in sessions.table
      modifies sessions
      ensures (sessions.table, LoginReply(success, message, sessionToken, role))
        == Login(users, old(sessions.table), username, password, now, token)
    {
      var user := Lookup(users, username);
      if user.None? {
        return false, MsgUserNotFound, None, None;
      }
      var User(usernameDb, storedHash, storedRole) := user.value;
      if Bcrypt.CheckPw(password, storedHash) {
        var issued := sessions.CreateSession(usernameDb, now, token);
        return true, MsgLoginSuccessful, Some(issued), Some(storedRole);
      }
      return false, MsgIncorrectPassword, None, None;
    }

    /** `create_default_admin`, with `salt` the salt `gensalt()` draws. */
    method CreateDefaultAdmin(salt: Bcrypt.Salt)
      modifies this
      ensures users == DefaultAdmin(old(users), salt)
    {
      var passwordHash := Bcrypt.HashPw(DefaultAdminPassword, salt);
      if DefaultAdminName !in users {
        users := users[DefaultAdminName := UserRecord(passwordHash, DefaultAdminRole)];
      }
    }

    /** `migrate_users_from_file`: for each row in file order, hash its password
        and insert it unless its username is taken. */
    method MigrateUsersFromFile(file: Option<seq<CsvRow>>, salts: seq<Bcrypt.Salt>)
      requires file.Some? ==> |salts| == |file.value|
      modifies this
      ensures users == Migrate(old(users), file, salts)
    {
      if file.None? {
        return;
      }
      var rows := file.value;
      for i := 0 to |rows|
        invariant MigrateRows(users, rows[i..], salts[i..]) == MigrateRows(old(users), rows, salts)
      {
        var row := rows[i];
        var passwordHash := Bcrypt.HashPw(row.password, salts[i]);
        assert rows[i..][1..] == rows[i + 1..] && salts[i..][1..] == salts[i + 1..];
        if row.username !in users {
          users := users[row.username := UserRecord(passwordHash, row.role)];
        }
      }
      assert rows[|rows|..] == [];
    }
  }
}
