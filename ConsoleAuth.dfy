/**
 * The console authentication demo: input validators for username, password
 * and role, and a credential file `users.txt` of lines `username,hash,role`
 * that `register_user` appends to, `user_exists` scans for a line starting
 * with `username + ","` and `login_user` scans for the first line whose
 * username field is the given name.
 *
 * The file is `None` before anything was registered and otherwise its lines,
 * each without its line terminator. Reading a line whose stripped text does
 * not split into exactly three comma-separated fields makes `login_user`
 * raise (the tuple unpacking fails), which is the result `ValueError`.
 */
module ConsoleAuth {
  import opened Wrappers
  import opened Text
  import Bcrypt

  const MsgBadUsername: string := "Username must be 3-20 alphanumeric characters."
  const MsgBadPassword: string := "Password must be 6-50 characters."
  const MsgBadRole: string := "Role must be one of: admin, cyber, data, it."

  const AllowedRoles: set<string> := {"admin", "cyber", "data", "it"}

  /** `validate_username`: 3 to 20 characters, all letters or digits. */
  function ValidateUsername(username: string): (r: (bool, string))
    ensures r.0 <==> 3 <= |username| <= 20 && forall k :: 0 <= k < |username| ==> IsAlnumChar(username[k])
    ensures r.1 == if r.0 then "" else MsgBadUsername
  {
    if !(3 <= |username| <= 20) || !IsAlnum(username) then (false, MsgBadUsername) else (true, "")
  }

  /** `validate_password`: 6 to 50 characters, any characters. */
  function ValidatePassword(password: string): (r: (bool, string))
    ensures r.0 <==> 6 <= |password| <= 50
    ensures r.1 == if r.0 then "" else MsgBadPassword
  {
    if !(6 <= |password| <= 50) then (false, MsgBadPassword) else (true, "")
  }

  /** `validate_role`: the role, lower-cased, is one of the four allowed roles. */
  function ValidateRole(role: string): (r: (bool, string))
    ensures r.0 <==> Lower(role) in AllowedRoles
    ensures r.1 == if r.0 then "" else MsgBadRole
  {
    if Lower(role) !in AllowedRoles then (false, MsgBadRole) else (true, "")
  }

  /** The role check ignores letter case: two spellings of a role that agree
      once lower-cased are accepted or refused together. */
  lemma ValidateRoleIgnoresCase(role1: string, role2: string)
    requires Lower(role1) == Lower(role2)
    ensures ValidateRole(role1) == ValidateRole(role2)
  {
  }

  /** The line `register_user` writes: `username,hash,role.lower()`. */
  function Record(username: string, hashed: string, role: string): string {
    username + "," + hashed + "," + Lower(role)
  }

  /** What `login_user` makes of a line: `line.strip().split(",")`. */
  function Fields(line: string): seq<string> {
    SplitOn(Strip(line), ',')
  }

  /** The lines of the file; a missing file has none. */
  function LinesOf(file: Option<seq<string>>): seq<string> {
    match file
    case None => []
    case Some(lines) => lines
  }

  /** `user_exists`: some line starts with `username + ","`; never, without a file. */
  function HasUser(file: Option<seq<string>>, username: string): (found: bool)
    ensures file.None? ==> !found
  {
    file.Some? && exists k :: 0 <= k < |file.value| && StartsWith(file.value[k], username + ",")
  }

  /** `login_user` returns a boolean, or raises `ValueError` while reading the
      given line. */
  datatype LoginResult = Returned(ok: bool) | ValueError(line: nat)

  /** Line `k` ends the scan of `login_user`: it cannot be unpacked, or its
      username field is the one sought. */
  predicate DecidesAt(lines: seq<string>, k: nat, username: string)
    requires k < |lines|
  {
    |Fields(lines[k])| != 3 || Fields(lines[k])[0] == username
  }

  /** A line that `username, stored_hash, role = ...` cannot unpack. */
  predicate Malformed(line: string) {
    |Fields(line)| != 3
  }

  /** Line `line` names `username` in its first of three fields, and `password`
      verifies against the hash in its second. */
  predicate Admits(line: string, username: string, password: string) {
    |Fields(line)| == 3 && Fields(line)[0] == username && Bcrypt.CheckPw(password, Fields(line)[1])
  }

  /** The scan of `login_user` from line `k` on. It raises only at a line that
      cannot be unpacked, and it returns true only when some line from `k` on
      admits the credentials. */
  function LoginFrom(lines: seq<string>, k: nat, username: string, password: string): (r: LoginResult)
    requires k <= |lines|
    ensures r.ValueError? ==> k <= r.line < |lines| && Malformed(lines[r.line])
    ensures r == Returned(true) ==> exists j :: k <= j < |lines| && Admits(lines[j], username, password)
    decreases |lines| - k
  {
    if k == |lines| then Returned(false)
    else
      var fields := Fields(lines[k]);
      if |fields| != 3 then ValueError(k)
      else if fields[0] == username then Returned(Bcrypt.CheckPw(password, fields[1]))
      else LoginFrom(lines, k + 1, username, password)
  }

  /** `login_user(username, password)` against the file: false without a file;
      a `ValueError` only at a line that cannot be unpacked; true only when some
      line admits the credentials. */
  function Login(file: Option<seq<string>>, username: string, password: string): (r: LoginResult)
    ensures file.None? ==> r == Returned(false)
    ensures r.ValueError? ==> r.line < |LinesOf(file)| && Malformed(LinesOf(file)[r.line])
    ensures r == Returned(true) ==> exists j :: 0 <= j < |LinesOf(file)| && Admits(LinesOf(file)[j], username, password)
  {
    match file
    case None => Returned(false)
    case Some(lines) =>
      assert LinesOf(file) == lines;
      LoginFrom(lines, 0, username, password)
  }

  /** The scan decides on the first deciding line: it raises there if that line
      cannot be unpacked, and otherwise returns whether the password verifies
      against that line's hash. */
  lemma {:induction false} LoginFromFirstMatch(lines: seq<string>, k: nat, first: nat,
                                               username: string, password: string)
    requires k <= first < |lines| && DecidesAt(lines, first, username)
    requires forall j :: k <= j < first ==> !DecidesAt(lines, j, username)
    ensures LoginFrom(lines, k, username, password)
      == if |Fields(lines[first])| != 3 then ValueError(first)
         else Returned(Bcrypt.CheckPw(password, Fields(lines[first])[1]))
    decreases first - k
  {
    var fields := Fields(lines[k]);
    if k < first {
      assert !DecidesAt(lines, k, username);
      assert |fields| == 3 && fields[0] != username;
      LoginFromFirstMatch(lines, k + 1, first, username, password);
    }
  }

  /** `login_user` decides on the first line whose username field matches (or
      that cannot be unpacked); it returns true iff the password verifies
      against that line's hash. */
  lemma LoginDecidesOnFirstMatch(lines: seq<string>, first: nat, username: string, password: string)
    requires first < |lines| && DecidesAt(lines, first, username)
    requires forall j :: 0 <= j < first ==> !DecidesAt(lines, j, username)
    ensures Login(Some(lines), username, password)
      == if |Fields(lines[first])| != 3 then ValueError(first)
         else Returned(Bcrypt.CheckPw(password, Fields(lines[first])[1]))
  {
    LoginFromFirstMatch(lines, 0, first, username, password);
  }

  /** With no matching line and every line readable, `login_user` returns false:
      it raises only at a malformed line and succeeds only at a matching one. */
  lemma LoginFromNoMatch(lines: seq<string>, k: nat, username: string, password: string)
    requires k <= |lines|
    requires forall j :: k <= j < |lines| ==> !DecidesAt(lines, j, username)
    ensures LoginFrom(lines, k, username, password) == Returned(false)
  {
    forall j | k <= j < |lines|
      ensures !Malformed(lines[j]) && !Admits(lines[j], username, password)
    {
      assert !DecidesAt(lines, j, username);
    }
  }

  /** Without a file, or without a deciding line, login fails. */
  lemma LoginNoMatch(file: Option<seq<string>>, username: string, password: string)
    requires forall j :: 0 <= j < |LinesOf(file)| ==> !DecidesAt(LinesOf(file), j, username)
    ensures Login(file, username, password) == Returned(false)
  {
    if file.Some? {
      assert LinesOf(file) == file.value;
      LoginFromNoMatch(file.value, 0, username, password);
    }
  }

  /** Lines after the deciding one are never consulted. */
  lemma {:induction false} LoginFromIgnoresLaterLines(lines: seq<string>, more: seq<string>, k: nat,
                                                      username: string, password: string)
    requires k <= |lines|
    requires exists j :: k <= j < |lines| && DecidesAt(lines, j, username)
    ensures LoginFrom(lines + more, k, username, password) == LoginFrom(lines, k, username, password)
    decreases |lines| - k
  {
    assert (lines + more)[k] == lines[k];
    if !DecidesAt(lines, k, username) {
      LoginFromIgnoresLaterLines(lines, more, k + 1, username, password);
    }
  }

  lemma LoginIgnoresLaterLines(lines: seq<string>, more: seq<string>, username: string, password: string)
    requires exists j :: 0 <= j < |lines| && DecidesAt(lines, j, username)
    ensures Login(Some(lines + more), username, password) == Login(Some(lines), username, password)
  {
    LoginFromIgnoresLaterLines(lines, more, 0, username, password);
  }

  /** A line as `register_user` leaves it for `login_user`: three fields and no
      leading whitespace. */
  predicate WellFormedLine(line: string) {
    |Fields(line)| == 3 && line != [] && line[0] !in Whitespace
  }

  predicate WellFormedFile(file: Option<seq<string>>) {
    forall k :: 0 <= k < |LinesOf(file)| ==> WellFormedLine(LinesOf(file)[k])
  }

  predicate NoLineBreak(s: string) {
    '\n' !in s && '\r' !in s
  }

  /** A username and a role that `register_user` writes as one readable line:
      no comma and no line break in either, no whitespace at the start of the
      username or at the end of the lower-cased role. */
  predicate CanStore(username: string, role: string) {
    && ',' !in username && NoLineBreak(username)
    && (username == [] || username[0] !in Whitespace)
    && ',' !in Lower(role) && NoLineBreak(Lower(role))
    && (Lower(role) == [] || Lower(role)[|Lower(role)| - 1] !in Whitespace)
  }

  /** A letter or a digit is neither a comma nor whitespace. */
  lemma AlnumIsPlain(c: char)
    requires IsAlnumChar(c)
    ensures c != ',' && c !in Whitespace
  {
  }

  /** Each allowed role is a non-empty run of lower-case letters. */
  lemma AllowedRoleIsLetters(r: string)
    requires r in AllowedRoles
    ensures r != [] && forall k :: 0 <= k < |r| ==> IsAlnumChar(r[k])
  {
    if r == "admin" {
    } else if r == "cyber" {
    } else if r == "data" {
    } else {
      assert r == "it";
    }
  }

  /** Usernames and roles that pass the validators can be stored. */
  lemma ValidInputsCanStore(username: string, role: string)
    requires ValidateUsername(username).0 && ValidateRole(role).0
    ensures CanStore(username, role)
  {
    forall k | 0 <= k < |username| ensures username[k] != ',' && username[k] !in Whitespace {
      AlnumIsPlain(username[k]);
    }
    var r := Lower(role);
    AllowedRoleIsLetters(r);
    forall k | 0 <= k < |r| ensures r[k] != ',' && r[k] !in Whitespace {
      AlnumIsPlain(r[k]);
    }
    assert '\n' in Whitespace && '\r' in Whitespace;
  }

  /** `a,b,c` is the comma-join of the three fields. */
  lemma JoinThree(a: string, b: string, c: string)
    ensures a + "," + b + "," + c == JoinOn([a, b, c], ',')
  {
    assert [a, b, c][1..] == [b, c] && [b, c][1..] == [c];
    assert JoinOn([c], ',') == c;
    assert JoinOn([b, c], ',') == b + [','] + c;
    assert JoinOn([a, b, c], ',') == a + [','] + (b + [','] + c);
  }

  /** The first and last characters of `a,b,c`. */
  lemma JoinThreeEnds(a: string, b: string, c: string)
    ensures var line := a + "," + b + "," + c;
      && line[0] == (if a != [] then a[0] else ',')
      && line[|line| - 1] == (if c != [] then c[|c| - 1] else ',')
  {
    var front := a + "," + b + ",";
    assert a + "," + b + "," + c == front + c;
    assert front == a + ([','] + b + [',']);
    assert front[|front| - 1] == ',';
    assert front[0] == (if a != [] then a[0] else ',');
  }

  /** A stored line reads back as its three fields. */
  lemma RecordFields(username: string, password: string, salt: Bcrypt.Salt, role: string)
    requires CanStore(username, role)
    ensures var line := Record(username, Bcrypt.HashPw(password, salt), role);
      Fields(line) == [username, Bcrypt.HashPw(password, salt), Lower(role)] && WellFormedLine(line)
  {
    var hashed := Bcrypt.HashPw(password, salt);
    var r := Lower(role);
    var line := Record(username, hashed, role);
    var fields := [username, hashed, r];
    assert ',' !in hashed;
    assert forall k :: 0 <= k < |fields| ==> ',' !in fields[k];
    JoinThree(username, hashed, r);
    JoinThreeEnds(username, hashed, r);
    StripNothing(line, Whitespace);
    SplitOnJoinOn(fields, ',');
  }

  /** On a well-formed line, a username field equal to `username` means the
      line starts with `username + ","`, which is what `user_exists` looks for. */
  lemma MatchingLineStartsWithName(line: string, username: string)
    requires WellFormedLine(line) && Fields(line)[0] == username
    ensures StartsWith(line, username + ",")
  {
    StripKeepsPrefix(line, Whitespace);
    SplitOnFirstField(Strip(line), ',');
  }

  /** On a well-formed file without the user, no line decides a login for it,
      whatever line is appended after them. */
  lemma NoEarlierMatch(file: Option<seq<string>>, line: string, username: string)
    requires WellFormedFile(file) && !HasUser(file, username)
    ensures forall j :: 0 <= j < |LinesOf(file)| ==> !DecidesAt(LinesOf(file) + [line], j, username)
  {
    var lines := LinesOf(file);
    forall j | 0 <= j < |lines|
      ensures !DecidesAt(lines + [line], j, username)
    {
      assert (lines + [line])[j] == lines[j];
      assert WellFormedLine(lines[j]);
      if Fields(lines[j])[0] == username {
        MatchingLineStartsWithName(lines[j], username);
        assert false;
      }
    }
  }

  /** Appending a well-formed line keeps the file well-formed. */
  lemma AppendWellFormed(file: Option<seq<string>>, line: string)
    requires WellFormedFile(file) && WellFormedLine(line)
    ensures WellFormedFile(Some(LinesOf(file) + [line]))
  {
    var lines' := LinesOf(file) + [line];
    assert LinesOf(Some(lines')) == lines';
    forall k | 0 <= k < |lines'| ensures WellFormedLine(lines'[k]) {
      if k < |LinesOf(file)| {
        assert lines'[k] == LinesOf(file)[k];
      }
    }
  }

  /** Registration followed by login: on a well-formed file without the user,
      the line `register_user` appends lets `login_user` succeed with the same
      password, and the file stays well-formed. */
  lemma RegisterThenLogin(file: Option<seq<string>>, username: string, password: string,
                          salt: Bcrypt.Salt, role: string)
    requires WellFormedFile(file) && !HasUser(file, username) && CanStore(username, role)
    ensures var file' := Some(LinesOf(file) + [Record(username, Bcrypt.HashPw(password, salt), role)]);
      Login(file', username, password) == Returned(true) && WellFormedFile(file')
  {
    var line := Record(username, Bcrypt.HashPw(password, salt), role);
    var lines' := LinesOf(file) + [line];
    RecordFields(username, password, salt, role);
    NoEarlierMatch(file, line, username);
    assert lines'[|LinesOf(file)|] == line;
    LoginDecidesOnFirstMatch(lines', |LinesOf(file)|, username, password);
    Bcrypt.CheckPwHashPw(password, salt);
    AppendWellFormed(file, line);
  }

  /** The registration path of the console menu: inputs that pass all three
      validators, registered on a well-formed file that does not hold the
      username yet, log in with the same password. */
  lemma ValidRegistrationLogsIn(file: Option<seq<string>>, username: string, password: string,
                                salt: Bcrypt.Salt, role: string)
    requires ValidateUsername(username).0 && ValidatePassword(password).0 && ValidateRole(role).0
    requires WellFormedFile(file) && !HasUser(file, username)
    ensures Login(Some(LinesOf(file) + [Record(username, Bcrypt.HashPw(password, salt), role)]),
                  username, password) == Returned(true)
  {
    ValidInputsCanStore(username, role);
    RegisterThenLogin(file, username, password, salt, role);
  }

  /** `user_exists` after an append: the user was there already, or the new
      line starts with `username + ","`. */
  lemma {:induction false} HasUserAppend(lines: seq<string>, line: string, username: string)
    ensures HasUser(Some(lines + [line]), username)
      <==> (HasUser(Some(lines), username) || StartsWith(line, username + ","))
  {
    var lines' := lines + [line];
    if HasUser(Some(lines'), username) {
      var k :| 0 <= k < |lines'| && StartsWith(lines'[k], username + ",");
      if k < |lines| {
        assert lines'[k] == lines[k];
      }
    }
    if HasUser(Some(lines), username) {
      var k :| 0 <= k < |lines| && StartsWith(lines[k], username + ",");
      assert lines'[k] == lines[k];
    }
    if StartsWith(line, username + ",") {
      assert lines'[|lines|] == line;
    }
  }

  /** Once registered, a username is known to `user_exists`, so registering
      it a second time is refused, whatever the line holds after the name. */
  lemma RegisteredUserExists(file: Option<seq<string>>, username: string, hashed: string, role: string)
    ensures HasUser(Some(LinesOf(file) + [Record(username, hashed, role)]), username)
  {
    var line := Record(username, hashed, role);
    assert line == (username + ",") + (hashed + "," + Lower(role));
    assert StartsWith(line, username + ",");
    HasUserAppend(LinesOf(file), line, username);
  }

  /** The credential file `users.txt`. */
  class CredentialFile {
    var file: Option<seq<string>>

    constructor ()
      ensures file == None
    {
      file := None;
    }

    /** `user_exists`: scan the lines for one starting with `username + ","`. */
    method UserExists(username: string) returns (found: bool)
      ensures found == HasUser(file, username)
    {
      if file.None? {
        return false;
      }
      var lines := file.value;
      var prefix := username + ",";
      for k := 0 to |lines|
        invariant forall j :: 0 <= j < k ==> !StartsWith(lines[j], prefix)
      {
        if StartsWith(lines[k], prefix) {
          return true;
        }
      }
      return false;
    }

    /** `register_user`: refuse a known username; otherwise append the line
        `username,hash,role.lower()`, creating the file if need be. */
    method RegisterUser(username: string, password: string, role: string, salt: Bcrypt.Salt)
      returns (ok: bool)
      modifies this
      ensures ok == !HasUser(old(file), username)
      ensures file == if ok then Some(LinesOf(old(file)) + [Record(username, Bcrypt.HashPw(password, salt), role)])
                      else old(file)
    {
      var exists_ := UserExists(username);
      if exists_ {
        return false;
      }
      var hashed := Bcrypt.HashPw(password, salt);
      var lines := if file.None? then [] else file.value;
      file := Some(lines + [Record(username, hashed, role)]);
      return true;
    }

    /** `login_user`: scan the lines; at the first whose username field
        matches, answer whether the password verifies against its hash. */
    method LoginUser(username: string, password: string) returns (r: LoginResult)
      ensures r == Login(file, username, password)
    {
      if file.None? {
        return Returned(false);
      }
      var lines := file.value;
      for k := 0 to |lines|
        invariant LoginFrom(lines, k, username, password) == LoginFrom(lines, 0, username, password)
      {
        var stripped := Strip(lines[k]);
        var parts := SplitOn(stripped, ',');
        if |parts| != 3 {
          return ValueError(k);
        }
        if parts[0] == username {
          return Returned(Bcrypt.CheckPw(password, parts[1]));
        }
      }
      return Returned(false);
    }
  }
}
