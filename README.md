# Cyber-security coursework platform: verified model of its core logic

This project is a Dafny model of the parts of the coursework repository that
carry logic of their own:

- **Sessions** (`app/services/session_service.py`, module `SessionService`).
  The sessions table is keyed by token. `create_session` inserts a row valid
  for `hours_valid` hours (one by default). `validate_session` grants access
  to a known, unexpired token and deletes an expired row when it finds one.
  `delete_session` removes a row.
- **Users** (`app/services/user_service.py`, module `UserService`). The users
  table is keyed by username. The module covers lookup, check-then-insert
  registration, and login that opens a session. It also covers the default
  admin account and the insert-if-absent CSV migration.
- **Console authentication** (`auth.py`, module `ConsoleAuth`). It covers the
  username, password and role validators and the credential file `users.txt`
  of lines `username,hash,role`. `user_exists` scans that file by prefix,
  `register_user` appends a line and `login_user` decides on the first
  matching line.
- **FCFS scheduling** (`CW2_M01079167_CST1500.py`, module `Fcfs`). It
  computes the waiting and turnaround times of first-come-first-served
  scheduling.
- **Word frequency** (`script.py`, module `WordFrequency`). It lower-cases
  the text, splits it, strips punctuation, counts the words and ranks them by
  count.

Supporting modules:

- `Text` models the ASCII behaviour of the Python string methods the code
  uses (`lower`, `isalnum`, `startswith`, `strip`, `split()` and `split(sep)`).
- `Bcrypt` is a stand-in for `bcrypt.hashpw`/`bcrypt.checkpw`. A hash has
  bcrypt's layout (`$2b$12$`, a 22-character salt, a 31-character digest).
  The version `2b` and the cost 12 are fixed, as `gensalt()` produces them.
  The salt is 16 bytes in radix-64, so its last character is one of `.`, `O`,
  `e` or `u`. Checking re-hashes the candidate password with the salt stored
  in the hash.
  The digest is a placeholder: nothing proved depends on which function it is.
- `Wrappers` holds `Option`.

Where the code updates state, the model is imperative:

- `SessionStore` keeps the sessions table as a map field.
- `UserDatabase` keeps the users table.
- `CredentialFile` keeps the lines of `users.txt`.
- The loops of `fcfs_scheduling` and of the word counter are `while`/`for`
  loops.

Each imperative method is proved equal to a value-level function:
`Step` for sessions, `Register`/`Login`/`DefaultAdmin`/`Migrate` for users,
`HasUser`/`Login` for the file, `BurstsBefore` for scheduling, and `Tally` and
`IsRanking` for word counts. The properties the code promises are proved as
lemmas about those functions.

The nondeterministic inputs become parameters:

- The clock is an integer count of microseconds passed in as `now`. That is
  the resolution of Python's `datetime`, and its ISO text round-trips exactly.
- A session token is a caller-supplied value not yet in the table. It stands
  for `uuid.uuid4()`.
- A bcrypt salt is a parameter. It stands for `gensalt()`.
- A storage failure (an exception caught by the code) is a parameter `fault`.
- The CSV file of the migration is its rows, or `None` when it is missing.
- `users.txt` is `None` until the first registration and otherwise its lines,
  each without its line terminator.

## Model

| member | source | states |
|---|---|---|
| Text.Lower | script.py:9 | `lower()` keeps the length and lower-cases each ASCII upper-case letter in place, leaving every other character |
| Text.LowerIdempotent | auth.py:39-43 | lower-casing an already lower-cased role again (the menu, `validate_role` and `register_user` each do it) changes nothing |
| Text.LowerKeeps | script.py:9 | lower-casing neither adds nor removes whitespace or punctuation, so splitting and stripping see the same separators |
| Text.StripChars | script.py:14 | `strip(chars)` keeps one contiguous slice: everything before and after it is in the set, and its first and last characters are not |
| Text.StripBoundsUnique | script.py:14 | only one slice meets that characterisation |
| Text.StripCharsUnique | script.py:14 | every string meeting the characterisation equals the result of `strip` |
| Text.StripAllGone | script.py:14 | a string made only of stripped characters strips to the empty string |
| Text.StripKeepsPrefix | auth.py:59 | a line that does not start with whitespace strips to one of its prefixes |
| Text.StripNothing | auth.py:59 | a line with no whitespace at either end is unchanged by `strip()` |
| Text.Split | script.py:9 | every piece of `split()` is non-empty and free of whitespace |
| Text.SplitSkipsSpace | script.py:9 | leading whitespace does not change the pieces of `split()` |
| Text.SplitWord | script.py:9 | a word followed by whitespace or by nothing is split off as exactly one piece |
| Text.SplitJoinWords | script.py:9 | splitting words joined by single spaces gives back those words |
| Text.SplitOn | auth.py:59 | `split(",")` gives at least one field and no field contains a comma |
| Text.JoinOnSplitOn | auth.py:59 | joining the fields with the separator rebuilds the line |
| Text.SplitOnJoinOn | auth.py:51 | a line written as comma-joined comma-free fields splits back into exactly those fields |
| Text.SplitOnFirstField | auth.py:59 | a line with two or more fields starts with its first field followed by the comma |
| Bcrypt.HashPw | auth.py:5-13 | a hash is 60 characters with no comma and no whitespace, so it fits a comma-separated line |
| Bcrypt.SaltOfHashPw | auth.py:11-12 | the salt used can be read back out of the hash, behind the `$2b$12$` prefix |
| Bcrypt.CheckPwHashPw | auth.py:15-20 | a password verifies against its own hash, whatever the salt |
| Bcrypt.CheckPw | auth.py:15-20 | only a 60-character string with the `$2b$12$` prefix can verify; a malformed hash is refused rather than raising |
| Bcrypt.CheckPwIffHashOf | auth.py:15-20 | a password verifies against a string iff that string is the password's hash under some salt |
| Bcrypt.HashPwSalted | auth.py:11-12 | one password hashed under two different salts gives two different hashes, and it verifies against both |
| SessionService.Step | CW2_M01079167_CST1510/app/services/session_service.py:9-100 | no operation rewrites an existing row; only the token operated on can appear or disappear; only a validation gets a yes/no answer, and a yes means the token is known and the table is unchanged |
| SessionService.CreateInsertsRow | CW2_M01079167_CST1510/app/services/session_service.py:9-39 | a fresh token gets the row `(username, now + hours)`, the other rows are unchanged, and the token is returned |
| SessionService.DefaultWindowIsOneHour | CW2_M01079167_CST1510/app/services/session_service.py:9-17 | without an explicit window a session expires one hour (3,600,000,000 microseconds) after `now` |
| SessionService.CreateRefusesUsedToken | CW2_M01079167_CST1510/app/services/session_service.py:23-34 | a token already in the table is refused by the primary key and the table is unchanged |
| SessionService.ValidateGrantsOnlyLive | CW2_M01079167_CST1510/app/services/session_service.py:45-79 | validation grants access iff the storage works, the token is known and `now <= expiresAt`; it only ever removes that token's row |
| SessionService.ValidateUnknownToken | CW2_M01079167_CST1510/app/services/session_service.py:54-61 | an unknown token is refused and the table is unchanged |
| SessionService.ValidateFailsClosed | CW2_M01079167_CST1510/app/services/session_service.py:76-79 | a storage failure during validation refuses access and changes nothing |
| SessionService.ValidateLiveSession | CW2_M01079167_CST1510/app/services/session_service.py:68-75 | at or before the expiry time validation grants access and leaves the table as it is |
| SessionService.ValidateReapsExpired | CW2_M01079167_CST1510/app/services/session_service.py:68-72 | after the expiry time validation refuses access and deletes exactly that row |
| SessionService.DeleteIdempotent | CW2_M01079167_CST1510/app/services/session_service.py:85-96 | deletion removes the row if any, touches no other row, reports success either way, and a second deletion changes nothing |
| SessionService.DeleteFault | CW2_M01079167_CST1510/app/services/session_service.py:97-100 | a storage failure during deletion reports failure and changes nothing |
| SessionService.AbsentStaysAbsent | CW2_M01079167_CST1510/app/services/session_service.py:54-61 | over any sequence of operations that does not insert a token, a missing token stays missing and every validation of it is refused |
| SessionService.ExpiredStaysRefused | CW2_M01079167_CST1510/app/services/session_service.py:68-72 | once an expired token has been validated, it and every later validation of it are refused unless it is inserted again |
| SessionService.LiveUntilExpiry | CW2_M01079167_CST1510/app/services/session_service.py:68-75 | until it is deleted, a session keeps its row and passes every working validation made at or before its expiry time |
| SessionService.SessionStore.constructor | CW2_M01079167_CST1510/app/services/session_service.py:23-29 | a new sessions table is empty |
| SessionService.SessionStore.CreateSession | CW2_M01079167_CST1510/app/services/session_service.py:9-39 | the table and the returned token are the ones `Step` gives for that insert |
| SessionService.SessionStore.ValidateSession | CW2_M01079167_CST1510/app/services/session_service.py:45-79 | the table and the answer are the ones `Step` gives for that validation |
| SessionService.SessionStore.DeleteSession | CW2_M01079167_CST1510/app/services/session_service.py:85-100 | the table and the answer are the ones `Step` gives for that deletion |
| UserService.Lookup | CW2_M01079167_CST1510/app/services/user_service.py:9-20 | the lookup is `None` iff the name is not stored, and otherwise the stored row for exactly that name |
| UserService.Register | CW2_M01079167_CST1510/app/services/user_service.py:26-49 | success iff the storage works and the name is new; the names afterwards are the old ones plus the new one on success; no existing row changes |
| UserService.Login | CW2_M01079167_CST1510/app/services/user_service.py:55-73 | success iff the user exists and the password verifies against the stored hash; a failure opens no session and returns no token or role; a success adds exactly the given token, for that username |
| UserService.DefaultAdmin | CW2_M01079167_CST1510/app/services/user_service.py:79-106 | the names afterwards are the old ones plus `admin`, and no existing row changes |
| UserService.Migrate | CW2_M01079167_CST1510/app/services/user_service.py:112-143 | a missing file changes nothing; no existing row changes; the names afterwards are the old ones plus the names in the file |
| UserService.RegisterTakenName | CW2_M01079167_CST1510/app/services/user_service.py:35-38 | registering a taken name fails with "already exists" and leaves the table unchanged |
| UserService.RegisterNewName | CW2_M01079167_CST1510/app/services/user_service.py:40-46 | a new name is inserted exactly as given, with no format check, the other rows are kept, and a second registration of it fails |
| UserService.RegisterFault | CW2_M01079167_CST1510/app/services/user_service.py:47-49 | a storage failure reports the error text and inserts nothing |
| UserService.LoginOutcomes | CW2_M01079167_CST1510/app/services/user_service.py:55-73 | login succeeds iff the user exists and the password verifies; the two failures give their own messages and open no session; success opens exactly one one-hour session for the stored name and returns its token and the stored role |
| UserService.RegisterThenLogin | CW2_M01079167_CST1510/app/services/user_service.py:26-73 | registering a hash of a password and then logging in with that password succeeds, and the new session validates at once |
| UserService.DefaultAdminIdempotent | CW2_M01079167_CST1510/app/services/user_service.py:79-106 | afterwards `admin` exists; an existing `admin` is never replaced; a fresh one has role `admin` and password `admin123`; a second call changes nothing |
| UserService.MigrateKeepsExisting | CW2_M01079167_CST1510/app/services/user_service.py:122-137 | migration never changes an existing user, and the names afterwards are exactly the old names plus the names in the file |
| UserService.MigrateFirstRowWins | CW2_M01079167_CST1510/app/services/user_service.py:122-137 | among rows with the same new username, the first row's role and password hash are what is stored |
| UserService.MigrateIdempotent | CW2_M01079167_CST1510/app/services/user_service.py:112-143 | migrating the same file a second time changes nothing, whatever salts are drawn |
| UserService.MigrateMissingFile | CW2_M01079167_CST1510/app/services/user_service.py:140-141 | a missing file leaves the table unchanged |
| UserService.MigrateAllPresent | CW2_M01079167_CST1510/app/services/user_service.py:130-132 | rows whose names are all present already insert nothing |
| UserService.UserDatabase.constructor | CW2_M01079167_CST1510/app/data/schema.py:17-23 | a new users table is empty, next to the given sessions table |
| UserService.UserDatabase.RegisterUser | CW2_M01079167_CST1510/app/services/user_service.py:26-49 | the table and the `(success, message)` reply are the ones `Register` gives |
| UserService.UserDatabase.LoginUser | CW2_M01079167_CST1510/app/services/user_service.py:55-73 | the sessions table and the 4-tuple reply are the ones `Login` gives |
| UserService.UserDatabase.CreateDefaultAdmin | CW2_M01079167_CST1510/app/services/user_service.py:79-106 | the table is the one `DefaultAdmin` gives |
| UserService.UserDatabase.MigrateUsersFromFile | CW2_M01079167_CST1510/app/services/user_service.py:112-143 | the table is the one `Migrate` gives: each row in file order is inserted unless its name is taken |
| ConsoleAuth.ValidateUsername | auth.py:29-32 | accepted iff 3 to 20 characters, all ASCII letters or digits; the error message otherwise |
| ConsoleAuth.ValidatePassword | auth.py:34-37 | accepted iff 6 to 50 characters; the error message otherwise |
| ConsoleAuth.ValidateRole | auth.py:39-43 | accepted iff the lower-cased role is admin, cyber, data or it; the error message otherwise |
| ConsoleAuth.ValidateRoleIgnoresCase | auth.py:39-43 | two spellings of a role that agree once lower-cased are accepted or refused together |
| ConsoleAuth.HasUser | auth.py:22-27 | without a file no user exists |
| ConsoleAuth.HasUserAppend | auth.py:22-27 | after a line is appended, a user exists iff it existed before or the new line starts with `name + ","` |
| ConsoleAuth.RegisteredUserExists | auth.py:45-53 | once a name is registered it exists, so registering it again is refused |
| ConsoleAuth.LoginFrom | auth.py:58-68 | the scan raises only at a line that does not unpack into three fields, and returns true only if some line names the user with a hash the password verifies against |
| ConsoleAuth.Login | auth.py:55-71 | false without a file; it raises only at a line that does not unpack into three fields, and returns true only if some line names the user with a hash the password verifies against |
| ConsoleAuth.LoginFromFirstMatch | auth.py:58-66 | the scan decides on the first line that matches the username or cannot be unpacked |
| ConsoleAuth.LoginDecidesOnFirstMatch | auth.py:55-66 | `login_user` returns true iff the password verifies against the first matching line's hash, and raises if that line cannot be unpacked |
| ConsoleAuth.LoginFromNoMatch | auth.py:58-68 | with no matching or malformed line from a position on, the scan returns false |
| ConsoleAuth.LoginNoMatch | auth.py:55-71 | with no file, or with no matching or malformed line, login returns false |
| ConsoleAuth.LoginFromIgnoresLaterLines | auth.py:58-66 | lines after the deciding one never change the result of the scan |
| ConsoleAuth.LoginIgnoresLaterLines | auth.py:55-66 | appending lines after a deciding line does not change the result of `login_user` |
| ConsoleAuth.ValidInputsCanStore | auth.py:29-43 | a username and role that pass the validators contain no comma, line break or boundary whitespace that would break the stored line |
| ConsoleAuth.RecordFields | auth.py:49-59 | the line `register_user` writes reads back, after `strip().split(",")`, as exactly username, hash and lower-cased role |
| ConsoleAuth.MatchingLineStartsWithName | auth.py:22-25 | on a well-formed line, a username field equal to the name means the line starts with `name + ","` |
| ConsoleAuth.RegisterThenLogin | auth.py:45-66 | on a well-formed file without the user, the appended line makes `login_user` succeed with the same password and keeps the file well-formed |
| ConsoleAuth.ValidRegistrationLogsIn | auth.py:90-115 | inputs that pass all three validators, once registered, log in with the same password |
| ConsoleAuth.CredentialFile.constructor | auth.py:3 | before any registration there is no credential file |
| ConsoleAuth.CredentialFile.UserExists | auth.py:22-27 | true iff the file exists and some line starts with `username + ","` |
| ConsoleAuth.CredentialFile.RegisterUser | auth.py:45-53 | a known user is refused and the file unchanged; otherwise exactly the line `username,hash,role.lower()` is appended after the earlier lines |
| ConsoleAuth.CredentialFile.LoginUser | auth.py:55-71 | the result is the one `Login` gives: no file gives false, otherwise the first deciding line decides |
| Fcfs.Schedule | CW2_M01079167_CST1500.py:23-37 | the first wait is 0; each wait is the sum of the earlier bursts; each turnaround is burst plus wait, the sum of the bursts up to that process; both lists follow input order |
| Fcfs.WaitingNonDecreasing | CW2_M01079167_CST1500.py:29-32 | with no negative burst, waiting times never decrease along the queue |
| Fcfs.DefaultRun | CW2_M01079167_CST1500.py:60-67 | the default input gives waits 0, 5, 13 and turnarounds 5, 13, 25 |
| WordFrequency.CountWords | script.py:9-15 | the dictionary is the tally of the cleaned tokens of the lower-cased text, in order |
| WordFrequency.TallyCounts | script.py:12-15 | the keys are exactly the cleaned words, and each count is the number of tokens that clean to that key |
| WordFrequency.OccursCounted | script.py:15 | a word occurs at least once iff it is among the words |
| WordFrequency.TallyPositive | script.py:15 | every key has a count of at least 1 |
| WordFrequency.TallySum | script.py:12-15 | the counts add up to the number of tokens |
| WordFrequency.TokensIgnoreCase | script.py:9 | texts that agree once lower-cased give the same tokens, so counting ignores case |
| WordFrequency.PunctuationOnlyCountsAsEmpty | script.py:14-15 | a token made only of stripped punctuation is counted under the empty string |
| WordFrequency.CleanKeepsInterior | script.py:14 | cleaning drops punctuation only from the two ends of a token and keeps the rest |
| WordFrequency.RankByCount | script.py:18-19 | the rows list every dictionary key once, with its count, by count from highest to lowest |
| WordFrequency.WordCountTable | script.py:9-19 | the output rows are a ranking by descending count of the word counts of the text |

## Left out

- User interface: the Streamlit pages, `main.py`, the console menu loop of
  `auth.py` (`display_menu`, `main`, `input`) and every `print` message. Only
  the registration path of the menu is stated, as a lemma about its three
  validators.
- The Gemini chat client and the `app/data` helpers. The helpers are pandas
  and single SQL statements with no logic of their own.
- Connection handling, `CREATE TABLE IF NOT EXISTS` and transactions. Each
  operation is one atomic step on a map.
- Concurrency: the check-then-insert race in `register_user` and concurrent
  database access. The model is sequential.
- `uuid.uuid4()`, `datetime.now()` and `gensalt()`. They become parameters.
  The ISO 8601 text of `expires_at` is an integer.
- bcrypt internals: EksBlowfish, versions other than `2b`, costs other than 12, the 72-byte password limit,
  and the `ValueError` `checkpw` raises on a malformed hash (the model returns
  false instead).
- ConsoleAuth.CredentialFile.RegisterUser: a username or role that contains
  `\n` or `\r` is written by the source as several lines, which
  `user_exists` and `login_user` then read separately. The model appends one
  line. The console menu cannot produce such values: `validate_username` and
  `validate_role` reject them (`ValidInputsCanStore`).
- Bcrypt.CheckPw: it does not state that a wrong password fails to verify.
  That is collision resistance of the real digest. The stand-in digest does
  not have it.
- SessionService.SessionStore.CreateSession: the source raises on a token
  collision and rolls back. The method therefore requires a fresh token.
  `Step` models the refusal and states it in `CreateRefusesUsedToken`.
- UserService.UserDatabase.MigrateUsersFromFile: exceptions other than a
  missing file are not modelled. In the source such an exception stops the
  loop before the commit, and that stop is also not modelled.
- CSV parsing by `csv.DictReader`: the rows are given already parsed.
- The file I/O of `auth.py` and `script.py`, and line terminators.
  `users.txt` is its lines without `\n`. The word-frequency text is a string
  given to the model. Writing `word_count.txt` with `to_csv` is not modelled.
- Text: Unicode. `lower`, `isalnum`, whitespace and `split` are modelled on
  ASCII. Non-ASCII characters are treated as neither letters nor whitespace.
- Fcfs.Schedule: it covers the two lists only. The float averages,
  `round(..., 2)` and the printed table are not modelled. So is the
  `ZeroDivisionError` those averages raise on an empty input; the lists the
  source builds before that error are stated. Reading the burst times with
  `input` in `user_input_fcfs` is I/O.
- WordFrequency.RankByCount: pandas' ordering among rows with equal counts is
  not modelled. Any order of ties is allowed.
