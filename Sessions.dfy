/**
 * The sessions table of the dashboard: a table keyed by token whose rows are
 * a username and an expiry time. `create_session` inserts a row, valid for
 * `hours_valid` hours (one by default); `validate_session` grants access to a
 * known, unexpired token and deletes an expired row when it finds one (lazy
 * expiry); `delete_session` removes a row and reports success even when there
 * was none.
 *
 * The clock is an integer count of microseconds, the resolution of Python's
 * `datetime`, handed in by the caller as `now`. The token is the caller's
 * fresh random value (`uuid.uuid4()` in the source). A storage failure during
 * validation or deletion is the parameter `fault`.
 *
 * `Step` is the table as a state machine, one operation at a time; the class
 * `SessionStore` holds the table and its methods are proved to take exactly
 * the steps `Step` describes.
 */
module SessionService {

  /** A session token (the text of a random UUID in the source). */
  type Token = string

  const MicrosPerHour: int := 3_600_000_000

  /** `create_session(username, hours_valid=1)`. */
  const DefaultHoursValid: int := 1

  /** A row of the sessions table, without its key. */
  datatype Session = Session(username: string, expiresAt: int)

  type Table = map<Token, Session>

  /** `datetime.now() + timedelta(hours=hours_valid)`. */
  function ExpiresAt(now: int, hoursValid: int): int {
    now + hoursValid * MicrosPerHour
  }

  datatype Op =
    | Create(token: Token, username: string, now: int, hoursValid: int)
    | Validate(token: Token, now: int, fault: bool)
    | Delete(token: Token, fault: bool)

  /** `Refused` is the primary key rejecting a token already in the table: the
      insert raises and nothing is committed. */
  datatype Reply = Issued(token: Token) | Refused | Checked(valid: bool) | Deleted(ok: bool)

  /** One operation on the sessions table: the new table and the reply. No
      operation ever rewrites a row: a create only adds its own token, and a
      validation or a deletion only removes its own token. Access is granted
      only to a known token, by a validation that does not change the table. */
  function Step(t: Table, op: Op): (r: (Table, Reply))
    ensures forall k :: k in r.0 && k in t ==> r.0[k] == t[k]
    ensures forall k :: k != op.token ==> (k in r.0 <==> k in t)
    ensures r.1.Checked? <==> op.Validate?
    ensures r.1 == Checked(true) ==> op.token in t && r.0 == t
  {
    match op
    case Create(token, username, now, hoursValid) =>
      if token in t then (t, Refused)
      else (t[token := Session(username, ExpiresAt(now, hoursValid))], Issued(token))
    case Validate(token, now, fault) =>
      if fault || token !in t then (t, Checked(false))
      else if now > t[token].expiresAt then (t - {token}, Checked(false))
      else (t, Checked(true))
    case Delete(token, fault) =>
      if fault then (t, Deleted(false)) else (t - {token}, Deleted(true))
  }

  /** Operations applied in order: the final table and one reply per operation. */
  function Run(t: Table, ops: seq<Op>): (r: (Table, seq<Reply>))
    ensures |r.1| == |ops|
    decreases |ops|
  {
    if ops == [] then (t, [])
    else
      var (t1, reply) := Step(t, ops[0]);
      var (t2, replies) := Run(t1, ops[1..]);
      (t2, [reply] + replies)
  }

  predicate Creates(op: Op, token: Token) {
    op.Create? && op.token == token
  }

  predicate ValidatesLive(op: Op, token: Token) {
    op.Validate? && op.token == token && !op.fault
  }

  predicate DeletesLive(op: Op, token: Token) {
    op.Delete? && op.token == token && !op.fault
  }

  /** A fresh token gets a new row `token -> (username, now + hours)`, the reply
      is that token, and every other row is as it was. */
  lemma CreateInsertsRow(t: Table, token: Token, username: string, now: int, hoursValid: int)
    requires token !in t
    ensures var (t', reply) := Step(t, Create(token, username, now, hoursValid));
      && reply == Issued(token)
      && t'.Keys == t.Keys + {token}
      && t'[token] == Session(username, now + hoursValid * MicrosPerHour)
      && forall other :: other in t ==> t'[other] == t[other]
  {
  }

  /** Without an explicit window a session lasts one hour. */
  lemma DefaultWindowIsOneHour(now: int)
    ensures ExpiresAt(now, DefaultHoursValid) == now + 3_600_000_000
  {
  }

  /** A token already in the table can never be inserted again. */
  lemma CreateRefusesUsedToken(t: Table, token: Token, username: string, now: int, hoursValid: int)
    requires token in t
    ensures Step(t, Create(token, username, now, hoursValid)) == (t, Refused)
  {
  }

  /** Validation grants access exactly when the storage works, the token is in
      the table and its expiry time has not passed (`now == expiresAt` still
      counts as live); it never adds or changes a row, and it removes at most
      the row of that token. */
  lemma ValidateGrantsOnlyLive(t: Table, token: Token, now: int, fault: bool)
    ensures var (t', reply) := Step(t, Validate(token, now, fault));
      && (reply == Checked(true) <==> !fault && token in t && now <= t[token].expiresAt)
      && reply.Checked?
      && (t' == t || t' == t - {token})
  {
  }

  /** An unknown token is refused and the table is untouched. */
  lemma ValidateUnknownToken(t: Table, token: Token, now: int, fault: bool)
    requires token !in t
    ensures Step(t, Validate(token, now, fault)) == (t, Checked(false))
  {
  }

  /** A storage failure never grants access and changes nothing. */
  lemma ValidateFailsClosed(t: Table, token: Token, now: int)
    ensures Step(t, Validate(token, now, true)) == (t, Checked(false))
  {
  }

  /** While `now <= expiresAt` validation grants access and leaves the table as it is. */
  lemma ValidateLiveSession(t: Table, token: Token, now: int)
    requires token in t && now <= t[token].expiresAt
    ensures Step(t, Validate(token, now, false)) == (t, Checked(true))
  {
  }

  /** Once `now > expiresAt` validation refuses and deletes exactly that row. */
  lemma ValidateReapsExpired(t: Table, token: Token, now: int)
    requires token in t && now > t[token].expiresAt
    ensures Step(t, Validate(token, now, false)) == (t - {token}, Checked(false))
  {
  }

  /** Deleting removes the row if there is one, touches no other row and
      reports success either way; doing it twice is doing it once. */
  lemma DeleteIdempotent(t: Table, token: Token)
    ensures var (t', reply) := Step(t, Delete(token, false));
      && reply == Deleted(true)
      && t'.Keys == t.Keys - {token}
      && (forall other :: other in t' ==> t'[other] == t[other])
      && Step(t', Delete(token, false)) == (t', Deleted(true))
  {
    var t' := t - {token};
    assert t' - {token} == t';
  }

  /** A storage failure during deletion reports failure and changes nothing. */
  lemma DeleteFault(t: Table, token: Token)
    ensures Step(t, Delete(token, true)) == (t, Deleted(false))
  {
  }

  /** A token that is not in the table stays out of it, and every validation
      of it is refused, for as long as no operation inserts that same token. */
  lemma {:induction false} AbsentStaysAbsent(t: Table, token: Token, ops: seq<Op>)
    requires token !in t
    requires forall k :: 0 <= k < |ops| ==> !Creates(ops[k], token)
    ensures token !in Run(t, ops).0
    ensures forall k :: 0 <= k < |ops| && ops[k].Validate? && ops[k].token == token ==>
      Run(t, ops).1[k] == Checked(false)
    decreases |ops|
  {
    if ops != [] {
      var (t1, reply) := Step(t, ops[0]);
      assert token !in t1;
      AbsentStaysAbsent(t1, token, ops[1..]);
      var replies := Run(t1, ops[1..]).1;
      assert Run(t, ops).1 == [reply] + replies;
      forall k | 0 <= k < |ops| && ops[k].Validate? && ops[k].token == token
        ensures Run(t, ops).1[k] == Checked(false)
      {
        if k > 0 {
          assert ops[1..][k - 1] == ops[k];
        }
      }
    }
  }

  /** Lazy expiry: the first validation after the expiry time refuses and
      removes the row, and every later validation of that token is refused
      too, as long as the token is never inserted again. */
  lemma ExpiredStaysRefused(t: Table, token: Token, now: int, later: seq<Op>)
    requires token in t && now > t[token].expiresAt
    requires forall k :: 0 <= k < |later| ==> !Creates(later[k], token)
    ensures var (t', replies) := Run(t, [Validate(token, now, false)] + later);
      && replies[0] == Checked(false)
      && token !in t'
      && forall k :: 0 <= k < |later| && later[k].Validate? && later[k].token == token ==>
           replies[k + 1] == Checked(false)
  {
    var ops := [Validate(token, now, false)] + later;
    assert ops[1..] == later;
    var t1 := t - {token};
    assert Step(t, ops[0]) == (t1, Checked(false));
    AbsentStaysAbsent(t1, token, later);
  }

  /** A session keeps its row and passes every validation made at or before its
      expiry time, for as long as nobody deletes it. */
  lemma {:induction false} LiveUntilExpiry(t: Table, token: Token, ops: seq<Op>)
    requires token in t
    requires forall k :: 0 <= k < |ops| ==> !DeletesLive(ops[k], token)
    requires forall k :: 0 <= k < |ops| && ops[k].Validate? && ops[k].token == token ==>
      ops[k].now <= t[token].expiresAt
    ensures token in Run(t, ops).0 && Run(t, ops).0[token] == t[token]
    ensures forall k :: 0 <= k < |ops| && ValidatesLive(ops[k], token) ==>
      Run(t, ops).1[k] == Checked(true)
    decreases |ops|
  {
    if ops != [] {
      var (t1, reply) := Step(t, ops[0]);
      assert token in t1 && t1[token] == t[token];
      assert forall k :: 0 <= k < |ops| - 1 ==> ops[1..][k] == ops[k + 1];
      LiveUntilExpiry(t1, token, ops[1..]);
      var replies := Run(t1, ops[1..]).1;
      assert Run(t, ops).1 == [reply] + replies;
    }
  }

  /** The sessions table of the application database. */
  class SessionStore {
    var table: Table

    constructor ()
      ensures table == map[]
    {
      table := map[];
    }

    /** `create_session`: insert `token -> (username, now + hoursValid hours)` and return the token. */
    method CreateSession(username: string, now: int, token: Token, hoursValid: int := DefaultHoursValid)
      returns (issued: Token)
      requires token !in table
      modifies this
      ensures (table, Issued(issued)) == Step(old(table), Create(token, username, now, hoursValid))
    {
      var expiresAt := ExpiresAt(now, hoursValid);
      table := table[token := Session(username, expiresAt)];
      issued := token;
    }

    /** `validate_session`: look the token up; refuse an unknown one; delete an
        expired one and refuse it; otherwise grant access. */
    method ValidateSession(token: Token, now: int, fault: bool) returns (valid: bool)
      modifies this
      ensures (table, Checked(valid)) == Step(old(table), Validate(token, now, fault))
    {
      if fault {
        return false;
      }
      if token !in table {
        return false;
      }
      var session := table[token];
      if now > session.expiresAt {
        table := table - {token};
        return false;
      }
      return true;
    }

    /** `delete_session`: remove the row of the token, if any. */
    method DeleteSession(token: Token, fault: bool) returns (ok: bool)
      modifies this
      ensures (table, Deleted(ok)) == Step(old(table), Delete(token, fault))
    {
      if fault {
        return false;
      }
      table := table - {token};
      return true;
    }
  }
}
