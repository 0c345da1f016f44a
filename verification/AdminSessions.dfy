/**
 Server-side admin sessions: the store contract of gateway/internal/admin/session_store.go, the guard
 SessionGuardWithRefresh of middleware.go and the revocation of LogoutHandler in auth.go. Times are milliseconds.
 */
module AdminSessions {
  import opened Outcomes
  import opened Runs

  const REFRESH_WINDOW := 300000
  const REFRESH_GRACE := 30000
  const MAX_DURATION := 28800000
  const CLEANUP_AGE := 604800000

  /** A row of admin_sessions; an empty token means that no refresh token is stored. `writtenAt` dates the expiry. */
  datatype Session = Session(userId: string, expiresAt: int, revoked: bool, token: string, writtenAt: int)

  type Store = map<string, Session>

  function Revoke(rows: Store, sid: string): Store {
    if sid in rows then rows[sid := rows[sid].(revoked := true)] else rows
  }

  function UpdateExpiry(rows: Store, sid: string, expiresAt: int, token: string, now: int): Store {
    if sid in rows then rows[sid := rows[sid].(expiresAt := expiresAt, token := token, writtenAt := now)] else rows
  }

  /** DELETE ... WHERE expires_at < NOW() - INTERVAL '7 days' */
  function CleanUp(rows: Store, now: int): Store {
    map sid | sid in rows && rows[sid].expiresAt >= now - CLEANUP_AGE :: rows[sid]
  }

  datatype Verdict = Refresh | Serve | Redirect

  /** What the guard decides on the session it has read, at the time it looks at the clock. */
  function Guard(sess: Session, now: int): Verdict {
    var withinRefreshWindow := sess.expiresAt < now + REFRESH_WINDOW;
    var withinGrace := sess.expiresAt <= now && now < sess.expiresAt + REFRESH_GRACE;
    if (withinRefreshWindow || withinGrace) && sess.token != "" then Refresh
    else if sess.expiresAt <= now then Redirect
    else Serve
  }

  /**
   A session with a refresh token is refreshed exactly if it expires before the window's end, however long ago that
   was; the grace limit never decides. One without a token is served exactly until it expires.
   */
  lemma GuardExactly(sess: Session, now: int)
    ensures Guard(sess, now) == Refresh <==> sess.token != "" && sess.expiresAt < now + 300000
    ensures Guard(sess, now) == Serve
            <==> now < sess.expiresAt && (sess.token == "" || now + 300000 <= sess.expiresAt)
    ensures Guard(sess, now) == Redirect <==> sess.token == "" && sess.expiresAt <= now
  {
  }

  /** min(token expiry, now + 8 h); a token without an expiry does not count. */
  function NewExpiry(now: int, tokenExpiry: Option<int>): (e: int)
    ensures e <= now + 28800000
    ensures tokenExpiry.Some? ==> e <= tokenExpiry.value
    ensures e == now + 28800000 || tokenExpiry == Some(e)
  {
    if tokenExpiry.Some? && tokenExpiry.value < now + MAX_DURATION then tokenExpiry.value else now + MAX_DURATION
  }

  /** What the token endpoint answers: an expiry and a rotated refresh token, which may be missing, or a failure. */
  datatype TokenAnswer = Granted(expiry: Option<int>, refreshToken: string) | Denied

  /** An unrotated token is kept. */
  function TokenToStore(sess: Session, answer: TokenAnswer): string
    requires answer.Granted?
  {
    if answer.refreshToken != "" then answer.refreshToken else sess.token
  }

  predicate SameExpiry(a: Session, b: Session) {
    a.expiresAt == b.expiresAt && a.token == b.token && a.writtenAt == b.writtenAt
  }

  /** A row and the rest of its table determine the table. */
  lemma RowDecides(a: Store, b: Store, sid: string)
    requires a.Keys == b.Keys && a - {sid} == b - {sid} && (sid in a ==> a[sid] == b[sid])
    ensures a == b
  {
    forall id | id in a ensures a[id] == b[id] {
      if id != sid {
        assert (a - {sid})[id] == (b - {sid})[id];
      }
    }
  }

  class SessionStore {
    var rows: Store

    constructor ()
      ensures rows == map[]
    {
      rows := map[];
    }

    /** A session under a fresh id, unrevoked, and no other. */
    method Create(sid: string, userId: string, expiresAt: int, token: string, now: int)
      requires sid !in rows
      modifies this
      ensures rows.Keys == old(rows).Keys + {sid} && rows - {sid} == old(rows)
      ensures rows[sid].userId == userId && rows[sid].expiresAt == expiresAt && rows[sid].token == token
      ensures !rows[sid].revoked && rows[sid].writtenAt == now
    {
      rows := rows[sid := Session(userId, expiresAt, false, token, now)];
    }

    method Get(sid: string) returns (sess: Option<Session>)
      ensures sess == if sid in rows then Some(rows[sid]) else None
    {
      sess := if sid in rows then Some(rows[sid]) else None;
    }

    /**
     No session appears or goes; the named one, if it stands, is revoked with its user, expiry and token as they were.
     */
    method RevokeSession(sid: string)
      modifies this
      ensures rows.Keys == old(rows).Keys && rows - {sid} == old(rows) - {sid}
      ensures sid in rows ==>
                rows[sid].revoked && rows[sid].userId == old(rows)[sid].userId && SameExpiry(rows[sid], old(rows)[sid])
    {
      rows := Revoke(rows, sid);
    }

    /**
     No session appears or goes; the named one, if it stands, has the new expiry and token, and is revoked as it was.
     */
    method SlideExpiry(sid: string, expiresAt: int, token: string, now: int)
      modifies this
      ensures rows.Keys == old(rows).Keys && rows - {sid} == old(rows) - {sid}
      ensures sid in rows ==>
                && rows[sid].expiresAt == expiresAt && rows[sid].token == token && rows[sid].writtenAt == now
                && rows[sid].userId == old(rows)[sid].userId && rows[sid].revoked == old(rows)[sid].revoked
    {
      rows := UpdateExpiry(rows, sid, expiresAt, token, now);
    }

    /** Sessions that expired more than seven days ago are deleted, and no others. */
    method CleanupExpired(now: int)
      modifies this
      ensures forall sid :: sid in rows <==> sid in old(rows) && old(rows)[sid].expiresAt >= now - 604800000
      ensures forall sid :: sid in rows ==> rows[sid] == old(rows)[sid]
    {
      rows := CleanUp(rows, now);
    }

    /**
     One undisturbed request: served as the session's user, or redirected. It is served exactly if the session stands
     unrevoked and either has time left or is refreshed; a refused refresh revokes it.
     */
    method GuardRequest(sid: string, now: int, answer: TokenAnswer) returns (user: Option<string>)
      modifies this
      ensures var was := old(rows);
              var stands := sid in was && !was[sid].revoked;
              var due := stands && was[sid].token != "" && was[sid].expiresAt < now + 300000;
              && (user.Some? <==> stands && if due then answer.Granted? else now < was[sid].expiresAt)
              && (user.Some? ==> user.value == was[sid].userId)
              && (!due ==> rows == was)
              && (due && answer.Denied? ==> rows == was[sid := was[sid].(revoked := true)])
              && (due && answer.Granted? ==>
                    && rows.Keys == was.Keys && rows - {sid} == was - {sid}
                    && rows[sid].userId == was[sid].userId && !rows[sid].revoked && rows[sid].writtenAt == now
                    && rows[sid].token == (if answer.refreshToken != "" then answer.refreshToken else was[sid].token)
                    && rows[sid].expiresAt == if answer.expiry.Some? && answer.expiry.value < now + 28800000
                                              then answer.expiry.value else now + 28800000)
    {
      var found := Get(sid);
      if found.None? || found.value.revoked {
        return None;
      }
      var sess := found.value;
      var withinRefreshWindow := sess.expiresAt < now + REFRESH_WINDOW;
      var withinGrace := sess.expiresAt <= now && now < sess.expiresAt + REFRESH_GRACE;
      if (withinRefreshWindow || withinGrace) && sess.token != "" {
        if answer.Denied? {
          RevokeSession(sid);
          RowDecides(rows, old(rows)[sid := old(rows)[sid].(revoked := true)], sid);
          return None;
        }
        SlideExpiry(sid, NewExpiry(now, answer.expiry), TokenToStore(sess, answer), now);
        return Some(sess.userId);
      }
      if sess.expiresAt <= now {
        return None;
      }
      return Some(sess.userId);
    }
  }

  // ---- requests, refreshes, logins and logouts, interleaved store call by store call ----

  datatype Pc =
    | Arrived
    | Got(sess: Session)
    | Refreshing(sess: Session)
    | Refreshed(sess: Session, newExpiry: int, newToken: string, at: int)
    | Revoking
    | Redirected
    | Handled(sess: Session, grounds: Grounds)

  datatype Grounds = Unexpired(at: int) | AfterRefresh(at: int, newExpiry: int)

  datatype Req = Req(sid: string, pc: Pc)

  datatype State = State(now: int, rows: Store, used: set<string>, requests: map<nat, Req>)

  function MoveTo(s: State, i: nat, pc: Pc): State
    requires i in s.requests
  {
    s.(requests := s.requests[i := s.requests[i].(pc := pc)])
  }

  ghost predicate RequestStep(s: State, t: State, i: nat) {
    if i !in s.requests then
      exists sid :: t == s.(requests := s.requests[i := Req(sid, Arrived)])
    else
      var sid := s.requests[i].sid;
      match s.requests[i].pc
      case Arrived =>
        || (sid in s.rows && !s.rows[sid].revoked && t == MoveTo(s, i, Got(s.rows[sid])))
        || ((sid !in s.rows || s.rows[sid].revoked) && t == MoveTo(s, i, Redirected))
        || t == MoveTo(s, i, Redirected) // the lookup failed
      case Got(sess) => (
        match Guard(sess, s.now)
        case Refresh => t == MoveTo(s, i, Refreshing(sess))
        case Serve => t == MoveTo(s, i, Handled(sess, Unexpired(s.now)))
        case Redirect => t == MoveTo(s, i, Redirected)
      )
      case Refreshing(sess) =>
        || t == MoveTo(s, i, Revoking)
        || exists answer: TokenAnswer :: answer.Granted?
             && t == MoveTo(s, i, Refreshed(sess, NewExpiry(s.now, answer.expiry), TokenToStore(sess, answer), s.now))
      case Refreshed(sess, newExpiry, newToken, at) =>
        var next := MoveTo(s, i, Handled(sess, AfterRefresh(at, newExpiry)));
        || t == next.(rows := UpdateExpiry(s.rows, sid, newExpiry, newToken, s.now))
        || t == next // the update failed; the request goes on
      case Revoking =>
        || t == MoveTo(s, i, Redirected).(rows := Revoke(s.rows, sid))
        || t == MoveTo(s, i, Redirected) // the revocation failed
      case _ => false
  }

  /** A login: session ids are drawn afresh, and the expiry was computed somewhat earlier. */
  ghost predicate LoginStep(s: State, t: State) {
    exists sid, userId, token, computedAt, tokenExpiry ::
      && sid !in s.used && computedAt <= s.now
      && t == s.(used := s.used + {sid},
                 rows := s.rows[sid := Session(userId, NewExpiry(computedAt, tokenExpiry), false, token, s.now)])
  }

  ghost predicate Next(s: State, t: State) {
    || (s.now <= t.now && t == s.(now := t.now))
    || LoginStep(s, t)
    || (exists sid :: t == s.(rows := Revoke(s.rows, sid))) // logout
    || t == s.(rows := CleanUp(s.rows, s.now))
    || exists i :: RequestStep(s, t, i)
  }

  ghost predicate Init(s: State) {
    s.rows == map[] && s.used == {} && s.requests == map[]
  }

  ghost predicate IsExecution(run: seq<State>) {
    IsRun(Init, Next, run)
  }

  /** A stored expiry is at most eight hours after the write that stored it. */
  ghost predicate RowBounded(s: State, sid: string)
    requires sid in s.rows
  {
    sid in s.used && s.rows[sid].writtenAt <= s.now && s.rows[sid].expiresAt <= s.rows[sid].writtenAt + MAX_DURATION
  }

  /** The handler runs on a session read unrevoked that has time left, or one that was due and has been refreshed. */
  ghost predicate Justified(s: State, pc: Pc) {
    match pc
    case Got(sess) => !sess.revoked
    case Refreshing(sess) => !sess.revoked && sess.token != "" && sess.expiresAt < s.now + REFRESH_WINDOW
    case Refreshed(sess, newExpiry, _, at) =>
      && !sess.revoked && sess.token != "" && sess.expiresAt < at + REFRESH_WINDOW
      && at <= s.now && newExpiry <= at + MAX_DURATION
    case Handled(sess, Unexpired(at)) => !sess.revoked && at <= s.now && at < sess.expiresAt
    case Handled(sess, AfterRefresh(at, newExpiry)) =>
      && !sess.revoked && sess.token != "" && sess.expiresAt < at + REFRESH_WINDOW
      && at <= s.now && newExpiry <= at + MAX_DURATION
    case _ => true
  }

  ghost predicate Inv(s: State) {
    && (forall sid :: sid in s.rows ==> RowBounded(s, sid))
    && (forall i :: i in s.requests ==> Justified(s, s.requests[i].pc))
  }

  lemma RequestKeepsRows(s: State, t: State, i: nat)
    requires Inv(s) && RequestStep(s, t, i)
    ensures t.now == s.now && forall sid :: sid in t.rows ==> RowBounded(t, sid)
  {
    hide Guard, NewExpiry, TokenToStore;
    forall sid | sid in t.rows ensures RowBounded(t, sid) {
      assert RowBounded(s, sid);
      assert i in s.requests ==> Justified(s, s.requests[i].pc);
    }
  }

  lemma RequestKeepsPc(s: State, t: State, i: nat)
    requires Inv(s) && RequestStep(s, t, i)
    ensures i in t.requests && Justified(t, t.requests[i].pc)
    ensures forall j :: j in t.requests && j != i ==> j in s.requests && t.requests[j] == s.requests[j]
  {
    hide RowBounded, UpdateExpiry, Revoke;
    if i in s.requests {
      assert Justified(s, s.requests[i].pc);
    }
  }

  lemma RequestKeeps(s: State, t: State, i: nat)
    requires Inv(s) && RequestStep(s, t, i)
    ensures Inv(t)
  {
    hide RequestStep, RowBounded;
    RequestKeepsRows(s, t, i);
    RequestKeepsPc(s, t, i);
    forall j | j in t.requests ensures Justified(t, t.requests[j].pc) {
      assert j != i ==> Justified(s, s.requests[j].pc);
    }
  }

  lemma OtherKeeps(s: State, t: State)
    requires Inv(s) && Next(s, t) && t.requests == s.requests
    ensures Inv(t)
  {
    if exists i :: RequestStep(s, t, i) {
      var i :| RequestStep(s, t, i);
      RequestKeeps(s, t, i);
    } else {
      forall sid | sid in t.rows ensures RowBounded(t, sid) {
        assert sid in s.rows ==> RowBounded(s, sid);
      }
      forall j | j in t.requests ensures Justified(t, t.requests[j].pc) {
        assert Justified(s, s.requests[j].pc);
      }
    }
  }

  lemma Invariant(run: seq<State>, i: nat)
    requires IsExecution(run) && i < |run|
    ensures IsInvariant(Init, Next, Inv) && Inv(run[i])
  {
    forall s: State, t: State | Inv(s) && Next(s, t) ensures Inv(t) {
      if t.requests == s.requests {
        OtherKeeps(s, t);
      } else {
        var n :| RequestStep(s, t, n);
        RequestKeeps(s, t, n);
      }
    }
    Always(Init, Next, Inv, run, i);
  }

  /** Every stored expiry is at most eight hours after its write. */
  lemma ExpiryBounded(run: seq<State>, i: nat, sid: string)
    requires IsExecution(run) && i < |run| && sid in run[i].rows
    ensures run[i].rows[sid].expiresAt <= run[i].rows[sid].writtenAt + 28800000
            && run[i].rows[sid].writtenAt <= run[i].now
  {
    Invariant(run, i);
    assert RowBounded(run[i], sid);
  }

  /** The handler runs only on a session read unrevoked that has time left, or that was due and has been refreshed. */
  lemma HandlerJustified(run: seq<State>, i: nat, r: nat)
    requires IsExecution(run) && i < |run| && r in run[i].requests && run[i].requests[r].pc.Handled?
    ensures var pc := run[i].requests[r].pc;
            && !pc.sess.revoked
            && (pc.grounds.Unexpired? ==> pc.grounds.at < pc.sess.expiresAt)
            && (pc.grounds.AfterRefresh? ==>
                  && pc.sess.token != "" && pc.sess.expiresAt < pc.grounds.at + 300000
                  && pc.grounds.newExpiry <= pc.grounds.at + 28800000)
  {
    Invariant(run, i);
    assert Justified(run[i], run[i].requests[r].pc);
  }

  // ---- revocation ----

  /** The session has been revoked, or revoked and cleaned up. */
  ghost predicate Dead(s: State, sid: string) {
    sid in s.used && (sid in s.rows ==> s.rows[sid].revoked)
  }

  /** The request has not read the store yet. */
  ghost predicate Unread(s: State, r: nat) {
    r in s.requests ==> s.requests[r].pc == Arrived
  }

  ghost predicate TurnedAway(s: State, sid: string, r: nat) {
    Dead(s, sid) && (r in s.requests && s.requests[r].sid == sid ==>
                       s.requests[r].pc == Arrived || s.requests[r].pc == Redirected)
  }

  lemma TurnedAwayStep(s: State, t: State, sid: string, r: nat)
    requires TurnedAway(s, sid, r) && Next(s, t)
    ensures TurnedAway(t, sid, r)
  {
    if exists i :: RequestStep(s, t, i) {
      var i :| RequestStep(s, t, i);
      RequestTurnedAway(s, t, sid, r, i);
    }
  }

  lemma RequestTurnedAway(s: State, t: State, sid: string, r: nat, i: nat)
    requires TurnedAway(s, sid, r) && RequestStep(s, t, i)
    ensures TurnedAway(t, sid, r)
  {
    hide Guard, NewExpiry, TokenToStore;
  }

  /** A request whose store read follows a revocation never reaches the handler, whatever else goes on meanwhile. */
  lemma NoHandlerAfterRevocation(run: seq<State>, i: nat, j: nat, sid: string, r: nat)
    requires IsExecution(run) && i <= j < |run|
    requires Dead(run[i], sid) && Unread(run[i], r)
    requires r in run[j].requests && run[j].requests[r].sid == sid
    ensures run[j].requests[r].pc == Arrived || run[j].requests[r].pc == Redirected
  {
    assert TurnedAway(run[i], sid, r);
    TurnedAwayUntil(run, i, j, sid, r);
  }

  lemma {:induction false} TurnedAwayUntil(run: seq<State>, i: nat, j: nat, sid: string, r: nat)
    requires IsExecution(run) && i <= j < |run| && TurnedAway(run[i], sid, r)
    ensures TurnedAway(run[j], sid, r)
    decreases j
  {
    hide Init, Next, TurnedAway;
    if i < j {
      TurnedAwayUntil(run, i, j - 1, sid, r);
      assert Next(run[j - 1], run[j]);
      TurnedAwayStep(run[j - 1], run[j], sid, r);
    }
  }

  /** A logout makes the session dead. */
  lemma RevocationKills(run: seq<State>, i: nat, sid: string, t: State)
    requires IsExecution(run) && i < |run| && sid in run[i].rows && t == run[i].(rows := Revoke(run[i].rows, sid))
    ensures Dead(t, sid) && Next(run[i], t)
  {
    Invariant(run, i);
    assert RowBounded(run[i], sid);
  }

  /** So does the revocation after a refused refresh, if the store carries it out. */
  lemma RefusalKills(run: seq<State>, i: nat, r: nat, t: State)
    requires IsExecution(run) && i < |run| && r in run[i].requests && run[i].requests[r].pc == Revoking
    requires var sid := run[i].requests[r].sid;
             sid in run[i].rows && t == MoveTo(run[i], r, Redirected).(rows := Revoke(run[i].rows, sid))
    ensures Dead(t, run[i].requests[r].sid) && Next(run[i], t)
  {
    Invariant(run, i);
    assert RowBounded(run[i], run[i].requests[r].sid);
    assert RequestStep(run[i], t, r);
  }
}
