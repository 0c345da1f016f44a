/**
 The user import of the bootstrap wizard: step 4 of gateway/internal/admin/bootstrap.go with the lock and the progress
 counters of bootstrap_scim.go.
 */
module ImportLock {
  import opened Outcomes
  import opened Runs

  type Int32 = n: int | -0x8000_0000 <= n < 0x8000_0000

  /** Go's int32 conversion drops the high bits. */
  function ToInt32(n: int): Int32 {
    (n + 0x8000_0000) % 0x1_0000_0000 - 0x8000_0000
  }

  datatype User = User(sub: string, displayName: string, email: string)

  datatype Claims = Claims(userId: string, displayName: string, email: string)

  datatype Response = Response(imported: Int32, skipped: Int32, failed: Int32)

  datatype Outcome = Conflict | Unsupported | NoCore | FetchFailed | CoreFailed | Imported(response: Response)

  /** importProgressState */
  datatype Progress = Progress(imported: Int32, total: Int32, failed: Int32, done: bool)

  /** A configured directory: whether it is enabled, and what fetching from it gives. */
  datatype Fetcher = Fetcher(enabled: bool, users: Result<seq<User>, string>)

  function ToClaims(u: User, localpart: string -> string, serverName: string): Claims {
    Claims("@" + localpart(u.sub) + ":" + serverName, u.displayName, u.email)
  }

  function AllClaims(users: seq<User>, localpart: string -> string, serverName: string): (r: seq<Claims>)
    ensures |r| == |users| && forall i :: 0 <= i < |r| ==> r[i] == ToClaims(users[i], localpart, serverName)
  {
    seq(|users|, i requires 0 <= i < |users| => ToClaims(users[i], localpart, serverName))
  }

  /** SCIM takes priority over OIDC. */
  function Active(scim: Option<Fetcher>, oidc: Option<Fetcher>): Option<Fetcher> {
    if scim.Some? && scim.value.enabled then scim
    else if oidc.Some? && oidc.value.enabled then oidc
    else None
  }

  /** How an import ends that has the lock. */
  function EndsWith(scim: Option<Fetcher>, oidc: Option<Fetcher>, core: Option<seq<Claims> -> Result<Response, string>>,
                    localpart: string -> string, serverName: string): Outcome
  {
    match Active(scim, oidc)
    case None => Unsupported
    case Some(fetcher) =>
      match (core, fetcher.users)
      case (None, _) => NoCore
      case (_, Err(_)) => FetchFailed
      case (Some(call), Ok(users)) =>
        match call(AllClaims(users, localpart, serverName))
        case Err(_) => CoreFailed
        case Ok(response) => Imported(response)
  }

  /** What reaches the core: one claim a user, of the SCIM directory if it is enabled, else of the OIDC one. */
  lemma EndsExactly(scim: Option<Fetcher>, oidc: Option<Fetcher>, core: Option<seq<Claims> -> Result<Response, string>>,
                    localpart: string -> string, serverName: string)
    ensures var outcome := EndsWith(scim, oidc, core, localpart, serverName);
            var active := if scim.Some? && scim.value.enabled then scim
                          else if oidc.Some? && oidc.value.enabled then oidc else None;
            && (outcome == Unsupported <==> active.None?)
            && (outcome == NoCore <==> active.Some? && core.None?)
            && (outcome == FetchFailed <==> active.Some? && core.Some? && active.value.users.Err?)
            && (active.Some? && core.Some? && active.value.users.Ok? ==>
                  var users := active.value.users.value;
                  var answer := core.value(seq(|users|, i requires 0 <= i < |users| =>
                                                 Claims("@" + localpart(users[i].sub) + ":" + serverName,
                                                        users[i].displayName, users[i].email)));
                  outcome == if answer.Ok? then Imported(answer.value) else CoreFailed)
  {
    var active := Active(scim, oidc);
    if active.Some? && active.value.users.Ok? {
      var users := active.value.users.value;
      assert AllClaims(users, localpart, serverName)
          == seq(|users|, i requires 0 <= i < |users| =>
                   Claims("@" + localpart(users[i].sub) + ":" + serverName, users[i].displayName, users[i].email));
    }
  }

  /** The counters after it: untouched if nothing was sent, and otherwise those of what was sent. */
  function Counters(before: Progress, outcome: Outcome, sent: nat): Progress {
    match outcome
    case CoreFailed => Progress(0, ToInt32(sent), 0, true)
    case Imported(response) => Progress(response.imported, ToInt32(sent), response.failed, true)
    case _ => before
  }

  /** importInProgress and importProgress. */
  class ImportState {
    var inProgress: bool
    var imported: Int32
    var total: Int32
    var failed: Int32
    var done: bool

    constructor ()
      ensures !inProgress && Shown() == Progress(0, 0, 0, false)
    {
      inProgress, imported, total, failed, done := false, 0, 0, 0, false;
    }

    function Shown(): Progress
      reads this
    {
      Progress(imported, total, failed, done)
    }

    /** One undisturbed import action. Whoever finds the lock free leaves it free, on every path. */
    method Import(scim: Option<Fetcher>, oidc: Option<Fetcher>, core: Option<seq<Claims> -> Result<Response, string>>,
                  localpart: string -> string, serverName: string) returns (outcome: Outcome)
      modifies this
      ensures inProgress == old(inProgress)
      ensures outcome == if old(inProgress) then Conflict else EndsWith(scim, oidc, core, localpart, serverName)
      ensures Shown() == Counters(old(Shown()), outcome,
                                  if outcome.CoreFailed? || outcome.Imported?
                                  then |Active(scim, oidc).value.users.value| else 0)
      ensures outcome.CoreFailed? ==> done && imported == 0 && failed == 0
      ensures outcome.Imported? ==>
                done && imported == outcome.response.imported && failed == outcome.response.failed
      ensures !outcome.CoreFailed? && !outcome.Imported? ==> Shown() == old(Shown())
    {
      if inProgress {
        return Conflict;
      }
      inProgress := true;
      var fetcher: Option<Fetcher> := None;
      if scim.Some? && scim.value.enabled {
        fetcher := scim;
      } else if oidc.Some? && oidc.value.enabled {
        fetcher := oidc;
      }
      if fetcher.None? {
        inProgress := false;
        return Unsupported;
      }
      if core.None? {
        inProgress := false;
        return NoCore;
      }
      if fetcher.value.users.Err? {
        inProgress := false;
        return FetchFailed;
      }
      var users := fetcher.value.users.value;
      imported := 0;
      total := ToInt32(|users|);
      failed := 0;
      done := false;
      var claims: seq<Claims> := [];
      for i := 0 to |users|
        invariant claims == AllClaims(users[..i], localpart, serverName)
      {
        claims := claims + [ToClaims(users[i], localpart, serverName)];
      }
      assert users[..|users|] == users;
      var response := core.value(claims);
      if response.Err? {
        done := true;
        inProgress := false;
        return CoreFailed;
      }
      imported := response.value.imported;
      failed := response.value.failed;
      done := true;
      inProgress := false;
      return Imported(response.value);
    }
  }

  // ---- concurrent import actions, one atomic operation at a time ----

  /** What an import sent to the core, and what came back if the call succeeded. */
  datatype Sent = Sent(users: nat, answer: Option<Response>)

  datatype Pc =
    | Arrived
    | Choosing
    | Fetching
    | Resetting(users: nat, stores: nat)
    | Calling(users: nat)
    | Finishing(sent: Sent, stores: nat)
    | Releasing
    | Returned

  /** `last` remembers the last import that got past fetching. */
  datatype State = State(inProgress: bool, progress: Progress, last: Option<Sent>, actions: map<nat, Pc>)

  /** Past the compare-and-swap and not yet past the release. */
  predicate Inside(pc: Pc) {
    !pc.Arrived? && !pc.Returned?
  }

  function MoveTo(s: State, i: nat, pc: Pc): State {
    s.(actions := s.actions[i := pc])
  }

  /** The stores that start the counters, in order. */
  function Reset(p: Progress, users: nat, stores: nat): Progress {
    match stores
    case 0 => p.(imported := 0)
    case 1 => p.(total := ToInt32(users))
    case 2 => p.(failed := 0)
    case _ => p.(done := false)
  }

  /** The stores that end them; a failed call leaves out the first two. */
  function Finish(p: Progress, sent: Sent, stores: nat): Progress {
    if sent.answer.None? || stores >= 2 then p.(done := true)
    else if stores == 0 then p.(imported := sent.answer.value.imported)
    else p.(failed := sent.answer.value.failed)
  }

  ghost predicate ActionStep(s: State, t: State, i: nat) {
    if i !in s.actions then t == MoveTo(s, i, Arrived)
    else
      match s.actions[i]
      case Arrived =>
        t == if s.inProgress then MoveTo(s, i, Returned) else MoveTo(s, i, Choosing).(inProgress := true)
      case Choosing => t == MoveTo(s, i, Releasing) || t == MoveTo(s, i, Fetching)
      case Fetching =>
        (t == MoveTo(s, i, Releasing)
         || exists users :: t == MoveTo(s, i, Resetting(users, 0)).(last := Some(Sent(users, None))))
      case Resetting(users, stores) =>
        t == MoveTo(s, i, if stores < 3 then Resetting(users, stores + 1) else Calling(users))
             .(progress := Reset(s.progress, users, stores))
      case Calling(users) =>
        (exists answer :: t == MoveTo(s, i, Finishing(Sent(users, answer), 0)).(last := Some(Sent(users, answer))))
      case Finishing(sent, stores) =>
        t == MoveTo(s, i, if sent.answer.None? || stores >= 2 then Releasing else Finishing(sent, stores + 1))
             .(progress := Finish(s.progress, sent, stores))
      case Releasing => t == MoveTo(s, i, Returned).(inProgress := false)
      case Returned => false
  }

  ghost predicate Next(s: State, t: State) {
    exists i :: ActionStep(s, t, i)
  }

  ghost predicate Init(s: State) {
    !s.inProgress && s.last.None? && s.actions == map[]
  }

  ghost predicate IsExecution(run: seq<State>) {
    IsRun(Init, Next, run)
  }

  /** The counters of an import that is through. */
  ghost predicate Settled(s: State) {
    s.last.Some? ==>
      s.progress == match s.last.value.answer
                    case None => Progress(0, ToInt32(s.last.value.users), 0, true)
                    case Some(r) => Progress(r.imported, ToInt32(s.last.value.users), r.failed, true)
  }

  /** How far the counters are when the action that holds the lock stands here. */
  ghost predicate CountersAt(s: State, pc: Pc) {
    match pc
    case Resetting(users, stores) =>
      && stores <= 3 && s.last == Some(Sent(users, None))
      && (stores > 0 ==> s.progress.imported == 0)
      && (stores > 1 ==> s.progress.total == ToInt32(users))
      && (stores > 2 ==> s.progress.failed == 0)
    case Calling(users) =>
      s.last == Some(Sent(users, None)) && s.progress == Progress(0, ToInt32(users), 0, false)
    case Finishing(sent, stores) =>
      && stores <= 2 && s.last == Some(sent) && s.progress.total == ToInt32(sent.users)
      && (match sent.answer
          case None => s.progress.imported == 0 && s.progress.failed == 0
          case Some(r) =>
            (stores > 0 ==> s.progress.imported == r.imported) && (stores > 1 ==> s.progress.failed == r.failed))
    case _ => Settled(s)
  }

  /** The lock is taken exactly while someone is inside, and only one is; without anyone the counters are settled. */
  ghost predicate Inv(s: State) {
    && (forall i, j :: i in s.actions && j in s.actions && Inside(s.actions[i]) && Inside(s.actions[j]) ==> i == j)
    && (forall i :: i in s.actions && Inside(s.actions[i]) ==> s.inProgress && CountersAt(s, s.actions[i]))
    && (s.inProgress ==> exists i :: i in s.actions && Inside(s.actions[i]))
    && (!s.inProgress ==> Settled(s))
  }

  lemma OwnCounters(s: State, t: State, i: nat)
    requires Inv(s) && ActionStep(s, t, i) && i in s.actions
    ensures i in t.actions
            && (if Inside(t.actions[i]) then CountersAt(t, t.actions[i]) else !t.inProgress ==> Settled(t))
  {
    hide ToInt32;
    if Inside(s.actions[i]) {
      assert CountersAt(s, s.actions[i]);
    }
  }

  lemma LockKept(s: State, t: State, i: nat)
    requires Inv(s) && ActionStep(s, t, i)
    ensures i in t.actions && t.actions == s.actions[i := t.actions[i]]
    ensures if i in s.actions && Inside(s.actions[i]) then t.inProgress == Inside(t.actions[i])
            else t.inProgress == (s.inProgress || Inside(t.actions[i])) && t.progress == s.progress && t.last == s.last
    ensures (i !in s.actions || !Inside(s.actions[i])) && Inside(t.actions[i]) ==> !s.inProgress
  {
    hide CountersAt, Settled, Reset, Finish;
    if i in s.actions && Inside(s.actions[i]) {
      assert s.inProgress;
    }
  }

  lemma StepKeeps(s: State, t: State, i: nat)
    requires Inv(s) && ActionStep(s, t, i)
    ensures Inv(t)
  {
    LockKept(s, t, i);
    if i in s.actions {
      OwnCounters(s, t, i);
    }
    hide ActionStep, Reset, Finish, ToInt32;
    forall j, k | j in t.actions && k in t.actions && Inside(t.actions[j]) && Inside(t.actions[k]) ensures j == k {
      assert j != i ==> j in s.actions && Inside(s.actions[j]);
      assert k != i ==> k in s.actions && Inside(s.actions[k]);
    }
    if t.inProgress {
      if !Inside(t.actions[i]) {
        var j :| j in s.actions && Inside(s.actions[j]);
        assert j != i;
        assert j in t.actions && Inside(t.actions[j]);
      }
    }
    hide Settled, CountersAt;
    forall j | j in t.actions && Inside(t.actions[j]) ensures t.inProgress && CountersAt(t, t.actions[j]) {
      if j != i {
        SameCounters(s, t, s.actions[j]);
      }
    }
  }

  lemma SameCounters(s: State, t: State, pc: Pc)
    requires CountersAt(s, pc) && t.progress == s.progress && t.last == s.last
    ensures CountersAt(t, pc)
  {
  }

  lemma Invariant(run: seq<State>, n: nat)
    requires IsExecution(run) && n < |run|
    ensures Inv(run[n])
  {
    hide ActionStep;
    forall s: State, t: State | Inv(s) && Next(s, t) ensures Inv(t) {
      var i :| ActionStep(s, t, i);
      StepKeeps(s, t, i);
    }
    Always(Init, Next, Inv, run, n);
  }

  /** At most one import is past the compare-and-swap, and the lock is taken exactly while one is. */
  lemma OneImport(run: seq<State>, n: nat, i: nat, j: nat)
    requires IsExecution(run) && n < |run| && i in run[n].actions && Inside(run[n].actions[i])
    ensures run[n].inProgress
    ensures j in run[n].actions && Inside(run[n].actions[j]) ==> i == j
  {
    Invariant(run, n);
  }

  /** Every way out gives the lock back: when all actions have returned it is free. */
  lemma AlwaysReleased(run: seq<State>, n: nat)
    requires IsExecution(run) && n < |run| && forall i :: i in run[n].actions ==> !Inside(run[n].actions[i])
    ensures !run[n].inProgress
  {
    Invariant(run, n);
  }

  /**
   Whenever the lock is free after an import got past fetching, `done` is set, `total` is the 32-bit number of users
   that the last such import sent, and the other counters are the core's answer, or zero if the call failed.
   */
  lemma FreeMeansDone(run: seq<State>, n: nat)
    requires IsExecution(run) && n < |run| && !run[n].inProgress && run[n].last.Some?
    ensures var last, progress := run[n].last.value, run[n].progress;
            && progress.done && progress.total == ToInt32(last.users)
            && (progress.total - last.users) % 0x1_0000_0000 == 0
            && progress.imported == (if last.answer.Some? then last.answer.value.imported else 0)
            && progress.failed == (if last.answer.Some? then last.answer.value.failed else 0)
    ensures run[n].last.value.users < 0x8000_0000 ==> run[n].progress.total == run[n].last.value.users
  {
    Invariant(run, n);
  }
}
