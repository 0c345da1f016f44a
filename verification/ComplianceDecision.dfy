/**
 The four-eyes decision: a pre-flight read, a conditional update and an audit event, run by any number of approvers at
 once, from the admin pages (decide of gateway/internal/admin/compliance_handler.go) and over the API (postDecision of
 gateway/internal/compliance/handler.go), which write the same rows.
 */
module ComplianceDecision {
  import opened Outcomes
  import opened Runs
  import Utf8

  datatype Status = Pending | Approved | Rejected

  /** A row of compliance_requests. */
  datatype Request = Request(status: Status, requester: string, approver: Option<string>)

  datatype Decision = Approve | Reject

  function StatusOf(d: Decision): Status {
    if d.Approve? then Approved else Rejected
  }

  function ActionOf(d: Decision): string {
    if d.Approve? then "compliance_access_approved" else "compliance_access_rejected"
  }

  datatype Outcome =
    | Success
    | EmptyApprover
    | NotAnOfficer
    | BadRequestId
    | NoteTooLong
    | NotFound
    | NotPending
    | SelfDecision
    | DatabaseFailed

  datatype Event = Event(actor: string, action: string, request: string, note: string)

  const MAX_NOTE_LEN := 4096
  const MAX_REQUEST_ID_LEN := 256

  /** What can be refused without the database: len(note) counts bytes. */
  function CheckArguments(sub: string, note: string): Outcome {
    if sub == "" then EmptyApprover
    else if |Utf8.Encode(note)| > MAX_NOTE_LEN then NoteTooLong
    else Success
  }

  function Preflight(rows: map<string, Request>, id: string, sub: string): Outcome {
    if id !in rows then NotFound
    else if rows[id].status != Pending then NotPending
    else if rows[id].requester == sub then SelfDecision
    else Success
  }

  /** The API asks for a role and bounds the request's id, but takes a caller without a subject. */
  function CheckApiArguments(officer: bool, id: string, note: string): Outcome {
    if !officer then NotAnOfficer
    else if id == "" || |Utf8.Encode(id)| > MAX_REQUEST_ID_LEN then BadRequestId
    else if |Utf8.Encode(note)| > MAX_NOTE_LEN then NoteTooLong
    else Success
  }

  /** It leaves the status to the update. */
  function ApiPreflight(rows: map<string, Request>, id: string, sub: string): Outcome {
    if id !in rows then NotFound
    else if rows[id].requester == sub then SelfDecision
    else Success
  }

  /** UPDATE ... WHERE id = $1 AND status = 'pending' RETURNING id */
  function DecideRow(rows: map<string, Request>, id: string, sub: string, d: Decision): Option<map<string, Request>> {
    if id in rows && rows[id].status == Pending then
      Some(rows[id := Request(StatusOf(d), rows[id].requester, Some(sub))])
    else None
  }

  /** One undisturbed call. */
  class ApprovalClient {
    var requests: map<string, Request>
    var auditLog: seq<Event>
    const auditing: bool // whether a core client is wired

    constructor (requests: map<string, Request>, auditing: bool)
      ensures this.requests == requests && this.auditing == auditing && auditLog == []
    {
      this.requests := requests;
      this.auditing := auditing;
      auditLog := [];
    }

    method Decide(id: string, sub: string, note: string, d: Decision) returns (r: Outcome)
      modifies this
      ensures var known := id in old(requests);
              match r
              case EmptyApprover => sub == ""
              case NoteTooLong => sub != "" && |Utf8.Encode(note)| > 4096
              case NotFound => sub != "" && |Utf8.Encode(note)| <= 4096 && !known
              case NotPending =>
                sub != "" && |Utf8.Encode(note)| <= 4096 && known && old(requests)[id].status != Pending
              case SelfDecision =>
                && sub != "" && |Utf8.Encode(note)| <= 4096 && known
                && old(requests)[id].status == Pending && old(requests)[id].requester == sub
              case Success =>
                && sub != "" && |Utf8.Encode(note)| <= 4096 && known
                && old(requests)[id].status == Pending && old(requests)[id].requester != sub
              case _ => false
      ensures r != Success ==> requests == old(requests) && auditLog == old(auditLog)
      ensures r == Success ==>
                && requests == old(requests)[id := Request(if d.Approve? then Approved else Rejected,
                                                           old(requests)[id].requester, Some(sub))]
                && auditLog == old(auditLog) + if !auditing then []
                     else [Event(sub, if d.Approve? then "compliance_access_approved" else "compliance_access_rejected",
                                 id, note)]
    {
      r := CheckArguments(sub, note);
      if r != Success {
        return;
      }
      r := Preflight(requests, id, sub);
      if r != Success {
        return;
      }
      var updated := DecideRow(requests, id, sub, d);
      if updated.None? {
        return NotPending;
      }
      requests := updated.value;
      if auditing {
        auditLog := auditLog + [Event(sub, ActionOf(d), id, note)];
      }
    }

    /** The same over the API: the caller's role takes the place of the check for a subject. */
    method PostDecision(officer: bool, id: string, sub: string, note: string, d: Decision) returns (r: Outcome)
      modifies this
      ensures var known := id in old(requests);
              var bounded := 0 < |Utf8.Encode(id)| <= 256;
              match r
              case NotAnOfficer => !officer
              case BadRequestId => officer && !bounded
              case NoteTooLong => officer && bounded && |Utf8.Encode(note)| > 4096
              case NotFound => officer && bounded && |Utf8.Encode(note)| <= 4096 && !known
              case SelfDecision =>
                officer && bounded && |Utf8.Encode(note)| <= 4096 && known && old(requests)[id].requester == sub
              case NotPending =>
                && officer && bounded && |Utf8.Encode(note)| <= 4096 && known
                && old(requests)[id].requester != sub && old(requests)[id].status != Pending
              case Success =>
                && officer && bounded && |Utf8.Encode(note)| <= 4096 && known
                && old(requests)[id].requester != sub && old(requests)[id].status == Pending
              case _ => false
      ensures r != Success ==> requests == old(requests) && auditLog == old(auditLog)
      ensures r == Success ==>
                && requests == old(requests)[id := Request(if d.Approve? then Approved else Rejected,
                                                           old(requests)[id].requester, Some(sub))]
                && auditLog == old(auditLog) + if !auditing then []
                     else [Event(sub, if d.Approve? then "compliance_access_approved" else "compliance_access_rejected",
                                 id, note)]
    {
      r := CheckApiArguments(officer, id, note);
      if id != "" {
        Utf8.NotEmpty(id);
      }
      if r != Success {
        return;
      }
      r := ApiPreflight(requests, id, sub);
      if r != Success {
        return;
      }
      var updated := DecideRow(requests, id, sub, d);
      if updated.None? {
        return NotPending;
      }
      requests := updated.value;
      if auditing {
        auditLog := auditLog + [Event(sub, ActionOf(d), id, note)];
      }
    }
  }

  // ---- any number of calls, interleaved statement by statement ----

  datatype Pc =
    | Called
    | Checked
    | Updated
    | Done(outcome: Outcome)

  datatype Route = Page | Api(officer: bool)

  datatype Call = Call(route: Route, id: string, sub: string, note: string, decision: Decision, pc: Pc)

  function Refusal(c: Call): Outcome {
    match c.route
    case Page => CheckArguments(c.sub, c.note)
    case Api(officer) => CheckApiArguments(officer, c.id, c.note)
  }

  function Seen(rows: map<string, Request>, c: Call): Outcome {
    if c.route.Page? then Preflight(rows, c.id, c.sub) else ApiPreflight(rows, c.id, c.sub)
  }

  /** `decidedBy` remembers which call's update took effect. */
  datatype State = State(
    rows: map<string, Request>,
    calls: map<nat, Call>,
    auditLog: seq<Event>,
    decidedBy: map<string, nat>)

  function EventOf(c: Call): Event {
    Event(c.sub, ActionOf(c.decision), c.id, c.note)
  }

  function MoveTo(s: State, i: nat, pc: Pc): State
    requires i in s.calls
  {
    s.(calls := s.calls[i := s.calls[i].(pc := pc)])
  }

  /** The update of call i takes effect and leaves the call at `pc`. */
  function Apply(s: State, i: nat, pc: Pc): State
    requires i in s.calls && DecideRow(s.rows, s.calls[i].id, s.calls[i].sub, s.calls[i].decision).Some?
  {
    var c := s.calls[i];
    MoveTo(s, i, pc).(rows := DecideRow(s.rows, c.id, c.sub, c.decision).value, decidedBy := s.decidedBy[c.id := i])
  }

  ghost predicate CallStep(s: State, t: State, i: nat) {
    if i !in s.calls then
      exists c: Call :: c.pc == Called && t == s.(calls := s.calls[i := c])
    else
      var c := s.calls[i];
      match c.pc
      case Called =>
        if Refusal(c) != Success then t == MoveTo(s, i, Done(Refusal(c)))
        else
          var seen := Seen(s.rows, c);
          || t == MoveTo(s, i, if seen == Success then Checked else Done(seen))
          || t == MoveTo(s, i, Done(DatabaseFailed))
      case Checked =>
        if DecideRow(s.rows, c.id, c.sub, c.decision).Some? then
          || t == Apply(s, i, Updated)
          || t == MoveTo(s, i, Done(DatabaseFailed))
          // the update took effect and its answer was lost
          || t == Apply(s, i, Done(DatabaseFailed))
        else t == MoveTo(s, i, Done(NotPending)) || t == MoveTo(s, i, Done(DatabaseFailed))
      case Updated =>
        // the audit event is best effort: it may not be written
        || t == MoveTo(s, i, Done(Success))
        || t == MoveTo(s, i, Done(Success)).(auditLog := s.auditLog + [EventOf(c)])
      case Done(_) => false
  }

  /** A compliance officer files a request. */
  ghost predicate FileStep(s: State, t: State) {
    exists id, requester :: id !in s.rows && t == s.(rows := s.rows[id := Request(Pending, requester, None)])
  }

  ghost predicate Next(s: State, t: State) {
    FileStep(s, t) || exists i :: CallStep(s, t, i)
  }

  ghost predicate Init(s: State) {
    s.calls == map[] && s.auditLog == [] && s.decidedBy == map[]
  }

  ghost predicate IsExecution(run: seq<State>) {
    IsRun(Init, Next, run)
  }

  /** Only the API takes a caller without a subject. */
  predicate HasSubject(c: Call) {
    c.route.Page? ==> c.sub != ""
  }

  /** The row carries the decision of the call that decided it, and that call had four eyes. */
  ghost predicate DecidedProperly(s: State, id: string)
    requires id in s.decidedBy
  {
    && s.decidedBy[id] in s.calls && id in s.rows
    && var c := s.calls[s.decidedBy[id]];
       && c.id == id && HasSubject(c) && c.sub != s.rows[id].requester
       && (c.pc == Updated || c.pc == Done(Success) || c.pc == Done(DatabaseFailed))
       && s.rows[id].status == (if c.decision.Approve? then Approved else Rejected)
       && s.rows[id].approver == Some(c.sub)
  }

  ghost predicate CallConsistent(s: State, i: nat)
    requires i in s.calls
  {
    var c := s.calls[i];
    && (c.pc == Checked ==> HasSubject(c) && c.id in s.rows && s.rows[c.id].requester != c.sub)
    && (c.pc == Updated || c.pc == Done(Success) ==> c.id in s.decidedBy && s.decidedBy[c.id] == i)
  }

  ghost predicate Audited(s: State, e: Event) {
    && e.request in s.decidedBy && s.decidedBy[e.request] in s.calls
    && s.calls[s.decidedBy[e.request]].pc == Done(Success)
    && e == EventOf(s.calls[s.decidedBy[e.request]])
  }

  ghost predicate Inv(s: State) {
    && (forall id :: id in s.decidedBy ==> DecidedProperly(s, id))
    && (forall i :: i in s.calls ==> CallConsistent(s, i))
    && (forall k :: 0 <= k < |s.auditLog| ==> Audited(s, s.auditLog[k]))
    && (forall k, l :: 0 <= k < l < |s.auditLog| ==> s.auditLog[k].request != s.auditLog[l].request)
  }

  lemma FileKeeps(s: State, t: State)
    requires Inv(s) && FileStep(s, t)
    ensures Inv(t)
  {
    forall id | id in t.decidedBy ensures DecidedProperly(t, id) {
      assert DecidedProperly(s, id);
    }
    forall i | i in t.calls ensures CallConsistent(t, i) {
      assert CallConsistent(s, i);
    }
    forall k | 0 <= k < |t.auditLog| ensures Audited(t, t.auditLog[k]) {
      assert Audited(s, s.auditLog[k]);
    }
  }

  lemma SpawnKeeps(s: State, t: State, i: nat)
    requires Inv(s) && CallStep(s, t, i) && i !in s.calls
    ensures Inv(t)
  {
    forall id | id in t.decidedBy ensures DecidedProperly(t, id) {
      assert DecidedProperly(s, id);
    }
    forall j | j in t.calls ensures CallConsistent(t, j) {
      assert j in s.calls ==> CallConsistent(s, j);
    }
    forall k | 0 <= k < |t.auditLog| ensures Audited(t, t.auditLog[k]) {
      assert Audited(s, s.auditLog[k]);
    }
  }

  lemma ApplyKeeps(s: State, i: nat, pc: Pc)
    requires Inv(s) && i in s.calls && s.calls[i].pc == Checked && (pc == Updated || pc == Done(DatabaseFailed))
    requires DecideRow(s.rows, s.calls[i].id, s.calls[i].sub, s.calls[i].decision).Some?
    ensures Inv(Apply(s, i, pc))
  {
    var t := Apply(s, i, pc);
    var own := s.calls[i].id;
    assert CallConsistent(s, i);
    assert own !in s.decidedBy by {
      assert own in s.decidedBy ==> DecidedProperly(s, own);
    }
    forall id | id in t.decidedBy ensures DecidedProperly(t, id) {
      assert id != own ==> DecidedProperly(s, id);
    }
    forall j | j in t.calls ensures CallConsistent(t, j) {
      assert CallConsistent(s, j);
    }
    forall k | 0 <= k < |t.auditLog| ensures Audited(t, t.auditLog[k]) {
      assert Audited(s, s.auditLog[k]);
    }
  }

  /** Steps that only move a call on, and not into or out of the update. */
  lemma MoveKeeps(s: State, i: nat, pc: Pc)
    requires Inv(s) && i in s.calls
    requires s.calls[i].pc == Called || s.calls[i].pc == Checked
    requires pc != Updated && pc != Done(Success)
    requires pc == Checked ==>
               var c := s.calls[i]; HasSubject(c) && c.id in s.rows && s.rows[c.id].requester != c.sub
    ensures Inv(MoveTo(s, i, pc))
  {
    var t := MoveTo(s, i, pc);
    forall id | id in t.decidedBy ensures DecidedProperly(t, id) {
      assert DecidedProperly(s, id);
    }
    forall j | j in t.calls ensures CallConsistent(t, j) {
      assert CallConsistent(s, j);
    }
    forall k | 0 <= k < |t.auditLog| ensures Audited(t, t.auditLog[k]) {
      assert Audited(s, s.auditLog[k]);
    }
  }

  lemma AuditKeeps(s: State, t: State, i: nat)
    requires Inv(s) && i in s.calls && s.calls[i].pc == Updated && CallStep(s, t, i)
    ensures Inv(t)
  {
    var own := s.calls[i].id;
    assert CallConsistent(s, i);
    forall id | id in t.decidedBy ensures DecidedProperly(t, id) {
      assert DecidedProperly(s, id);
    }
    forall j | j in t.calls ensures CallConsistent(t, j) {
      assert CallConsistent(s, j);
    }
    forall k | 0 <= k < |s.auditLog| ensures s.auditLog[k].request != own && Audited(t, s.auditLog[k]) {
      assert Audited(s, s.auditLog[k]);
    }
  }

  lemma StepKeeps(s: State, t: State)
    requires Inv(s) && Next(s, t)
    ensures Inv(t)
  {
    hide Inv;
    if FileStep(s, t) {
      FileKeeps(s, t);
    } else {
      var i :| CallStep(s, t, i);
      if i !in s.calls {
        SpawnKeeps(s, t, i);
      } else if s.calls[i].pc == Updated {
        AuditKeeps(s, t, i);
      } else if t.decidedBy != s.decidedBy || t.rows != s.rows {
        ApplyKeeps(s, i, t.calls[i].pc);
      } else {
        MovedKeeps(s, t, i);
      }
    }
  }

  lemma MovedKeeps(s: State, t: State, i: nat)
    requires Inv(s) && i in s.calls && s.calls[i].pc != Updated && CallStep(s, t, i)
    requires t.decidedBy == s.decidedBy && t.rows == s.rows
    ensures Inv(t)
  {
    hide Inv;
    var c := s.calls[i];
    var pc := t.calls[i].pc;
    assert c.pc == Called || c.pc == Checked;
    if c.pc == Checked && DecideRow(s.rows, c.id, c.sub, c.decision).Some? {
      assert DecideRow(s.rows, c.id, c.sub, c.decision).value[c.id].status != s.rows[c.id].status;
    }
    assert t == MoveTo(s, i, pc);
    MoveKeeps(s, i, pc);
  }

  lemma Invariant(run: seq<State>, i: nat)
    requires IsExecution(run) && i < |run|
    ensures IsInvariant(Init, Next, Inv) && Inv(run[i])
  {
    forall s: State, t: State | Inv(s) && Next(s, t) ensures Inv(t) {
      StepKeeps(s, t);
    }
    Always(Init, Next, Inv, run, i);
  }

  // ---- what holds over whole runs ----

  ghost predicate DecisionsStand(s: State, t: State) {
    && (forall id :: id in s.rows ==> id in t.rows && t.rows[id].requester == s.rows[id].requester)
    && (forall id :: id in s.rows && s.rows[id].status != Pending ==> t.rows[id] == s.rows[id])
  }

  /** A step leaves the rows alone, files one, or decides a pending one and remembers by whom. */
  ghost predicate RowsMove(s: State, t: State) {
    || (t.rows == s.rows && t.decidedBy == s.decidedBy)
    || (FileStep(s, t) && t.decidedBy == s.decidedBy)
    || exists id, sub, d, i: nat :: RowDecided(s, t, id, sub, d, i)
  }

  ghost predicate RowDecided(s: State, t: State, id: string, sub: string, d: Decision, i: nat) {
    DecideRow(s.rows, id, sub, d) == Some(t.rows) && t.decidedBy == s.decidedBy[id := i]
  }

  lemma StepMoves(s: State, t: State)
    requires Next(s, t)
    ensures RowsMove(s, t)
  {
    hide Refusal, Seen, DecideRow, EventOf;
    if !FileStep(s, t) {
      var i :| CallStep(s, t, i);
      if i in s.calls {
        var c := s.calls[i];
        assert (t.rows == s.rows && t.decidedBy == s.decidedBy) || RowDecided(s, t, c.id, c.sub, c.decision, i);
      }
    }
  }

  lemma StepStands(s: State, t: State, u: State)
    requires DecisionsStand(s, t) && Next(t, u)
    ensures DecisionsStand(s, u)
  {
    hide Next;
    StepMoves(t, u);
  }

  lemma StepRemembers(s: State, t: State, u: State)
    requires Remembered(s, t) && Next(t, u)
    ensures Remembered(s, u)
  {
    hide Next;
    StepMoves(t, u);
  }

  /** A request leaves `pending` at most once: from then on its row never changes. */
  lemma DecisionNeverChanges(run: seq<State>, i: nat, j: nat, id: string)
    requires IsExecution(run) && i <= j < |run| && id in run[i].rows && run[i].rows[id].status != Pending
    ensures id in run[j].rows && run[j].rows[id] == run[i].rows[id]
  {
    Invariant(run, i);
    forall s: State, t: State, u: State | DecisionsStand(s, t) && Inv(t) && Next(t, u) ensures DecisionsStand(s, u) {
      StepStands(s, t, u);
    }
    Ever(Init, Next, Inv, DecisionsStand, run, i, j);
  }

  /** No two calls on one request succeed. */
  lemma AtMostOneSucceeds(run: seq<State>, i: nat, a: nat, b: nat)
    requires IsExecution(run) && i < |run| && a in run[i].calls && b in run[i].calls
    requires run[i].calls[a].pc == Done(Success) && run[i].calls[b].pc == Done(Success)
    requires run[i].calls[a].id == run[i].calls[b].id
    ensures a == b
  {
    Invariant(run, i);
    assert CallConsistent(run[i], a) && CallConsistent(run[i], b);
  }

  /**
   A successful call's decision is the stored one; the approver is not the requester, and empty over the API alone.
   */
  lemma SuccessIsStored(run: seq<State>, i: nat, j: nat, a: nat)
    requires IsExecution(run) && i <= j < |run| && a in run[i].calls && run[i].calls[a].pc == Done(Success)
    ensures var c := run[i].calls[a];
            && c.id in run[j].rows
            && run[j].rows[c.id].status == (if c.decision.Approve? then Approved else Rejected)
            && run[j].rows[c.id].approver == Some(c.sub)
            && c.sub != run[j].rows[c.id].requester && (c.sub == "" ==> c.route.Api?)
  {
    Invariant(run, i);
    var c := run[i].calls[a];
    assert CallConsistent(run[i], a) && DecidedProperly(run[i], c.id);
    DecisionNeverChanges(run, i, j, c.id);
  }

  ghost predicate Remembered(s: State, t: State) {
    forall id :: id in t.rows && t.rows[id].status != Pending ==>
      id in t.decidedBy || (id in s.rows && s.rows[id].status != Pending)
  }

  /**
   Every request that was decided during the run was decided by exactly one call, on either route, and it was not its
   requester's: the call's update took effect, even if its answer was then lost.
   */
  lemma DecidedByOneCall(run: seq<State>, j: nat, id: string)
    requires IsExecution(run) && j < |run| && id in run[j].rows && run[j].rows[id].status != Pending
    requires id in run[0].rows ==> run[0].rows[id].status == Pending
    ensures id in run[j].decidedBy && DecidedProperly(run[j], id)
    ensures forall a :: a in run[j].calls && run[j].calls[a].id == id && run[j].calls[a].pc == Done(Success) ==>
              a == run[j].decidedBy[id]
  {
    Invariant(run, j);
    forall s: State, t: State, u: State | Remembered(s, t) && Inv(t) && Next(t, u) ensures Remembered(s, u) {
      StepRemembers(s, t, u);
    }
    Ever(Init, Next, Inv, Remembered, run, 0, j);
    forall a | a in run[j].calls && run[j].calls[a].id == id && run[j].calls[a].pc == Done(Success)
      ensures a == run[j].decidedBy[id]
    {
      assert CallConsistent(run[j], a);
    }
  }

  /** At most one audit event per request, and its action and actor are those of the stored decision. */
  lemma AuditMatchesDecision(run: seq<State>, j: nat, k: nat)
    requires IsExecution(run) && j < |run| && k < |run[j].auditLog|
    ensures var e := run[j].auditLog[k];
            && e.request in run[j].rows
            && e.request in run[j].decidedBy && run[j].decidedBy[e.request] in run[j].calls
            && run[j].calls[run[j].decidedBy[e.request]].note == e.note
            && run[j].rows[e.request].approver == Some(e.actor)
            && (run[j].rows[e.request].status == Approved <==> e.action == "compliance_access_approved")
            && (run[j].rows[e.request].status == Rejected <==> e.action == "compliance_access_rejected")
            && forall l :: 0 <= l < |run[j].auditLog| && run[j].auditLog[l].request == e.request ==> l == k
  {
    Invariant(run, j);
    var e := run[j].auditLog[k];
    assert Audited(run[j], e) && DecidedProperly(run[j], e.request);
    assert ActionOf(Approve)[18] == 'a' && ActionOf(Reject)[18] == 'r';
  }

  /**
   A request decided during the run stores an empty approver if and only if the deciding call carried no subject, and
   that call came over the API: it lacks the check that the admin pages make.
   */
  lemma EmptyApproverExactly(run: seq<State>, j: nat, id: string)
    requires IsExecution(run) && j < |run| && id in run[j].rows && run[j].rows[id].status != Pending
    requires id in run[0].rows ==> run[0].rows[id].status == Pending
    ensures id in run[j].decidedBy && run[j].decidedBy[id] in run[j].calls
    ensures var c := run[j].calls[run[j].decidedBy[id]];
            && (run[j].rows[id].approver == Some("") <==> c.sub == "")
            && (c.sub == "" ==> c.route.Api?)
  {
    DecidedByOneCall(run, j, id);
  }

  /** An officer whose token carries no subject decides over the API. */
  ghost function WithoutSubject(id: string, requester: string, d: Decision): seq<State> {
    var c := Call(Api(true), id, "", "", d, Called);
    var rows, decided := map[id := Request(Pending, requester, None)],
      map[id := Request(StatusOf(d), requester, Some(""))];
    [State(rows, map[], [], map[]),
     State(rows, map[0 := c], [], map[]),
     State(rows, map[0 := c.(pc := Checked)], [], map[]),
     State(decided, map[0 := c.(pc := Updated)], [], map[id := 0]),
     State(decided, map[0 := c.(pc := Done(Success))], [], map[id := 0])]
  }

  lemma SpawnStep(s: State, t: State, i: nat, c: Call)
    requires i !in s.calls && c.pc == Called && t == s.(calls := s.calls[i := c])
    ensures Next(s, t)
  {
    assert CallStep(s, t, i);
  }

  lemma PreflightStep(s: State, t: State, i: nat)
    requires i in s.calls && s.calls[i].pc == Called
    requires Refusal(s.calls[i]) == Success && Seen(s.rows, s.calls[i]) == Success
    requires t == MoveTo(s, i, Checked)
    ensures Next(s, t)
  {
    hide Refusal, Seen;
    assert CallStep(s, t, i);
  }

  lemma UpdateStep(s: State, t: State, i: nat)
    requires i in s.calls && s.calls[i].pc == Checked
    requires DecideRow(s.rows, s.calls[i].id, s.calls[i].sub, s.calls[i].decision).Some? && t == Apply(s, i, Updated)
    ensures Next(s, t)
  {
    hide DecideRow;
    assert CallStep(s, t, i);
  }

  lemma ReturnStep(s: State, t: State, i: nat)
    requires i in s.calls && s.calls[i].pc == Updated && t == MoveTo(s, i, Done(Success))
    ensures Next(s, t)
  {
    assert CallStep(s, t, i);
  }

  lemma Uncontested(c: Call, requester: string)
    requires c.route == Api(true) && c.sub != requester && c.id != "" && |Utf8.Encode(c.id)| <= MAX_REQUEST_ID_LEN
    requires c.note == ""
    ensures var rows := map[c.id := Request(Pending, requester, None)];
            && Refusal(c) == Success && Seen(rows, c) == Success
            && DecideRow(rows, c.id, c.sub, c.decision)
               == Some(map[c.id := Request(StatusOf(c.decision), requester, Some(c.sub))])
  {
    hide StatusOf;
    assert |Utf8.Encode("")| == 0;
    var rows := map[c.id := Request(Pending, requester, None)];
    assert forall r: Request :: rows[c.id := r] == map[c.id := r];
  }

  lemma WithoutSubjectChecked(id: string, requester: string, d: Decision)
    requires id != "" && |Utf8.Encode(id)| <= MAX_REQUEST_ID_LEN && requester != ""
    ensures var run := WithoutSubject(id, requester, d); Next(run[0], run[1]) && Next(run[1], run[2])
  {
    var run, c := WithoutSubject(id, requester, d), Call(Api(true), id, "", "", d, Called);
    Uncontested(c, requester);
    hide StatusOf, Refusal, Seen, DecideRow, Next;
    SpawnStep(run[0], run[1], 0, c);
    PreflightStep(run[1], run[2], 0);
  }

  lemma WithoutSubjectDecided(id: string, requester: string, d: Decision)
    requires id != "" && |Utf8.Encode(id)| <= MAX_REQUEST_ID_LEN && requester != ""
    ensures var run := WithoutSubject(id, requester, d); Next(run[2], run[3]) && Next(run[3], run[4])
  {
    var run, c := WithoutSubject(id, requester, d), Call(Api(true), id, "", "", d, Checked);
    Uncontested(c, requester);
    hide StatusOf, Refusal, Seen, DecideRow, Next;
    UpdateStep(run[2], run[3], 0);
    ReturnStep(run[3], run[4], 0);
  }

  /** There is such a run. */
  lemma ApproverMayBeEmpty(id: string, requester: string, d: Decision)
    requires id != "" && |Utf8.Encode(id)| <= MAX_REQUEST_ID_LEN && requester != ""
    ensures var run := WithoutSubject(id, requester, d);
            && IsExecution(run) && run[4].calls[0].pc == Done(Success)
            && run[4].rows[id] == Request(StatusOf(d), requester, Some(""))
  {
    WithoutSubjectChecked(id, requester, d);
    WithoutSubjectDecided(id, requester, d);
    hide StatusOf, Next;
  }
}
