/**
 Any number of claim-selection runs, interleaved statement by statement at READ COMMITTED with one another, with the
 wizard saving drafts and with other writers of server_config. A statement waits for the row locks of open transactions.
 */
module BootstrapRuns {
  import opened Outcomes
  import opened Runs
  import opened BootstrapTx

  /** `writes` are the rows the open transaction has written, `deleted` the draft rows it has deleted; it locks both. */
  datatype Run =
    | Open(sel: Selection, done: nat, writes: Config, deleted: set<string>)
    | Finished(outcome: Outcome)

  /** The committed rows; `committed` remembers whose COMMIT took effect. */
  datatype State = State(config: Config, draft: Draft, usersExist: bool, runs: map<nat, Run>, committed: set<nat>)

  ghost predicate Unlocked(s: State, k: Key, i: nat) {
    forall j :: j in s.runs && j != i && s.runs[j].Open? ==> k !in s.runs[j].writes
  }

  ghost predicate DraftUnlocked(s: State, names: set<string>, i: nat) {
    forall j :: j in s.runs && j != i && s.runs[j].Open? ==> names !! s.runs[j].deleted
  }

  function Put(s: State, i: nat, r: Run): State {
    s.(runs := s.runs[i := r])
  }

  ghost predicate StatementStep(s: State, t: State, i: nat, r: Run)
    requires r.Open? && r.done < 11
  {
    var next := r.(done := r.done + 1);
    match Statements(r.sel)[r.done]
    case Upsert(k, v) => Unlocked(s, k, i) && t == Put(s, i, next.(writes := r.writes[k := v]))
    case DeleteDraft => DraftUnlocked(s, s.draft.Keys, i) && t == Put(s, i, next.(deleted := s.draft.Keys))
    case InsertAbsent(k, v) =>
      && Unlocked(s, k, i)
      && t == Put(s, i, if k !in s.config && k !in r.writes then next.(writes := r.writes[k := v])
                        else if k == BootstrapCompleted then Finished(AlreadyCompleted)
                        else next)
  }

  /** COMMIT took effect, with or without the run hearing of it. */
  function Commit(s: State, i: nat, r: Run, outcome: Outcome): State
    requires r.Open?
  {
    State(s.config + r.writes, s.draft - r.deleted, s.usersExist, s.runs[i := Finished(outcome)], s.committed + {i})
  }

  ghost predicate RunStep(s: State, t: State, i: nat) {
    if i !in s.runs then
      t == Put(s, i, Finished(Failed)) || exists sel :: t == Put(s, i, Open(sel, 0, map[], {}))
    else if s.runs[i].Finished? then false
    else
      || t == Put(s, i, Finished(Failed))
      || (if s.runs[i].done < 11 then StatementStep(s, t, i, s.runs[i])
          else t == Commit(s, i, s.runs[i], Completed) || t == Commit(s, i, s.runs[i], Failed))
  }

  /** The wizard saves a draft row. */
  ghost predicate SaveDraft(s: State, t: State, name: string, v: string) {
    && (forall j :: j in s.runs && s.runs[j].Open? ==> name !in s.runs[j].deleted)
    && t == s.(draft := s.draft[name := v])
  }

  /** Another writer sets a configuration value, or the core its own completion mark where there is none. */
  ghost predicate WriteConfig(s: State, t: State, k: Key, v: string) {
    && (forall j :: j in s.runs && s.runs[j].Open? ==> k !in s.runs[j].writes)
    && (k == BootstrapCompleted ==> k !in s.config)
    && t == s.(config := s.config[k := v])
  }

  ghost predicate OtherStep(s: State, t: State) {
    || (exists name, v :: SaveDraft(s, t, name, v))
    || (exists k, v :: WriteConfig(s, t, k, v))
    || t == s.(usersExist := true)
  }

  ghost predicate Next(s: State, t: State) {
    OtherStep(s, t) || exists i :: RunStep(s, t, i)
  }

  ghost predicate Init(s: State) {
    s.runs == map[] && s.committed == {}
  }

  ghost predicate IsExecution(run: seq<State>) {
    IsRun(Init, Next, run)
  }

  // ---- what every step keeps ----

  /** The rows a run has written after n statements: its values so far, and a retention period if it lacked. */
  ghost predicate Progress(s: State, r: Run)
    requires r.Open?
  {
    && r.done <= 11
    && (forall k :: k != RetentionDays ==> Row(r.writes, k) == WrittenBy(r.sel, r.done, k))
    && (RetentionDays in r.writes ==>
        r.done == 11 && r.writes[RetentionDays] == RETENTION_DEFAULT && RetentionDays !in s.config)
    && (r.done == 11 ==> RetentionDays in r.writes || RetentionDays in s.config)
    && (BootstrapCompleted in r.writes ==> BootstrapCompleted !in s.config)
    && r.deleted <= s.draft.Keys
    && (r.done < 9 ==> r.deleted == {})
  }

  /** The place of a key among the statements. */
  function Place(k: Key): nat {
    match k
    case InstanceName => 0
    case OidcIssuer => 1
    case OidcClientId => 2
    case OidcClientSecret => 3
    case AdminGroupClaim => 4
    case UserIdClaim => 5
    case DisplaynameClaim => 6
    case EmailClaim => 7
    case BootstrapCompleted => 9
    case RetentionDays => 10
    case _ => 11
  }

  function WrittenBy(sel: Selection, n: nat, k: Key): Option<string> {
    if Place(k) < n then Written(sel, k) else None
  }

  ghost predicate Inv(s: State) {
    && (forall i :: i in s.runs && s.runs[i].Open? ==> Progress(s, s.runs[i]))
    && Exclusive(s)
    && (s.committed != {} ==> BootstrapCompleted in s.config)
    && |s.committed| <= 1
    && (forall i :: i in s.runs && s.runs[i] == Finished(Completed) ==> i in s.committed)
    && (forall i :: i in s.runs && s.runs[i] == Finished(AlreadyCompleted) ==>
        BootstrapCompleted in s.config && i !in s.committed)
    && (forall i :: i in s.committed ==> i in s.runs && s.runs[i].Finished?)
  }

  /** No two open transactions have written the same row or deleted the same draft row. */
  ghost predicate Exclusive(s: State) {
    forall i, j :: i in s.runs && j in s.runs && i != j && s.runs[i].Open? && s.runs[j].Open? ==>
                     s.runs[i].writes.Keys !! s.runs[j].writes.Keys && s.runs[i].deleted !! s.runs[j].deleted
  }

  lemma NextStatement(sel: Selection, n: nat)
    requires n < 11
    ensures match Statements(sel)[n]
            case Upsert(k, v) => n != 8 && n < 9 && Place(k) == n && Written(sel, k) == Some(v)
            case DeleteDraft => n == 8
            case InsertAbsent(k, v) =>
              || (n == 9 && k == BootstrapCompleted && v == TRUE)
              || (n == 10 && k == RetentionDays && v == RETENTION_DEFAULT)
  {
  }

  lemma StatementShape(s: State, t: State, i: nat, r: Run)
    requires i in s.runs && s.runs[i] == r && r.Open? && r.done < 11 && StatementStep(s, t, i, r)
    ensures i in t.runs && t == Put(s, i, t.runs[i])
    ensures t.runs[i].Finished? ==> t.runs[i].outcome == AlreadyCompleted
    ensures t.runs[i].Open? ==> forall k :: k in t.runs[i].writes && k !in r.writes ==> Unlocked(s, k, i)
    ensures t.runs[i].Open? ==> t.runs[i].deleted == r.deleted || DraftUnlocked(s, t.runs[i].deleted, i)
  {
    hide Statements, Unlocked, DraftUnlocked;
  }

  lemma OwnProgress(s: State, t: State, i: nat, r: Run)
    requires i in s.runs && s.runs[i] == r && r.Open? && r.done < 11 && StatementStep(s, t, i, r) && Progress(s, r)
    ensures t.runs[i].Open? ==> Progress(t, t.runs[i])
    ensures t.runs[i].Finished? ==> BootstrapCompleted in s.config
  {
    NextStatement(r.sel, r.done);
    hide Statements, Unlocked, DraftUnlocked;
    assert Row(r.writes, BootstrapCompleted) == WrittenBy(r.sel, r.done, BootstrapCompleted);
    var u := t.runs[i];
    if u.Open? {
      forall k | k != RetentionDays ensures Row(u.writes, k) == WrittenBy(u.sel, u.done, k) {
        assert Row(r.writes, k) == WrittenBy(r.sel, r.done, k);
      }
    }
  }

  lemma StillExclusive(s: State, t: State, i: nat)
    requires Exclusive(s) && i in t.runs && t.runs == s.runs[i := t.runs[i]]
    requires t.runs[i].Open? && i in s.runs ==> s.runs[i].Open?
    requires t.runs[i].Open? && i !in s.runs ==> t.runs[i].writes == map[] && t.runs[i].deleted == {}
    requires t.runs[i].Open? && i in s.runs ==> forall k :: k in t.runs[i].writes && k !in s.runs[i].writes ==>
               Unlocked(s, k, i)
    requires t.runs[i].Open? && i in s.runs ==>
               t.runs[i].deleted == s.runs[i].deleted || DraftUnlocked(s, t.runs[i].deleted, i)
    ensures Exclusive(t)
  {
    forall j | j in t.runs && j != i && t.runs[j].Open? && t.runs[i].Open?
      ensures t.runs[i].writes.Keys !! t.runs[j].writes.Keys && t.runs[i].deleted !! t.runs[j].deleted
    {
      if i in s.runs {
        assert s.runs[i].writes.Keys !! s.runs[j].writes.Keys && s.runs[i].deleted !! s.runs[j].deleted;
        forall k | k in t.runs[i].writes ensures k !in t.runs[j].writes {
          assert k in s.runs[i].writes || Unlocked(s, k, i);
        }
      }
    }
  }

  /** The rows of the other open transactions are as they left them. */
  lemma OthersProgress(s: State, t: State, r: Run)
    requires r.Open? && Progress(s, r)
    requires forall k :: k in r.writes && k in t.config ==> k in s.config
    requires forall k :: k in s.config ==> k in t.config
    requires r.deleted <= t.draft.Keys
    ensures Progress(t, r)
  {
    hide WrittenBy, Row;
  }

  lemma StatementKeeps(s: State, t: State, i: nat)
    requires Inv(s) && i in s.runs && s.runs[i].Open? && s.runs[i].done < 11 && StatementStep(s, t, i, s.runs[i])
    ensures Inv(t)
  {
    StatementShape(s, t, i, s.runs[i]);
    OwnProgress(s, t, i, s.runs[i]);
    StillExclusive(s, t, i);
    hide StatementStep, Exclusive, Unlocked, DraftUnlocked;
    forall j | j in t.runs && t.runs[j].Open? ensures Progress(t, t.runs[j]) {
      if j != i {
        OthersProgress(s, t, s.runs[j]);
      }
    }
  }

  lemma CommitKeeps(s: State, t: State, i: nat, outcome: Outcome)
    requires Inv(s) && i in s.runs && s.runs[i].Open? && s.runs[i].done == 11
    requires outcome != AlreadyCompleted && t == Commit(s, i, s.runs[i], outcome)
    ensures Inv(t)
    ensures s.committed == {} && BootstrapCompleted !in s.config && BootstrapCompleted in t.config
  {
    var r := s.runs[i];
    assert Progress(s, r);
    assert Row(r.writes, BootstrapCompleted) == WrittenBy(r.sel, 11, BootstrapCompleted) == Some(TRUE);
    StillExclusive(s, t, i);
    forall j | j in t.runs && t.runs[j].Open? ensures Progress(t, t.runs[j]) {
      assert s.runs[i].writes.Keys !! s.runs[j].writes.Keys && s.runs[i].deleted !! s.runs[j].deleted;
      OthersProgress(s, t, s.runs[j]);
    }
    hide Progress, Exclusive;
    assert t.committed == {i};
  }

  lemma AllStatementsDone(s: State, i: nat)
    requires Inv(s) && i in s.runs && s.runs[i].Open?
    ensures s.runs[i].done <= 11
  {
    hide WrittenBy, Row, Exclusive;
    assert Progress(s, s.runs[i]);
  }

  /** A run begins, or fails and is rolled back. */
  lemma BeginOrFailKeeps(s: State, t: State, i: nat)
    requires Inv(s)
    requires i in s.runs ==> s.runs[i].Open? && t == Put(s, i, Finished(Failed))
    requires i !in s.runs ==>
               t == Put(s, i, Finished(Failed)) || exists sel :: t == Put(s, i, Open(sel, 0, map[], {}))
    ensures Inv(t)
  {
    StillExclusive(s, t, i);
    hide Exclusive;
    forall j | j in t.runs && t.runs[j].Open? ensures Progress(t, t.runs[j]) {
      if j != i {
        OthersProgress(s, t, s.runs[j]);
      }
    }
  }

  lemma RunStepKeeps(s: State, t: State, i: nat)
    requires Inv(s) && RunStep(s, t, i)
    ensures Inv(t)
  {
    hide StatementStep, Commit, Inv;
    if i !in s.runs || t == Put(s, i, Finished(Failed)) {
      BeginOrFailKeeps(s, t, i);
    } else if s.runs[i].done < 11 {
      StatementKeeps(s, t, i);
    } else {
      AllStatementsDone(s, i);
      CommitKeeps(s, t, i, if t == Commit(s, i, s.runs[i], Completed) then Completed else Failed);
    }
  }

  lemma OtherStepKeeps(s: State, t: State)
    requires Inv(s) && OtherStep(s, t)
    ensures Inv(t)
  {
    hide Exclusive;
    assert Exclusive(t) by { SameRuns(s, t); }
    forall j | j in t.runs && t.runs[j].Open? ensures Progress(t, t.runs[j]) {
      assert Progress(s, s.runs[j]);
      OthersProgress(s, t, s.runs[j]);
    }
  }

  lemma SameRuns(s: State, t: State)
    requires Exclusive(s) && t.runs == s.runs
    ensures Exclusive(t)
  {
  }

  lemma Invariant(run: seq<State>, n: nat)
    requires IsExecution(run) && n < |run|
    ensures IsInvariant(Init, Next, Inv) && Inv(run[n])
  {
    hide RunStep, OtherStep, Exclusive, Progress;
    forall s: State, t: State | Inv(s) && Next(s, t) ensures Inv(t) {
      if i :| RunStep(s, t, i) {
        RunStepKeeps(s, t, i);
      } else {
        OtherStepKeeps(s, t);
      }
    }
    forall s: State | Init(s) ensures Inv(s) {
      Start(s);
    }
    Always(Init, Next, Inv, run, n);
  }

  lemma Start(s: State)
    requires Init(s)
    ensures Inv(s)
  {
  }

  // ---- the theorems ----

  /**
   All or nothing: what a step of a run changes in the tables is nothing at all, or the whole selection, with the draft
   rows the run had deleted gone and no others.
   */
  lemma AllOrNothing(run: seq<State>, n: nat, i: nat)
    requires IsExecution(run) && n + 1 < |run| && RunStep(run[n], run[n + 1], i)
    ensures var s, t := run[n], run[n + 1];
            if t.committed == s.committed then t.config == s.config && t.draft == s.draft
            else
              && i in s.runs && s.runs[i].Open? && s.committed == {} && t.committed == {i}
              && Installs(s.runs[i].sel, s.config, t.config)
              && t.draft == s.draft - s.runs[i].deleted
  {
    Invariant(run, n);
    var s, t := run[n], run[n + 1];
    if Changes(s, t) {
      Committing(s, t, i);
    }
  }

  ghost predicate Changes(s: State, t: State) {
    t.committed != s.committed || t.config != s.config || t.draft != s.draft
  }

  lemma OnlyCommits(s: State, t: State, i: nat)
    requires Inv(s) && RunStep(s, t, i) && Changes(s, t)
    ensures i in s.runs && s.runs[i].Open? && s.runs[i].done == 11 && Progress(s, s.runs[i])
    ensures t == Commit(s, i, s.runs[i], Completed) || t == Commit(s, i, s.runs[i], Failed)
  {
    if i in s.runs && s.runs[i].Open? && s.runs[i].done < 11 && StatementStep(s, t, i, s.runs[i]) {
      StatementShape(s, t, i, s.runs[i]);
      assert false;
    }
    hide StatementStep, Exclusive, WrittenBy, Row;
    assert Progress(s, s.runs[i]);
  }

  lemma CommitLeaves(s: State, t: State, i: nat, r: Run, outcome: Outcome)
    requires r.Open? && r.done == 11 && Progress(s, r) && t == Commit(s, i, r, outcome)
    ensures Installs(r.sel, s.config, t.config)
    ensures t.draft == s.draft - r.deleted
  {
    forall k ensures Row(t.config, k) == if Written(r.sel, k).Some? then Written(r.sel, k)
                                         else if k == RetentionDays && k !in s.config then Some(RETENTION_DEFAULT)
                                         else Row(s.config, k)
    {
      assert k != RetentionDays ==> Row(r.writes, k) == WrittenBy(r.sel, 11, k) == Written(r.sel, k);
    }
  }

  lemma Committing(s: State, t: State, i: nat)
    requires Inv(s) && RunStep(s, t, i) && Changes(s, t)
    ensures i in s.runs && s.runs[i].Open? && s.committed == {} && t.committed == {i}
    ensures BootstrapCompleted !in s.config
    ensures Installs(s.runs[i].sel, s.config, t.config)
    ensures t.draft == s.draft - s.runs[i].deleted
  {
    OnlyCommits(s, t, i);
    hide RunStep, Progress, Exclusive, Installs, Commit;
    var outcome := if t == Commit(s, i, s.runs[i], Completed) then Completed else Failed;
    CommitKeeps(s, t, i, outcome);
    CommitLeaves(s, t, i, s.runs[i], outcome);
    assert t.committed == s.committed + {i} by { Recorded(s, i, s.runs[i], outcome); }
  }

  lemma Recorded(s: State, i: nat, r: Run, outcome: Outcome)
    requires r.Open?
    ensures Commit(s, i, r, outcome).committed == s.committed + {i}
  {
  }

  /** Over a whole execution at most one run commits, and none if bootstrap was complete at its start. */
  lemma AtMostOneCommit(run: seq<State>, n: nat)
    requires IsExecution(run) && n < |run|
    ensures |run[n].committed| <= 1
    ensures BootstrapCompleted in run[0].config ==> run[n].committed == {}
  {
    Invariant(run, n);
    if BootstrapCompleted in run[0].config {
      StaysComplete(run, 0, n);
    }
  }

  ghost predicate Complete(s: State, t: State) {
    && (BootstrapCompleted in s.config ==> BootstrapCompleted in t.config && t.committed == s.committed)
    && s.committed <= t.committed
  }

  lemma StepComplete(s: State, t: State)
    requires Inv(s) && Next(s, t)
    ensures Complete(s, t)
  {
    hide RunStep, Progress, Exclusive;
    if i :| RunStep(s, t, i) {
      if Changes(s, t) {
        Committing(s, t, i);
      }
    }
  }

  lemma StaysComplete(run: seq<State>, m: nat, n: nat)
    requires IsExecution(run) && m <= n < |run|
    ensures Complete(run[m], run[n])
  {
    Invariant(run, m);
    hide Inv, Next, Init;
    forall s: State, t: State, u: State | Complete(s, t) && Inv(t) && Next(t, u) ensures Complete(s, u) {
      StepComplete(t, u);
    }
    Ever(Init, Next, Inv, Complete, run, m, n);
  }

  ghost predicate Active(s: State) {
    BootstrapCompleted !in s.config && (BootstrapActive in s.config || !s.usersExist)
  }

  /** After a commit bootstrap is never active again, and no other run commits. */
  lemma NeverActiveAgain(run: seq<State>, m: nat, n: nat)
    requires IsExecution(run) && m <= n < |run| && run[m].committed != {}
    ensures !Active(run[n]) && run[n].committed == run[m].committed
  {
    Invariant(run, m);
    StaysComplete(run, m, n);
  }

  /** What a run reports is so: success means that it alone committed, and a replay is one only if the mark stands. */
  lemma ReportsAreTrue(run: seq<State>, n: nat, i: nat)
    requires IsExecution(run) && n < |run| && i in run[n].runs && run[n].runs[i].Finished?
    ensures run[n].runs[i].outcome == Completed ==> run[n].committed == {i}
    ensures run[n].runs[i].outcome == AlreadyCompleted ==> BootstrapCompleted in run[n].config && i !in run[n].committed
  {
    Invariant(run, n);
    var s := run[n];
    if s.runs[i].outcome == Completed {
      assert i in s.committed;
      var others := s.committed - {i};
      assert |others| == |s.committed| - 1;
      assert s.committed == others + {i};
    }
  }

  // ---- what is left of the draft ----

  ghost predicate Saves(s: State, t: State, name: string) {
    exists v :: SaveDraft(s, t, name, v)
  }

  /** A draft row of this name was saved after step d and before step n. */
  ghost predicate SavedBetween(run: seq<State>, d: nat, n: nat, name: string)
    requires n < |run|
  {
    exists m :: d < m < n && SavedAt(run, m, name)
  }

  ghost predicate SavedAt(run: seq<State>, m: int, name: string) {
    0 <= m < |run| - 1 && Saves(run[m], run[m + 1], name)
  }

  /** At step d run i executed its DELETE. */
  ghost predicate Deletes(run: seq<State>, d: nat, i: nat)
    requires d + 1 < |run|
  {
    && i in run[d].runs && run[d].runs[i].Open? && run[d].runs[i].done == 8
    && i in run[d + 1].runs && run[d + 1].runs[i].Open? && run[d + 1].runs[i].done == 9
    && run[d + 1].runs[i].deleted == run[d].draft.Keys
  }

  /** Since step d the draft has kept the deleted names, which are locked, and gained those saved. */
  ghost predicate DraftSince(run: seq<State>, d: nat, n: nat, i: nat)
    requires d < n < |run|
  {
    && Deletes(run, d, i) && PastDelete(run[n], i)
    && run[n].runs[i].deleted == run[d].draft.Keys
    && forall name :: SavedBetween(run, d, n, name) <==> name in run[n].draft && name !in run[d].draft
  }

  ghost predicate PastDelete(s: State, i: nat) {
    i in s.runs && s.runs[i].Open? && s.runs[i].done >= 9
  }

  lemma HoldsInstanceName(s: State, i: nat)
    requires Inv(s) && i in s.runs && s.runs[i].Open? && s.runs[i].done >= 1
    ensures InstanceName in s.runs[i].writes.Keys
  {
    var r := s.runs[i];
    assert Progress(s, r);
    assert Row(r.writes, InstanceName) == WrittenBy(r.sel, r.done, InstanceName);
  }

  /** From its first statement on a run holds the row of the instance's name: there is no second such run. */
  lemma Alone(s: State, i: nat, j: nat)
    requires Inv(s) && i in s.runs && s.runs[i].Open? && s.runs[i].done >= 1
    requires j in s.runs && s.runs[j].Open? && s.runs[j].done >= 1
    ensures i == j
  {
    HoldsInstanceName(s, i);
    HoldsInstanceName(s, j);
    hide Progress;
  }

  /** While run i is past its DELETE, no other run commits. */
  lemma NoOtherCommit(s: State, t: State, i: nat, j: nat)
    requires Inv(s) && PastDelete(s, i) && RunStep(s, t, j)
    ensures j == i || (t.draft == s.draft && t.config == s.config && t.committed == s.committed)
  {
    if Changes(s, t) {
      OnlyCommits(s, t, j);
      hide Inv, RunStep, Commit;
      Alone(s, i, j);
    }
  }

  /** A step from past the DELETE to past the DELETE leaves the draft alone or saves a row that is not locked. */
  lemma DraftStep(s: State, t: State, i: nat)
    requires Inv(s) && Next(s, t) && PastDelete(s, i) && PastDelete(t, i)
    ensures t.runs[i].deleted == s.runs[i].deleted
    ensures forall name :: name in t.draft <==> name in s.draft || Saves(s, t, name)
    ensures forall name :: Saves(s, t, name) ==> name !in s.runs[i].deleted
  {
    hide Inv;
    if j :| RunStep(s, t, j) {
      if j != i {
        NoOtherCommit(s, t, i, j);
        OthersStay(s, t, i, j);
      } else {
        OwnDraftStep(s, t, i);
      }
      hide RunStep;
      forall name | Saves(s, t, name) ensures name in t.draft {
        var v :| SaveDraft(s, t, name, v);
      }
    } else {
      forall name | name in t.draft && name !in s.draft ensures Saves(s, t, name) {
        var other, v :| SaveDraft(s, t, other, v);
        assert other == name;
      }
    }
  }

  lemma OthersStay(s: State, t: State, i: nat, j: nat)
    requires RunStep(s, t, j) && j != i && i in s.runs
    ensures i in t.runs && t.runs[i] == s.runs[i]
  {
    hide Statements, Unlocked, DraftUnlocked;
  }

  lemma OwnDraftStep(s: State, t: State, i: nat)
    requires Inv(s) && RunStep(s, t, i) && PastDelete(s, i) && PastDelete(t, i)
    ensures t.runs[i].deleted == s.runs[i].deleted && t.draft == s.draft
  {
    if s.runs[i].done < 11 {
      NextStatement(s.runs[i].sel, s.runs[i].done);
    }
    hide Statements, Unlocked, DraftUnlocked, Exclusive, Progress;
  }

  lemma AtDelete(s: State, t: State, i: nat)
    requires Next(s, t) && !PastDelete(s, i) && PastDelete(t, i)
    ensures i in s.runs && s.runs[i].Open? && s.runs[i].done == 8 && t.runs[i].done == 9
    ensures t.runs[i].deleted == s.draft.Keys && t.draft == s.draft
  {
    hide Statements, Unlocked, DraftUnlocked;
    if j :| RunStep(s, t, j) {
      if j == i && i in s.runs && s.runs[i].Open? && s.runs[i].done < 11 {
        NextStatement(s.runs[i].sel, s.runs[i].done);
      } else if j != i && i in s.runs {
        OthersStay(s, t, i, j);
      }
    }
  }

  lemma {:induction false} DraftFollowed(run: seq<State>, n: nat, i: nat) returns (d: nat)
    requires IsExecution(run) && n < |run| && PastDelete(run[n], i)
    ensures d < n && DraftSince(run, d, n, i)
    decreases n
  {
    hide Inv, Next, RunStep, Saves;
    Invariant(run, 0);
    NoRunsYet(run[0], i);
    Invariant(run, n - 1);
    assert Next(run[n - 1], run[n]);
    if PastDelete(run[n - 1], i) {
      d := DraftFollowed(run, n - 1, i);
      DraftStep(run[n - 1], run[n], i);
      var last := n - 1;
      assert forall name :: SavedAt(run, last, name) <==> Saves(run[last], run[n], name);
      ExtendSince(run, d, n, i);
    } else {
      d := n - 1;
      AtDelete(run[d], run[n], i);
      assert forall name :: !SavedBetween(run, d, n, name);
      assert Deletes(run, d, i);
    }
  }

  lemma NoRunsYet(s: State, i: nat)
    requires Init(s)
    ensures !PastDelete(s, i)
  {
  }

  lemma ExtendSince(run: seq<State>, d: nat, n: nat, i: nat)
    requires d + 1 < n < |run| && DraftSince(run, d, n - 1, i) && PastDelete(run[n], i)
    requires run[n].runs[i].deleted == run[n - 1].runs[i].deleted
    requires forall name :: name in run[n].draft <==> name in run[n - 1].draft || SavedAt(run, n - 1, name)
    requires forall name :: SavedAt(run, n - 1, name) ==> name !in run[d].draft
    ensures DraftSince(run, d, n, i)
  {
    hide SavedAt, Deletes, PastDelete;
    forall name
      ensures SavedBetween(run, d, n, name) <==> SavedBetween(run, d, n - 1, name) || SavedAt(run, n - 1, name)
    {
      if SavedBetween(run, d, n, name) {
        var m :| d < m < n && SavedAt(run, m, name);
        assert m == n - 1 || m < n - 1;
      }
    }
  }

  /**
   What a committed run leaves of the draft: the names that were saved between its DELETE and its COMMIT, and no others.
   So the draft ends empty if and only if nothing was saved in between.
   */
  lemma DraftAfterCommit(run: seq<State>, n: nat, i: nat) returns (d: nat)
    requires IsExecution(run) && n + 1 < |run| && RunStep(run[n], run[n + 1], i)
    requires run[n + 1].committed != run[n].committed
    ensures d < n && Deletes(run, d, i)
    ensures forall name :: name in run[n + 1].draft <==> SavedBetween(run, d, n, name)
    ensures run[n + 1].draft == map[] <==> forall m, name :: d < m < n ==> !SavedAt(run, m, name)
  {
    Invariant(run, n);
    OnlyCommits(run[n], run[n + 1], i);
    Committing(run[n], run[n + 1], i);
    d := DraftFollowed(run, n, i);
    LeftOver(run, d, n, i);
  }

  lemma LeftOver(run: seq<State>, d: nat, n: nat, i: nat)
    requires d < n && n + 1 < |run| && DraftSince(run, d, n, i)
             && run[n + 1].draft == run[n].draft - run[n].runs[i].deleted
    ensures Deletes(run, d, i)
    ensures forall name :: name in run[n + 1].draft <==> SavedBetween(run, d, n, name)
    ensures run[n + 1].draft == map[] <==> forall m, name :: d < m < n ==> !SavedAt(run, m, name)
  {
    hide Deletes, SavedAt, PastDelete;
    var t := run[n + 1];
    if t.draft == map[] {
      forall m, name | d < m < n ensures !SavedAt(run, m, name) {
        assert name !in t.draft && !SavedBetween(run, d, n, name);
      }
    } else {
      var name :| name in t.draft;
      assert SavedBetween(run, d, n, name);
    }
  }
}
