/**
 The transaction that ends the bootstrap wizard: ClaimSelectionHandler and completeBootstrapTx of
 gateway/internal/admin/auth.go, saveBootstrapConfigTx, clearDraftTx and IsBootstrapActive of bootstrap.go there.
 Here one run at a time, with a failure at any statement.
 */
module BootstrapTx {
  import opened Outcomes

  datatype Key =
    | InstanceName
    | OidcIssuer
    | OidcClientId
    | OidcClientSecret
    | AdminGroupClaim
    | UserIdClaim
    | DisplaynameClaim
    | EmailClaim
    | BootstrapCompleted
    | BootstrapActive
    | RetentionDays
    | Other(name: string)

  const TRUE := "true"
  const RETENTION_DEFAULT := "2555"

  /** Rows of server_config and of bootstrap_draft. */
  type Config = map<Key, string>
  type Draft = map<string, string>

  datatype View = View(config: Config, draft: Draft)

  /** What the run writes: read from the draft and the form before the transaction begins. */
  datatype Selection = Selection(
    instanceName: string, issuer: string, clientId: string, encryptedSecret: string,
    groupClaim: string, userIdClaim: string, displaynameClaim: string, emailClaim: string)

  datatype Statement =
    | Upsert(key: Key, value: string)
    | InsertAbsent(key: Key, value: string)
    | DeleteDraft

  datatype Outcome = Completed | AlreadyCompleted | Failed

  /** COMMIT takes effect, or does not, or does and its answer is lost. */
  datatype CommitAnswer = Committed | Refused | Lost

  function BootstrapConfig(sel: Selection): seq<Statement> {
    [Upsert(InstanceName, sel.instanceName), Upsert(OidcIssuer, sel.issuer), Upsert(OidcClientId, sel.clientId),
     Upsert(OidcClientSecret, sel.encryptedSecret)]
  }

  function ClaimMapping(sel: Selection): seq<Statement> {
    [Upsert(UserIdClaim, sel.userIdClaim), Upsert(DisplaynameClaim, sel.displaynameClaim),
     Upsert(EmailClaim, sel.emailClaim)]
  }

  function CompleteBootstrap(): seq<Statement> {
    [InsertAbsent(BootstrapCompleted, TRUE), InsertAbsent(RetentionDays, RETENTION_DEFAULT)]
  }

  function Statements(sel: Selection): (r: seq<Statement>)
    ensures |r| == 11
  {
    BootstrapConfig(sel) + [Upsert(AdminGroupClaim, sel.groupClaim)] + ClaimMapping(sel) + [DeleteDraft]
      + CompleteBootstrap()
  }

  function Execute(stmt: Statement, v: View): View {
    match stmt
    case Upsert(k, x) => v.(config := v.config[k := x])
    case InsertAbsent(k, x) => if k in v.config then v else v.(config := v.config[k := x])
    case DeleteDraft => v.(draft := map[])
  }

  function ExecuteAll(stmts: seq<Statement>, v: View): View {
    if stmts == [] then v else Execute(stmts[|stmts| - 1], ExecuteAll(stmts[..|stmts| - 1], v))
  }

  lemma {:induction false} ExecuteMore(first: seq<Statement>, second: seq<Statement>, v: View)
    ensures ExecuteAll(first + second, v) == ExecuteAll(second, ExecuteAll(first, v))
  {
    if second == [] {
      assert first + second == first;
    } else {
      var n := |second| - 1;
      assert (first + second)[..|first| + n] == first + second[..n];
      ExecuteMore(first, second[..n], v);
    }
  }

  /** The value a run writes under a key, whatever stood there. */
  function Written(sel: Selection, k: Key): Option<string> {
    match k
    case InstanceName => Some(sel.instanceName)
    case OidcIssuer => Some(sel.issuer)
    case OidcClientId => Some(sel.clientId)
    case OidcClientSecret => Some(sel.encryptedSecret)
    case AdminGroupClaim => Some(sel.groupClaim)
    case UserIdClaim => Some(sel.userIdClaim)
    case DisplaynameClaim => Some(sel.displaynameClaim)
    case EmailClaim => Some(sel.emailClaim)
    case BootstrapCompleted => Some(TRUE)
    case _ => None
  }

  function Row(c: Config, k: Key): Option<string> {
    if k in c then Some(c[k]) else None
  }

  /** What a committed run leaves: its eight values, the completion mark, a retention period, and nothing else new. */
  ghost predicate Installs(sel: Selection, before: Config, after: Config) {
    forall k :: Row(after, k) == if Written(sel, k).Some? then Written(sel, k)
                                 else if k == RetentionDays && k !in before then Some(RETENTION_DEFAULT)
                                 else Row(before, k)
  }

  /** An installation leaves these ten rows, and the others as they were. */
  lemma InstalledRows(sel: Selection, before: Config, after: Config)
    requires Installs(sel, before, after)
    ensures after.Keys == before.Keys
              + {InstanceName, OidcIssuer, OidcClientId, OidcClientSecret, AdminGroupClaim, UserIdClaim,
                 DisplaynameClaim, EmailClaim, BootstrapCompleted, RetentionDays}
    ensures && after[InstanceName] == sel.instanceName && after[OidcIssuer] == sel.issuer
            && after[OidcClientId] == sel.clientId && after[OidcClientSecret] == sel.encryptedSecret
            && after[AdminGroupClaim] == sel.groupClaim && after[UserIdClaim] == sel.userIdClaim
            && after[DisplaynameClaim] == sel.displaynameClaim && after[EmailClaim] == sel.emailClaim
            && after[BootstrapCompleted] == "true"
            && after[RetentionDays] == (if RetentionDays in before then before[RetentionDays] else "2555")
    ensures forall k :: k in before && (k == BootstrapActive || k.Other?) ==> after[k] == before[k]
  {
    forall k
      ensures k in after <==> k in before || k == RetentionDays || (k != BootstrapActive && !k.Other?)
    {
      assert k in after <==> Row(after, k).Some?;
    }
  }

  /** An open transaction: its own view, and the statement at which the database will fail. */
  class Tx {
    var view: View
    var executed: nat
    const failsAt: nat

    constructor (view: View, failsAt: nat)
      ensures this.view == view && executed == 0 && this.failsAt == failsAt
    {
      this.view := view;
      executed := 0;
      this.failsAt := failsAt;
    }

    /** ExecContext: whether it worked, and whether a row was affected. */
    method Exec(stmt: Statement) returns (ok: bool, affected: bool)
      modifies this
      ensures ok == (old(executed) != failsAt)
      ensures ok ==> executed == old(executed) + 1 && view == Execute(stmt, old(view))
      ensures ok ==> affected == !(stmt.InsertAbsent? && stmt.key in old(view.config))
    {
      if executed == failsAt {
        return false, false;
      }
      executed := executed + 1;
      affected := !(stmt.InsertAbsent? && stmt.key in view.config);
      view := Execute(stmt, view);
      return true, affected;
    }

    /** The loops of saveBootstrapConfigTx and saveClaimMappingTx over their rows. */
    method SaveRows(rows: seq<Statement>) returns (ok: bool)
      requires executed <= failsAt
      modifies this
      ensures ok == (old(executed) + |rows| <= failsAt)
      ensures ok ==> executed == old(executed) + |rows| && view == ExecuteAll(rows, old(view))
    {
      for i := 0 to |rows|
        invariant executed == old(executed) + i <= failsAt && view == ExecuteAll(rows[..i], old(view))
      {
        assert rows[..i + 1][..i] == rows[..i];
        var worked, _ := Exec(rows[i]);
        if !worked {
          return false;
        }
      }
      assert rows[..|rows|] == rows;
      return true;
    }

    method Complete() returns (r: Outcome)
      requires executed <= failsAt
      modifies this
      ensures r == if old(executed) == failsAt then Failed
                   else if BootstrapCompleted in old(view.config) then AlreadyCompleted
                   else if old(executed) + 1 == failsAt then Failed else Completed
      ensures r == Completed ==> view == ExecuteAll(CompleteBootstrap(), old(view))
    {
      var ok, affected := Exec(CompleteBootstrap()[0]);
      if !ok {
        return Failed;
      }
      if !affected {
        return AlreadyCompleted;
      }
      ok, affected := Exec(CompleteBootstrap()[1]);
      TwoStatements(CompleteBootstrap()[0], CompleteBootstrap()[1], old(view));
      return if ok then Completed else Failed;
    }
  }

  class Database {
    var rows: View

    constructor (rows: View)
      ensures this.rows == rows
    {
      this.rows := rows;
    }

    /**
     The function the handler hands to runInTx, and runInTx around it: all of the statements take effect or none. A
     failure of COMMIT with its effect lost from sight is the only one that is not harmless.
     */
    method ClaimSelection(sel: Selection, failsAt: nat, commit: CommitAnswer) returns (r: Outcome)
      modifies this
      ensures r == if failsAt < 10 then Failed
                   else if BootstrapCompleted in old(rows.config) then AlreadyCompleted
                   else if failsAt == 10 || !commit.Committed? then Failed else Completed
      ensures rows == if failsAt < 11 || BootstrapCompleted in old(rows.config) || commit.Refused? then old(rows)
                      else ExecuteAll(Statements(sel), old(rows))
      ensures failsAt >= 11 && BootstrapCompleted !in old(rows.config) && !commit.Refused? ==>
                Installs(sel, old(rows.config), rows.config) && rows.draft == map[]
    {
      var tx := new Tx(rows, failsAt);
      r := Failed;
      var ok := tx.SaveRows(BootstrapConfig(sel));
      if ok {
        ok := tx.SaveRows([Upsert(AdminGroupClaim, sel.groupClaim)]);
      }
      if ok {
        ok := tx.SaveRows(ClaimMapping(sel));
      }
      if ok {
        ok := tx.SaveRows([DeleteDraft]);
      }
      if ok {
        Before(sel, rows);
        assert Row(tx.view.config, BootstrapCompleted) == Row(rows.config, BootstrapCompleted);
        r := tx.Complete();
      }
      if r != Completed || commit.Refused? {
        // rolled back
        return if r == Completed then Failed else r;
      }
      AllTogether(sel, rows);
      CommitInstalls(sel, rows);
      hide Installs;
      rows := tx.view;
      if commit.Lost? {
        return Failed;
      }
    }
  }

  /** The statements before completeBootstrapTx. */
  function Preparation(sel: Selection, v: View): View {
    ExecuteAll([DeleteDraft], ExecuteAll(ClaimMapping(sel),
      ExecuteAll([Upsert(AdminGroupClaim, sel.groupClaim)], ExecuteAll(BootstrapConfig(sel), v))))
  }

  lemma AllTogether(sel: Selection, v: View)
    ensures ExecuteAll(Statements(sel), v) == ExecuteAll(CompleteBootstrap(), Preparation(sel, v))
  {
    var a, b, c := BootstrapConfig(sel), [Upsert(AdminGroupClaim, sel.groupClaim)], ClaimMapping(sel);
    hide ExecuteAll;
    ExecuteMore(a, b, v);
    ExecuteMore(a + b, c, v);
    ExecuteMore(a + b + c, [DeleteDraft], v);
    ExecuteMore(a + b + c + [DeleteDraft], CompleteBootstrap(), v);
  }

  /** The value that some upserts leave under a key. */
  function Saved(rows: seq<Statement>, k: Key): Option<string> {
    if rows == [] then None
    else
      var last := rows[|rows| - 1];
      if last.Upsert? && last.key == k then Some(last.value) else Saved(rows[..|rows| - 1], k)
  }

  lemma {:induction false} SavedRows(rows: seq<Statement>, v: View)
    requires forall i :: 0 <= i < |rows| ==> rows[i].Upsert?
    ensures ExecuteAll(rows, v).draft == v.draft
    ensures forall k :: Row(ExecuteAll(rows, v).config, k)
                        == if Saved(rows, k).Some? then Saved(rows, k) else Row(v.config, k)
  {
    if rows != [] {
      SavedRows(rows[..|rows| - 1], v);
    }
  }

  /** The rows before the draft is deleted write every value of the selection. */
  lemma AllSaved(sel: Selection, k: Key)
    ensures Saved(ClaimMapping(sel), k)
            == if k == UserIdClaim || k == DisplaynameClaim || k == EmailClaim then Written(sel, k) else None
    ensures Saved([Upsert(AdminGroupClaim, sel.groupClaim)], k)
            == if k == AdminGroupClaim then Written(sel, k) else None
    ensures Saved(BootstrapConfig(sel), k)
            == if k == InstanceName || k == OidcIssuer || k == OidcClientId || k == OidcClientSecret
               then Written(sel, k) else None
  {
    hide Saved;
    var a, c, group := BootstrapConfig(sel), ClaimMapping(sel), [Upsert(AdminGroupClaim, sel.groupClaim)];
    NothingSaved(k);
    OneMoreSaved([], group[0], k);
    assert [] + [group[0]] == group;
    ThreeSaved(c[0], c[1], c[2], k);
    ThreeSaved(a[0], a[1], a[2], k);
    OneMoreSaved([a[0], a[1], a[2]], a[3], k);
    assert [a[0], a[1], a[2]] + [a[3]] == a && [c[0], c[1], c[2]] == c;
  }

  lemma NothingSaved(k: Key)
    ensures Saved([], k) == None
  {
  }

  lemma OneMoreSaved(rows: seq<Statement>, stmt: Statement, k: Key)
    ensures Saved(rows + [stmt], k) == if stmt.Upsert? && stmt.key == k then Some(stmt.value) else Saved(rows, k)
  {
    assert (rows + [stmt])[..|rows|] == rows;
  }

  lemma ThreeSaved(x: Statement, y: Statement, z: Statement, k: Key)
    requires x.Upsert? && y.Upsert? && z.Upsert?
    ensures Saved([x, y, z], k) == if z.key == k then Some(z.value) else if y.key == k then Some(y.value)
                                   else if x.key == k then Some(x.value) else None
  {
    hide Saved;
    NothingSaved(k);
    OneMoreSaved([], x, k);
    OneMoreSaved([x], y, k);
    OneMoreSaved([x, y], z, k);
    assert [] + [x] == [x] && [x] + [y] == [x, y] && [x, y] + [z] == [x, y, z];
  }

  /** Nothing before it touches the completion mark, and all other values are written. */
  lemma Before(sel: Selection, v: View)
    ensures forall k :: Row(Preparation(sel, v).config, k)
                        == if k != BootstrapCompleted && Written(sel, k).Some?
                           then Written(sel, k) else Row(v.config, k)
    ensures Preparation(sel, v).draft == map[]
  {
    hide ExecuteAll, Saved, Row;
    var group := [Upsert(AdminGroupClaim, sel.groupClaim)];
    var v1 := ExecuteAll(BootstrapConfig(sel), v);
    var v2 := ExecuteAll(group, v1);
    var v3 := ExecuteAll(ClaimMapping(sel), v2);
    SavedRows(BootstrapConfig(sel), v);
    SavedRows(group, v1);
    SavedRows(ClaimMapping(sel), v2);
    OneStatement(DeleteDraft, v3);
    forall k ensures Row(Preparation(sel, v).config, k)
                     == if k != BootstrapCompleted && Written(sel, k).Some? then Written(sel, k) else Row(v.config, k)
    {
      AllSaved(sel, k);
    }
  }

  lemma OneStatement(stmt: Statement, v: View)
    ensures ExecuteAll([stmt], v) == Execute(stmt, v)
  {
    assert [stmt][..0] == [];
  }

  lemma TwoStatements(first: Statement, second: Statement, v: View)
    ensures ExecuteAll([first, second], v) == Execute(second, Execute(first, v))
  {
    assert [first, second][..1] == [first];
    OneStatement(first, v);
  }

  lemma InsertedRow(stmt: Statement, v: View)
    requires stmt.InsertAbsent?
    ensures Execute(stmt, v).draft == v.draft
    ensures forall k :: Row(Execute(stmt, v).config, k)
                        == if k == stmt.key && Row(v.config, k).None? then Some(stmt.value) else Row(v.config, k)
  {
  }

  /** A committed run installs its whole selection and empties the draft. */
  lemma CommitInstalls(sel: Selection, v: View)
    requires BootstrapCompleted !in v.config
    ensures var after := ExecuteAll(Statements(sel), v);
            Installs(sel, v.config, after.config) && after.draft == map[]
  {
    hide ExecuteAll, Execute, Preparation, Statements;
    AllTogether(sel, v);
    Before(sel, v);
    var mark, retention := CompleteBootstrap()[0], CompleteBootstrap()[1];
    var prepared := Preparation(sel, v);
    TwoStatements(mark, retention, prepared);
    InsertedRow(mark, prepared);
    InsertedRow(retention, Execute(mark, prepared));
  }

  /** IsBootstrapActive, row by row of its first query. */
  method IsBootstrapActive(config: Config, usersExist: bool) returns (active: bool)
    ensures active <==> BootstrapCompleted !in config && (BootstrapActive in config || !usersExist)
  {
    var hasActive, hasCompleted := false, false;
    var left := set k | k in config && (k == BootstrapActive || k == BootstrapCompleted);
    while left != {}
      invariant forall k :: k in left ==> k in config && (k == BootstrapActive || k == BootstrapCompleted)
      invariant hasActive <==> BootstrapActive in config && BootstrapActive !in left
      invariant hasCompleted <==> BootstrapCompleted in config && BootstrapCompleted !in left
      decreases |left|
    {
      var k :| k in left;
      match k {
        case BootstrapActive => hasActive := true;
        case BootstrapCompleted => hasCompleted := true;
      }
      left := left - {k};
    }
    if hasCompleted {
      return false;
    }
    if hasActive {
      return true;
    }
    return !usersExist;
  }
}
