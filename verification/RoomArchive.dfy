/**
 Who changes a room's status: any number of ArchiveRoom and UnarchiveRoom calls of gateway/internal/api/rooms_repo.go,
 each a conditional UPDATE and, if that met no row, a second statement that tells a missing room from a wrong status;
 and the core, which archives rooms by itself. The gateway asks the core to do so after each of its own archivings
 (gateway/internal/api/server.go) and from the admin pages (gateway/internal/admin/rooms.go).
 */
module RoomArchive {
  import opened Outcomes
  import opened Runs
  import opened RoomTable
  import opened RoomsRepo

  datatype Operation = Archive(reason: string) | Unarchive

  datatype Pc =
    | Updating
    | Checking
    | Returned(r: Result<string, StatusError>)
    | Failed

  datatype Call = Call(id: string, op: Operation, pc: Pc)

  /** A status that changed: by the UPDATE of a call, or by the core. */
  datatype Event =
    | ByCall(id: string, op: Operation, call: nat)
    | ByCore(id: string)

  /** `history` remembers the changes of status in their order. */
  datatype State = State(rooms: Table, calls: map<nat, Call>, history: seq<Event>)

  function Updated(t: Table, c: Call, now: int): Option<Table> {
    match c.op
    case Archive(reason) => ArchiveUpdate(t, c.id, now, reason)
    case Unarchive => UnarchiveUpdate(t, c.id)
  }

  predicate Archives(e: Event) {
    e.ByCore? || e.op.Archive?
  }

  function Before(e: Event): string {
    if Archives(e) then "active" else "archived"
  }

  function After(e: Event): string {
    if Archives(e) then "archived" else "active"
  }

  function MoveTo(s: State, i: nat, pc: Pc): State
    requires i in s.calls
  {
    s.(calls := s.calls[i := s.calls[i].(pc := pc)])
  }

  /** An UPDATE that meets its row may still lose its answer on the way. */
  ghost predicate UpdateStep(s: State, t: State, i: nat, now: int)
    requires i in s.calls
  {
    var c := s.calls[i];
    match Updated(s.rooms, c, now)
    case Some(rooms) =>
      var event := ByCall(c.id, c.op, i);
      (|| t == MoveTo(s, i, Returned(Ok(After(event)))).(rooms := rooms, history := s.history + [event])
       || t == MoveTo(s, i, Failed).(rooms := rooms, history := s.history + [event]))
    case None => t == MoveTo(s, i, Checking)
  }

  ghost predicate CallStep(s: State, t: State, i: nat) {
    if i !in s.calls then exists id, op :: t == s.(calls := s.calls[i := Call(id, op, Updating)])
    else
      match s.calls[i].pc
      case Updating => (t == MoveTo(s, i, Failed) || exists now :: UpdateStep(s, t, i, now))
      case Checking =>
        || t == MoveTo(s, i, Failed)
        || t == MoveTo(s, i, Returned(Err(if s.calls[i].id in s.rooms then RoomWrongStatus else RoomNotFound)))
      case _ => false
  }

  /** The core archives a room that is not archived yet; time and reason stay as they are. */
  ghost predicate CoreStep(s: State, t: State, id: string) {
    && id in s.rooms && s.rooms[id].status != "archived"
    && t == s.(rooms := s.rooms[id := s.rooms[id].(status := "archived")], history := s.history + [ByCore(id)])
  }

  /** Rooms are created active, and edited in any column but their status. */
  ghost predicate RoomStep(s: State, t: State, id: string, r: Room) {
    && (if id in s.rooms then r.status == s.rooms[id].status else r.status == "active")
    && t == s.(rooms := s.rooms[id := r])
  }

  ghost predicate Next(s: State, t: State) {
    || (exists i :: CallStep(s, t, i))
    || (exists id :: CoreStep(s, t, id))
    || exists id, r :: RoomStep(s, t, id, r)
  }

  /** The column check rooms_status_check. */
  ghost predicate StatusesAllowed(t: Table) {
    forall id :: id in t ==> t[id].status == "active" || t[id].status == "archived"
  }

  ghost predicate Init(start: Table, s: State) {
    StatusesAllowed(start) && s == State(start, map[], [])
  }

  ghost function Starts(start: Table): State -> bool {
    s => Init(start, s)
  }

  ghost predicate IsExecution(start: Table, run: seq<State>) {
    IsRun(Starts(start), Next, run)
  }

  /** The status that these changes leave a room with. */
  function StatusAfter(start: Table, history: seq<Event>, id: string): string {
    if history == [] then (if id in start then start[id].status else "active")
    else if history[|history| - 1].id == id then After(history[|history| - 1])
    else StatusAfter(start, history[..|history| - 1], id)
  }

  /** Of this room, archivings and unarchivings take turns. */
  ghost predicate TakesTurns(start: Table, history: seq<Event>, id: string) {
    forall n :: 0 <= n < |history| && history[n].id == id ==> StatusAfter(start, history[..n], id) == Before(history[n])
  }

  /** Each update stands in the history with its call, which succeeded or lost its answer, and with no other call. */
  ghost predicate Recorded(s: State) {
    && (forall n :: 0 <= n < |s.history| && s.history[n].ByCall? ==> OwnUpdate(s, s.history[n]))
    && (forall m, n :: 0 <= m < n < |s.history| && s.history[m].ByCall? && s.history[n].ByCall? ==>
                         s.history[m].call != s.history[n].call)
    && (forall i :: i in s.calls && s.calls[i].pc.Returned? && s.calls[i].pc.r.Ok? ==> UpdatedBy(s.history, i))
  }

  ghost predicate OwnUpdate(s: State, e: Event)
    requires e.ByCall?
  {
    && e.call in s.calls && s.calls[e.call].id == e.id && s.calls[e.call].op == e.op
    && (s.calls[e.call].pc == Returned(Ok(After(e))) || s.calls[e.call].pc == Failed)
  }

  ghost predicate UpdatedBy(history: seq<Event>, i: nat) {
    exists n :: IsUpdateOf(history, n, i)
  }

  ghost predicate IsUpdateOf(history: seq<Event>, n: int, i: nat) {
    0 <= n < |history| && history[n].ByCall? && history[n].call == i
  }

  ghost predicate Inv(start: Table, s: State) {
    && (forall id :: TakesTurns(start, s.history, id))
    && Recorded(s)
    && StatusesAllowed(s.rooms)
    && (forall id :: id in s.rooms ==> s.rooms[id].status == StatusAfter(start, s.history, id))
    && (forall id :: id in start ==> id in s.rooms)
    && (forall n :: 0 <= n < |s.history| ==> s.history[n].id in s.rooms)
  }

  ghost function Invs(start: Table): State -> bool {
    s => Inv(start, s)
  }

  lemma UpdateMeaning(t: Table, c: Call, now: int, i: nat)
    ensures Updated(t, c, now).Some? <==> c.id in t && t[c.id].status == Before(ByCall(c.id, c.op, i))
    ensures var u := Updated(t, c, now);
            u.Some? ==> ChangesStatus(t, u.value, ByCall(c.id, c.op, i))
  {
  }

  ghost predicate ChangesStatus(t: Table, u: Table, e: Event) {
    && u.Keys == t.Keys && e.id in t && t[e.id].status == Before(e)
    && forall id :: id in t ==> u[id].status == if id == e.id then After(e) else t[id].status
  }

  lemma OneMoreTurn(start: Table, history: seq<Event>, e: Event, id: string)
    requires TakesTurns(start, history, id) && (e.id == id ==> StatusAfter(start, history, id) == Before(e))
    ensures TakesTurns(start, history + [e], id)
    ensures StatusAfter(start, history + [e], id) == if id == e.id then After(e) else StatusAfter(start, history, id)
  {
    hide Before, After;
    var more := history + [e];
    assert more[..|history|] == history;
    forall n | 0 <= n < |more| && more[n].id == id ensures StatusAfter(start, more[..n], id) == Before(more[n]) {
      assert n < |history| ==> more[..n] == history[..n];
    }
  }

  /** A change of status, recorded, keeps all but the record. */
  lemma ChangeKeeps(start: Table, s: State, t: State, e: Event)
    requires Inv(start, s) && ChangesStatus(s.rooms, t.rooms, e) && t.history == s.history + [e] && Recorded(t)
    ensures Inv(start, t)
  {
    hide TakesTurns, StatusAfter, Recorded;
    forall id ensures TakesTurns(start, t.history, id)
      ensures StatusAfter(start, t.history, id) == if id == e.id then After(e) else StatusAfter(start, s.history, id)
    {
      OneMoreTurn(start, s.history, e, id);
    }
  }

  lemma OneMoreRecord(s: State, t: State, i: nat, e: Event)
    requires Recorded(s) && i in s.calls && s.calls[i].pc == Updating && e == ByCall(s.calls[i].id, s.calls[i].op, i)
    requires i in t.calls && (t.calls[i].pc == Returned(Ok(After(e))) || t.calls[i].pc == Failed)
    requires t.calls == s.calls[i := s.calls[i].(pc := t.calls[i].pc)] && t.history == s.history + [e]
    ensures Recorded(t)
  {
    hide After;
    forall j | j in t.calls && t.calls[j].pc.Returned? && t.calls[j].pc.r.Ok? ensures UpdatedBy(t.history, j) {
      if j == i {
        assert IsUpdateOf(t.history, |s.history|, i);
      } else {
        var n :| IsUpdateOf(s.history, n, j);
        assert IsUpdateOf(t.history, n, j);
      }
    }
  }

  lemma SameRecord(s: State, t: State, i: nat)
    requires Recorded(s) && t.history == s.history && i in t.calls && t.calls == s.calls[i := t.calls[i]]
    requires i in s.calls ==> s.calls[i].pc == Updating || s.calls[i].pc == Checking
    requires t.calls[i].pc.Returned? ==> t.calls[i].pc.r.Err?
    ensures Recorded(t)
  {
    hide After;
  }

  lemma CoreRecord(s: State, t: State, id: string)
    requires Recorded(s) && t.calls == s.calls && t.history == s.history + [ByCore(id)]
    ensures Recorded(t)
  {
    hide After;
    forall j | j in t.calls && t.calls[j].pc.Returned? && t.calls[j].pc.r.Ok? ensures UpdatedBy(t.history, j) {
      var n :| IsUpdateOf(s.history, n, j);
      assert IsUpdateOf(t.history, n, j);
    }
  }

  lemma CallStepKeeps(start: Table, s: State, t: State, i: nat)
    requires Inv(start, s) && CallStep(s, t, i)
    ensures Inv(start, t)
  {
    hide Updated, Before, After, TakesTurns, Recorded, StatusAfter, StatusesAllowed, ChangesStatus;
    if i in s.calls && s.calls[i].pc.Updating? && t.history != s.history {
      var now :| UpdateStep(s, t, i, now);
      var c := s.calls[i];
      var e := ByCall(c.id, c.op, i);
      UpdateMeaning(s.rooms, c, now, i);
      OneMoreRecord(s, t, i, e);
      ChangeKeeps(start, s, t, e);
    } else {
      SameRecord(s, t, i);
    }
  }

  lemma StepKeeps(start: Table, s: State, t: State)
    requires Inv(start, s) && Next(s, t)
    ensures Inv(start, t)
  {
    hide CallStep, TakesTurns, StatusAfter, Recorded;
    if i :| CallStep(s, t, i) {
      CallStepKeeps(start, s, t, i);
    } else if id :| CoreStep(s, t, id) {
      CoreRecord(s, t, id);
      ChangeKeeps(start, s, t, ByCore(id));
    } else {
      var id, r :| RoomStep(s, t, id, r);
      RecordOnly(s, t);
      if id !in s.rooms {
        NewRoomActive(start, s.history, id);
      }
    }
  }

  lemma RecordOnly(s: State, t: State)
    requires Recorded(s) && t.calls == s.calls && t.history == s.history
    ensures Recorded(t)
  {
  }

  /** A room that is not there has never changed its status. */
  lemma {:induction false} NewRoomActive(start: Table, history: seq<Event>, id: string)
    requires id !in start && forall n :: 0 <= n < |history| ==> history[n].id != id
    ensures StatusAfter(start, history, id) == "active"
    decreases |history|
  {
    if history != [] {
      NewRoomActive(start, history[..|history| - 1], id);
    }
  }

  lemma Invariant(start: Table, run: seq<State>, n: nat)
    requires IsExecution(start, run) && n < |run|
    ensures Inv(start, run[n]) && StatusesAllowed(start)
  {
    hide Next;
    forall s: State, t: State | Inv(start, s) && Next(s, t) ensures Inv(start, t) {
      StepKeeps(start, s, t);
    }
    Always(Starts(start), Next, Invs(start), run, n);
    assert Starts(start)(run[0]);
  }

  /** Of each room, archivings by anyone and unarchivings take turns, and the last of them tells its status. */
  lemma ArchivingTakesTurns(start: Table, run: seq<State>, n: nat, id: string)
    requires IsExecution(start, run) && n < |run|
    ensures TakesTurns(start, run[n].history, id)
    ensures id in run[n].rooms ==> run[n].rooms[id].status == StatusAfter(start, run[n].history, id)
  {
    Invariant(start, run, n);
  }

  // ---- calls ----

  /** A call that reports success made exactly one update. */
  lemma SuccessIsOneUpdate(start: Table, run: seq<State>, n: nat, i: nat)
    requires IsExecution(start, run) && n < |run| && i in run[n].calls
    ensures run[n].calls[i].pc.Returned? && run[n].calls[i].pc.r.Ok? ==> UpdatedBy(run[n].history, i)
    ensures forall a, b :: IsUpdateOf(run[n].history, a, i) && IsUpdateOf(run[n].history, b, i) ==> a == b
  {
    Invariant(start, run, n);
    hide TakesTurns, StatusAfter, After;
  }

  /** A call that made an update reports success, or its answer was lost; its report is never a refusal. */
  lemma UpdateIsReported(start: Table, run: seq<State>, n: nat, i: nat)
    requires IsExecution(start, run) && n < |run| && UpdatedBy(run[n].history, i)
    ensures i in run[n].calls
    ensures run[n].calls[i].pc == Failed || (run[n].calls[i].pc.Returned? && run[n].calls[i].pc.r.Ok?)
  {
    Invariant(start, run, n);
    hide TakesTurns, StatusAfter, After;
    var m :| IsUpdateOf(run[n].history, m, i);
    assert OwnUpdate(run[n], run[n].history[m]);
  }

  // ---- conservation ----

  datatype Kind = Archivings | CoreArchivings | Unarchivings

  predicate IsKind(e: Event, kind: Kind) {
    match kind
    case Archivings => e.ByCall? && e.op.Archive?
    case CoreArchivings => e.ByCore?
    case Unarchivings => e.ByCall? && e.op.Unarchive?
  }

  function Tally(history: seq<Event>, id: string, kind: Kind): nat {
    if history == [] then 0
    else
      var e := history[|history| - 1];
      Tally(history[..|history| - 1], id, kind) + if e.id == id && IsKind(e, kind) then 1 else 0
  }

  function Bit(status: string): nat {
    if status == "archived" then 1 else 0
  }

  lemma {:induction false} TallyBalance(start: Table, history: seq<Event>, id: string)
    requires TakesTurns(start, history, id)
    ensures Tally(history, id, Archivings) + Tally(history, id, CoreArchivings) - Tally(history, id, Unarchivings)
            == Bit(StatusAfter(start, history, id)) - Bit(StatusAfter(start, [], id))
  {
    if history != [] {
      var sooner := history[..|history| - 1];
      EarlierTurns(start, history, id);
      TallyBalance(start, sooner, id);
    }
  }

  lemma EarlierTurns(start: Table, history: seq<Event>, id: string)
    requires TakesTurns(start, history, id) && history != []
    ensures var n := |history| - 1;
            && TakesTurns(start, history[..n], id)
            && (history[n].id == id ==> StatusAfter(start, history[..n], id) == Before(history[n]))
  {
    hide Before, StatusAfter;
    var sooner := history[..|history| - 1];
    forall n | 0 <= n < |sooner| && sooner[n].id == id
      ensures StatusAfter(start, sooner[..n], id) == Before(sooner[n])
    {
      assert sooner[..n] == history[..n];
    }
  }

  /** Archivings, the core's among them, less unarchivings are what the room's status has gained since the start. */
  lemma ArchivingBalances(start: Table, run: seq<State>, n: nat, id: string)
    requires IsExecution(start, run) && n < |run| && id in run[n].rooms
    ensures var history := run[n].history;
            Tally(history, id, Archivings) + Tally(history, id, CoreArchivings) - Tally(history, id, Unarchivings)
            == Bit(run[n].rooms[id].status) - if id in start then Bit(start[id].status) else 0
  {
    Invariant(start, run, n);
    TallyBalance(start, run[n].history, id);
  }

  // ---- the repository's own updates ----

  /** The updates of calls alone, as the repository sees them. */
  function Own(history: seq<Event>): seq<Event> {
    if history == [] then []
    else Own(history[..|history| - 1])
         + if history[|history| - 1].ByCall? then [history[|history| - 1]] else []
  }

  ghost predicate CoreFree(history: seq<Event>, id: string) {
    forall n :: 0 <= n < |history| && history[n].id == id ==> history[n].ByCall?
  }

  /** If the core has archived the room, then at the very end: nobody has changed its status since. */
  ghost predicate CoreLast(history: seq<Event>, id: string) {
    forall m, n :: 0 <= m < n < |history| && history[m].id == id && history[n].id == id ==> history[m].ByCall?
  }

  lemma CoreAtEnd(start: Table, history: seq<Event>, id: string)
    requires CoreLast(history, id) && !CoreFree(history, id)
    ensures StatusAfter(start, history, id) == "archived"
  {
    var n :| 0 <= n < |history| && history[n].id == id && !history[n].ByCall?;
    LastEvent(start, history, id, n);
  }

  lemma {:induction false} LastEvent(start: Table, history: seq<Event>, id: string, n: nat)
    requires n < |history| && history[n].id == id && forall m :: n < m < |history| ==> history[m].id != id
    ensures StatusAfter(start, history, id) == After(history[n])
    decreases |history|
  {
    if n < |history| - 1 {
      LastEvent(start, history[..|history| - 1], id, n);
    }
  }

  lemma CoreLastStep(history: seq<Event>, e: Event, id: string)
    ensures CoreFree(history + [e], id) <==> CoreFree(history, id) && (e.id == id ==> e.ByCall?)
    ensures CoreLast(history + [e], id) <==> CoreLast(history, id) && (e.id == id ==> CoreFree(history, id))
  {
    var more := history + [e];
    if !CoreFree(history, id) {
      var n :| 0 <= n < |history| && history[n].id == id && !history[n].ByCall?;
      assert more[n] == history[n];
      assert more[|history|] == e;
    }
    if !CoreLast(history, id) {
      var m, n :| 0 <= m < n < |history| && history[m].id == id && history[n].id == id && !history[m].ByCall?;
      assert more[m] == history[m] && more[n] == history[n];
    }
    assert more[|history|] == e;
  }

  lemma FreeIsLast(history: seq<Event>, id: string)
    ensures CoreFree(history, id) ==> CoreLast(history, id)
  {
  }

  /**
   Where the repository's own view stands: in turn exactly while CoreLast holds, and then right unless the core was
   last.
   */
  lemma {:induction false} OwnView(start: Table, history: seq<Event>, id: string)
    requires TakesTurns(start, history, id)
    ensures TakesTurns(start, Own(history), id) <==> CoreLast(history, id)
    ensures CoreLast(history, id) ==>
              StatusAfter(start, Own(history), id)
                == if CoreFree(history, id) then StatusAfter(start, history, id) else "active"
    decreases |history|
  {
    if history != [] {
      var sooner, e := history[..|history| - 1], history[|history| - 1];
      assert history == sooner + [e];
      EarlierTurns(start, history, id);
      OwnView(start, sooner, id);
      CoreLastStep(sooner, e, id);
      if CoreLast(sooner, id) && !CoreFree(sooner, id) {
        CoreAtEnd(start, sooner, id);
      }
      FreeIsLast(sooner, id);
      FreeIsLast(history, id);
      assert StatusAfter(start, history, id) == if e.id == id then After(e) else StatusAfter(start, sooner, id);
      hide TakesTurns, CoreLast, CoreFree, StatusAfter;
      if e.ByCall? {
        OwnStep(start, Own(sooner), e, id);
        assert Own(history) == Own(sooner) + [e];
      } else {
        assert Own(history) == Own(sooner);
      }
    }
  }

  lemma OwnStep(start: Table, history: seq<Event>, e: Event, id: string)
    ensures TakesTurns(start, history + [e], id)
            <==> TakesTurns(start, history, id) && (e.id == id ==> StatusAfter(start, history, id) == Before(e))
    ensures StatusAfter(start, history + [e], id) == if id == e.id then After(e) else StatusAfter(start, history, id)
  {
    var more := history + [e];
    assert more[..|more| - 1] == history && more[|more| - 1] == e;
    if TakesTurns(start, more, id) {
      EarlierTurns(start, more, id);
    }
    if TakesTurns(start, history, id) && (e.id == id ==> StatusAfter(start, history, id) == Before(e)) {
      OneMoreTurn(start, history, e, id);
    }
  }

  /**
   The repository's own archivings and unarchivings of a room take turns if and only if no archiving by the core has
   been followed by another change of the room's status. They also tell the room's status if and only if the core has
   never archived the room.
   */
  lemma OwnUpdatesTakeTurns(start: Table, run: seq<State>, n: nat, id: string)
    requires IsExecution(start, run) && n < |run| && id in run[n].rooms
    ensures var s := run[n];
            && (TakesTurns(start, Own(s.history), id) <==> CoreLast(s.history, id))
            && (TakesTurns(start, Own(s.history), id) && s.rooms[id].status == StatusAfter(start, Own(s.history), id)
                <==> CoreFree(s.history, id))
  {
    Invariant(start, run, n);
    var history := run[n].history;
    OwnView(start, history, id);
    if CoreFree(history, id) {
      assert CoreLast(history, id);
    } else if CoreLast(history, id) {
      CoreAtEnd(start, history, id);
    }
  }

  // ---- a run in which they do not ----

  function Active(r: Room): Room {
    r.(status := "active")
  }

  function Archived(r: Room, now: int, reason: string): Room {
    r.(status := "archived", archivedAt := Some(now), archiveReason := Some(reason))
  }

  function Unarchived(r: Room): Room {
    r.(status := "active", archivedAt := None)
  }

  /**
   Call 0 archives, call 1 unarchives, then the core archives as call 0 had asked it to, and call 2 unarchives again.
   */
  ghost function LateCore(id: string, r: Room, reason: string, now: int): seq<State> {
    var archived := Archived(Active(r), now, reason);
    var back := Unarchived(archived);
    var byCore := back.(status := "archived");
    var e0, e1, e2, e3 := ByCall(id, Archive(reason), 0), ByCall(id, Unarchive, 1), ByCore(id),
      ByCall(id, Unarchive, 2);
    var c0, c1, c2 := Call(id, Archive(reason), Updating), Call(id, Unarchive, Updating), Call(id, Unarchive, Updating);
    var d0, d1, d2 := c0.(pc := Returned(Ok(After(e0)))), c1.(pc := Returned(Ok(After(e1)))),
      c2.(pc := Returned(Ok(After(e3))));
    [State(map[id := Active(r)], map[], []),
     State(map[id := Active(r)], map[0 := c0], []),
     State(map[id := archived], map[0 := d0], [e0]),
     State(map[id := archived], map[0 := d0, 1 := c1], [e0]),
     State(map[id := back], map[0 := d0, 1 := d1], [e0, e1]),
     State(map[id := byCore], map[0 := d0, 1 := d1], [e0, e1, e2]),
     State(map[id := byCore], map[0 := d0, 1 := d1, 2 := c2], [e0, e1, e2]),
     State(map[id := Unarchived(byCore)], map[0 := d0, 1 := d1, 2 := d2], [e0, e1, e2, e3])]
  }

  lemma OneRowUpdates(id: string, r: Room, reason: string, now: int)
    ensures r.status == "active" ==>
              Updated(map[id := r], Call(id, Archive(reason), Updating), now)
                == Some(map[id := Archived(r, now, reason)])
    ensures r.status == "archived" ==>
              Updated(map[id := r], Call(id, Unarchive, Updating), now) == Some(map[id := Unarchived(r)])
  {
    assert forall x: Room :: map[id := r][id := x] == map[id := x];
  }

  lemma OneRowCore(s: State, t: State, id: string, r: Room)
    requires s.rooms == map[id := r] && r.status == "active" && t.calls == s.calls
    requires t.rooms == map[id := r.(status := "archived")] && t.history == s.history + [ByCore(id)]
    ensures Next(s, t)
  {
    assert CoreStep(s, t, id);
  }

  lemma SpawnStep(s: State, t: State, i: nat, id: string, op: Operation)
    requires i !in s.calls && t == s.(calls := s.calls[i := Call(id, op, Updating)])
    ensures Next(s, t)
  {
    assert CallStep(s, t, i);
  }

  lemma OwnUpdateStep(s: State, t: State, i: nat, now: int)
    requires i in s.calls && s.calls[i].pc == Updating && Updated(s.rooms, s.calls[i], now) == Some(t.rooms)
    requires t.calls == s.calls[i := s.calls[i].(pc := Returned(Ok(After(ByCall(s.calls[i].id, s.calls[i].op, i)))))]
    requires t.history == s.history + [ByCall(s.calls[i].id, s.calls[i].op, i)]
    ensures Next(s, t)
  {
    assert UpdateStep(s, t, i, now);
    assert CallStep(s, t, i);
  }

  lemma LateCoreRuns(id: string, r: Room, reason: string, now: int)
    ensures IsExecution(map[id := Active(r)], LateCore(id, r, reason, now))
  {
    var run := LateCore(id, r, reason, now);
    var archived := Archived(Active(r), now, reason);
    OneRowUpdates(id, Active(r), reason, now);
    OneRowUpdates(id, archived, reason, now);
    OneRowUpdates(id, Unarchived(archived).(status := "archived"), reason, now);
    hide Updated, After, Next;
    SpawnStep(run[0], run[1], 0, id, Archive(reason));
    OwnUpdateStep(run[1], run[2], 0, now);
    SpawnStep(run[2], run[3], 1, id, Unarchive);
    OwnUpdateStep(run[3], run[4], 1, now);
    OneRowCore(run[4], run[5], id, Unarchived(archived));
    SpawnStep(run[5], run[6], 2, id, Unarchive);
    OwnUpdateStep(run[6], run[7], 2, now);
  }

  /** The run above is one, its last two successful calls both unarchive, and its own updates are out of turn. */
  lemma CoreArchivesLate(id: string, r: Room, reason: string, now: int)
    ensures var run := LateCore(id, r, reason, now);
            && IsExecution(map[id := Active(r)], run)
            && run[7].calls[1] == run[7].calls[2] == Call(id, Unarchive, Returned(Ok("active")))
            && Own(run[7].history) == [ByCall(id, Archive(reason), 0), ByCall(id, Unarchive, 1),
                                       ByCall(id, Unarchive, 2)]
            && !TakesTurns(map[id := Active(r)], Own(run[7].history), id)
  {
    var run := LateCore(id, r, reason, now);
    var h := run[7].history;
    LateCoreRuns(id, r, reason, now);
    hide IsExecution, TakesTurns;
    assert h[2] == ByCore(id) && h[3].id == id && !CoreLast(h, id);
    OwnUpdatesTakeTurns(map[id := Active(r)], run, 7, id);
    OwnOfFour(h[0], h[1], h[2], h[3]);
  }

  lemma OwnOfFour(a: Event, b: Event, c: Event, d: Event)
    requires a.ByCall? && b.ByCall? && c.ByCore? && d.ByCall?
    ensures Own([a, b, c, d]) == [a, b, d]
  {
    var h := [a, b, c, d];
    assert h[..3] == [a, b, c] && [a, b, c][..2] == [a, b] && [a, b][..1] == [a] && [a][..0] == [];
    assert Own([a]) == [a] && Own([a, b]) == [a, b] && Own([a, b, c]) == [a, b];
  }
}
