/**
 RequireRole of gateway/internal/api/middleware.go: the decision at a role gate, with a per-gate cache of role override
 lookups that expire after sixty seconds. Times are milliseconds.
 */
module RoleGate {
  import opened Runs

  const TTL := 60000

  datatype Decision = Allowed | Unauthorized | Forbidden | Unavailable

  /** What the database says of a user's override: yes, no, or an error. */
  datatype Lookup = Found(hasRole: bool) | LookupError

  /** The role a gate asks for, and whether it has an override checker. */
  datatype Gate = Gate(role: string, hasChecker: bool)

  predicate NeedsOverride(g: Gate, systemRole: string, userId: string) {
    systemRole != g.role && g.hasChecker && userId != ""
  }

  /** The decision without any cache, given what the database answers. */
  function Uncached(g: Gate, systemRole: string, userId: string, answer: Lookup): Decision {
    if systemRole == g.role then Allowed
    else if g.hasChecker && userId != "" then
      (match answer
       case LookupError => Unavailable
       case Found(hasRole) => if hasRole then Allowed else Forbidden)
    else if systemRole == "" then Unauthorized
    else Forbidden
  }

  /** Who is let in, and which refusal everyone else gets. */
  lemma UncachedExactly(g: Gate, systemRole: string, userId: string, answer: Lookup)
    ensures var d, asks := Uncached(g, systemRole, userId, answer), g.hasChecker && userId != "";
            && (d == Allowed <==> systemRole == g.role || (asks && answer == Found(true)))
            && (d == Unavailable <==> systemRole != g.role && asks && answer == LookupError)
            && (d == Unauthorized <==> systemRole == "" && g.role != "" && !asks)
            && (d == Forbidden <==>
                  systemRole != g.role && if asks then answer == Found(false) else systemRole != "")
  {
  }

  function CacheKey(g: Gate, userId: string): string {
    userId + ":" + g.role
  }

  /** Two users of one gate never share a cache entry. */
  lemma CacheKeyInjective(g: Gate, a: string, b: string)
    requires CacheKey(g, a) == CacheKey(g, b)
    ensures a == b
  {
    var x, y := CacheKey(g, a), CacheKey(g, b);
    assert |a| == |x| - |g.role| - 1;
    assert a == x[..|a|] && b == y[..|b|];
  }

  datatype CacheEntry = CacheEntry(hasRole: bool, expiresAt: int)

  class RequireRole {
    const gate: Gate
    var cache: map<string, CacheEntry>

    constructor (gate: Gate)
      ensures this.gate == gate && cache == map[]
    {
      this.gate := gate;
      cache := map[];
    }

    /** checkFn, undisturbed: a live entry answers; otherwise the database does, and only its answers are kept. */
    method CheckOverride(userId: string, now: int, answer: Lookup, storedAt: int) returns (r: Lookup)
      modifies this
      ensures var key := userId + ":" + gate.role;
              if key in old(cache) && now < old(cache)[key].expiresAt then
                r == Found(old(cache)[key].hasRole) && cache == old(cache)
              else
                && r == answer
                && cache == if answer.LookupError? then old(cache) - {key}
                            else old(cache)[key := CacheEntry(answer.hasRole, storedAt + 60000)]
    {
      var key := CacheKey(gate, userId);
      if key in cache {
        if now < cache[key].expiresAt {
          return Found(cache[key].hasRole);
        }
        cache := cache - {key};
      }
      if answer.LookupError? {
        return LookupError;
      }
      cache := cache[key := CacheEntry(answer.hasRole, storedAt + TTL)];
      return answer;
    }

    /**
     The gate decides on the role alone where that is enough, and otherwise on a live entry of the same user or else on
     the database's answer.
     */
    method Handle(systemRole: string, userId: string, now: int, answer: Lookup, storedAt: int) returns (d: Decision)
      modifies this
      ensures var key, asks := userId + ":" + gate.role, gate.hasChecker && userId != "";
              var live := key in old(cache) && now < old(cache)[key].expiresAt;
              var used := if live then Found(old(cache)[key].hasRole) else answer;
              && d == Uncached(gate, systemRole, userId, used)
              && (d == Allowed <==> systemRole == gate.role || (asks && used == Found(true)))
              && (d == Unavailable <==> systemRole != gate.role && asks && used == LookupError)
              && (d == Unauthorized <==> systemRole == "" && gate.role != "" && !asks)
              && (d == Forbidden <==>
                    systemRole != gate.role && if asks then used == Found(false) else systemRole != "")
              && cache == if systemRole == gate.role || !asks || live then old(cache)
                          else if answer.LookupError? then old(cache) - {key}
                          else old(cache)[key := CacheEntry(answer.hasRole, storedAt + 60000)]
    {
      if systemRole == gate.role {
        return Allowed;
      }
      if gate.hasChecker {
        if userId != "" {
          var checked := CheckOverride(userId, now, answer, storedAt);
          if checked.LookupError? {
            return Unavailable;
          }
          if checked.hasRole {
            return Allowed;
          }
          return Forbidden;
        }
      }
      if systemRole == "" {
        return Unauthorized;
      }
      return Forbidden;
    }
  }

  // ---- concurrent requests: each cache operation and each lookup is a step of its own ----

  /** Where the answer came from. */
  datatype Grounds =
    | NoOverride
    | FromDatabase(answer: Lookup)
    | FromCache(hasRole: bool, at: int)

  datatype Pc =
    | Arrived
    | EntryLoaded(entry: CacheEntry)
    | LookingUp
    | LookedUp(hasRole: bool, at: int)
    | Decided(decision: Decision, grounds: Grounds)

  datatype Request = Request(systemRole: string, userId: string, pc: Pc)

  /** A successful lookup whose answer was stored. */
  datatype Answer = Answer(userId: string, hasRole: bool, storedAt: int)

  /** `answers` remembers every stored answer. */
  datatype State = State(now: int, cache: map<string, CacheEntry>, requests: map<nat, Request>, answers: set<Answer>)

  function MoveTo(s: State, i: nat, pc: Pc): State
    requires i in s.requests
  {
    s.(requests := s.requests[i := s.requests[i].(pc := pc)])
  }

  function Decide(g: Gate, r: Request, answer: Lookup, grounds: Grounds): Pc {
    Decided(Uncached(g, r.systemRole, r.userId, answer), grounds)
  }

  /**
   The answer is stored under the time of a clock reading taken in between; whatever entry stands there is replaced.
   */
  ghost predicate StoreStep(g: Gate, s: State, t: State, i: nat, hasRole: bool, clock: int)
    requires i in s.requests
  {
    var r := s.requests[i];
    var decided := MoveTo(s, i, Decide(g, r, Found(hasRole), FromDatabase(Found(hasRole))));
    && clock <= s.now
    && t == decided.(cache := s.cache[CacheKey(g, r.userId) := CacheEntry(hasRole, clock + TTL)],
                     answers := s.answers + {Answer(r.userId, hasRole, s.now)})
  }

  ghost predicate RequestStep(g: Gate, s: State, t: State, i: nat) {
    if i !in s.requests then
      exists systemRole, userId :: t == s.(requests := s.requests[i := Request(systemRole, userId, Arrived)])
    else
      var r := s.requests[i];
      var key := CacheKey(g, r.userId);
      match r.pc
      case Arrived =>
        if !NeedsOverride(g, r.systemRole, r.userId) then t == MoveTo(s, i, Decide(g, r, LookupError, NoOverride))
        else t == MoveTo(s, i, if key in s.cache then EntryLoaded(s.cache[key]) else LookingUp)
      case EntryLoaded(entry) =>
        if s.now < entry.expiresAt then
          t == MoveTo(s, i, Decide(g, r, Found(entry.hasRole), FromCache(entry.hasRole, s.now)))
        else
          // whatever stands there by now is evicted
          t == MoveTo(s, i, LookingUp).(cache := s.cache - {key})
      case LookingUp =>
        (|| t == MoveTo(s, i, Decide(g, r, LookupError, FromDatabase(LookupError)))
         || exists hasRole :: t == MoveTo(s, i, LookedUp(hasRole, s.now)))
      case LookedUp(hasRole, at) => (exists clock :: at <= clock && StoreStep(g, s, t, i, hasRole, clock))
      case Decided(_, _) => false
  }

  ghost predicate Next(g: Gate, s: State, t: State) {
    || (s.now <= t.now && t == s.(now := t.now))
    || exists i :: RequestStep(g, s, t, i)
  }

  ghost predicate Init(s: State) {
    s.cache == map[] && s.requests == map[] && s.answers == {}
  }

  ghost function Steps(g: Gate): (State, State) -> bool {
    (s, t) => Next(g, s, t)
  }

  ghost predicate IsExecution(g: Gate, run: seq<State>) {
    IsRun(Init, Steps(g), run)
  }

  /** The entry is a stored answer for this user, and runs out no later than sixty seconds after the store. */
  ghost predicate Backed(s: State, userId: string, e: CacheEntry) {
    exists storedAt :: Answer(userId, e.hasRole, storedAt) in s.answers && storedAt <= s.now
      && e.expiresAt <= storedAt + TTL
  }

  /** Stored less than sixty seconds before use. */
  ghost predicate RecentlyStored(s: State, userId: string, hasRole: bool, at: int) {
    exists storedAt :: Answer(userId, hasRole, storedAt) in s.answers && storedAt <= at < storedAt + TTL
  }

  ghost predicate RequestSound(g: Gate, s: State, r: Request) {
    match r.pc
    case Arrived => true
    case EntryLoaded(entry) => NeedsOverride(g, r.systemRole, r.userId) && Backed(s, r.userId, entry)
    case LookingUp => NeedsOverride(g, r.systemRole, r.userId)
    case LookedUp(_, at) => NeedsOverride(g, r.systemRole, r.userId) && at <= s.now
    case Decided(decision, grounds) =>
      match grounds
      case NoOverride =>
        !NeedsOverride(g, r.systemRole, r.userId)
          && forall answer :: decision == Uncached(g, r.systemRole, r.userId, answer)
      case FromDatabase(answer) =>
        NeedsOverride(g, r.systemRole, r.userId) && decision == Uncached(g, r.systemRole, r.userId, answer)
      case FromCache(hasRole, at) =>
        && NeedsOverride(g, r.systemRole, r.userId)
        && decision == Uncached(g, r.systemRole, r.userId, Found(hasRole)) && RecentlyStored(s, r.userId, hasRole, at)
  }

  ghost predicate Inv(g: Gate, s: State) {
    && (forall key :: key in s.cache ==> exists userId :: key == CacheKey(g, userId) && Backed(s, userId, s.cache[key]))
    && (forall i :: i in s.requests ==> RequestSound(g, s, s.requests[i]))
  }

  ghost function Invs(g: Gate): State -> bool {
    s => Inv(g, s)
  }

  lemma BackedLater(s: State, t: State, userId: string, e: CacheEntry)
    requires Backed(s, userId, e) && s.now <= t.now && s.answers <= t.answers
    ensures Backed(t, userId, e)
  {
    var storedAt :| Answer(userId, e.hasRole, storedAt) in s.answers && storedAt <= s.now
      && e.expiresAt <= storedAt + TTL;
    assert Answer(userId, e.hasRole, storedAt) in t.answers;
  }

  lemma SoundLater(g: Gate, s: State, t: State, r: Request)
    requires RequestSound(g, s, r) && s.now <= t.now && s.answers <= t.answers
    ensures RequestSound(g, t, r)
  {
    if r.pc.EntryLoaded? {
      BackedLater(s, t, r.userId, r.pc.entry);
    } else if r.pc.Decided? && r.pc.grounds.FromCache? {
      var at, hasRole := r.pc.grounds.at, r.pc.grounds.hasRole;
      var storedAt :| Answer(r.userId, hasRole, storedAt) in s.answers && storedAt <= at < storedAt + TTL;
      assert Answer(r.userId, hasRole, storedAt) in t.answers;
    }
  }

  lemma OwnSound(g: Gate, s: State, t: State, i: nat)
    requires Inv(g, s) && RequestStep(g, s, t, i)
    ensures i in t.requests && RequestSound(g, t, t.requests[i])
  {
    if i in s.requests {
      var r := s.requests[i];
      assert RequestSound(g, s, r);
      if r.pc == Arrived && NeedsOverride(g, r.systemRole, r.userId) && CacheKey(g, r.userId) in s.cache {
        var key := CacheKey(g, r.userId);
        var userId :| key == CacheKey(g, userId) && Backed(s, userId, s.cache[key]);
        CacheKeyInjective(g, userId, r.userId);
        BackedLater(s, t, userId, s.cache[key]);
      } else if r.pc.EntryLoaded? {
        var e := r.pc.entry;
        var storedAt :| Answer(r.userId, e.hasRole, storedAt) in s.answers && storedAt <= s.now
          && e.expiresAt <= storedAt + TTL;
        assert Answer(r.userId, e.hasRole, storedAt) in t.answers;
      }
    }
  }

  lemma CacheBacked(g: Gate, s: State, t: State, i: nat, key: string)
    requires Inv(g, s) && RequestStep(g, s, t, i) && key in t.cache
    ensures exists userId :: key == CacheKey(g, userId) && Backed(t, userId, t.cache[key])
  {
    if key in s.cache && t.cache[key] == s.cache[key] {
      var userId :| key == CacheKey(g, userId) && Backed(s, userId, s.cache[key]);
      BackedLater(s, t, userId, s.cache[key]);
    } else {
      var r := s.requests[i];
      assert Answer(r.userId, t.cache[key].hasRole, s.now) in t.answers;
      assert Backed(t, r.userId, t.cache[key]);
    }
  }

  lemma StepKeeps(g: Gate, s: State, t: State)
    requires Inv(g, s) && Next(g, s, t)
    ensures Inv(g, t)
  {
    hide RequestStep, RequestSound, Backed;
    if exists i :: RequestStep(g, s, t, i) {
      var i :| RequestStep(g, s, t, i);
      StepShape(g, s, t, i);
      forall key | key in t.cache
        ensures exists userId :: key == CacheKey(g, userId) && Backed(t, userId, t.cache[key])
      {
        CacheBacked(g, s, t, i, key);
      }
      forall j | j in t.requests ensures RequestSound(g, t, t.requests[j]) {
        if j == i {
          OwnSound(g, s, t, i);
        } else {
          SoundLater(g, s, t, s.requests[j]);
        }
      }
    } else {
      forall key | key in t.cache
        ensures exists userId :: key == CacheKey(g, userId) && Backed(t, userId, t.cache[key])
      {
        var userId :| key == CacheKey(g, userId) && Backed(s, userId, s.cache[key]);
        BackedLater(s, t, userId, s.cache[key]);
      }
      forall j | j in t.requests ensures RequestSound(g, t, t.requests[j]) {
        SoundLater(g, s, t, s.requests[j]);
      }
    }
  }

  lemma StepShape(g: Gate, s: State, t: State, i: nat)
    requires RequestStep(g, s, t, i)
    ensures t.now == s.now && s.answers <= t.answers
    ensures forall j :: j in t.requests && j != i ==> j in s.requests && t.requests[j] == s.requests[j]
  {
  }

  lemma Invariant(g: Gate, run: seq<State>, i: nat)
    requires IsExecution(g, run) && i < |run|
    ensures Inv(g, run[i])
  {
    forall s: State, t: State | Inv(g, s) && Next(g, s, t) ensures Inv(g, t) {
      StepKeeps(g, s, t);
    }
    Always(Init, Steps(g), Invs(g), run, i);
  }

  /**
   The cached gate refines the uncached one with bounded staleness: every decision is the uncached decision on the
   request's own lookup, or on an answer that a successful lookup for the same user stored less than sixty seconds
   before it was used.
   */
  lemma RefinesUncached(g: Gate, run: seq<State>, i: nat, n: nat)
    requires IsExecution(g, run) && i < |run| && n in run[i].requests && run[i].requests[n].pc.Decided?
    ensures var r := run[i].requests[n];
            match r.pc.grounds
            case NoOverride => forall answer :: r.pc.decision == Uncached(g, r.systemRole, r.userId, answer)
            case FromDatabase(answer) => r.pc.decision == Uncached(g, r.systemRole, r.userId, answer)
            case FromCache(hasRole, at) =>
              && r.pc.decision == Uncached(g, r.systemRole, r.userId, Found(hasRole))
              && exists storedAt ::
                   Answer(r.userId, hasRole, storedAt) in run[i].answers && storedAt <= at < storedAt + 60000
  {
    Invariant(g, run, i);
    assert RequestSound(g, run[i], run[i].requests[n]);
  }

  /** A request is let in if and only if its role is the gate's, or the answer it was decided on grants the role. */
  lemma AllowedExactly(g: Gate, run: seq<State>, i: nat, n: nat)
    requires IsExecution(g, run) && i < |run| && n in run[i].requests && run[i].requests[n].pc.Decided?
    ensures var r := run[i].requests[n];
            && (r.pc.decision == Allowed <==>
                  || r.systemRole == g.role || r.pc.grounds == FromDatabase(Found(true))
                  || (r.pc.grounds.FromCache? && r.pc.grounds.hasRole))
            && (r.pc.decision == Unauthorized <==>
                  r.systemRole == "" && g.role != "" && !(g.hasChecker && r.userId != ""))
            && (r.pc.grounds == NoOverride <==> r.systemRole == g.role || !g.hasChecker || r.userId == "")
  {
    Invariant(g, run, i);
    var r := run[i].requests[n];
    assert RequestSound(g, run[i], r);
    assert r.pc.grounds == NoOverride ==> r.pc.decision == Uncached(g, r.systemRole, r.userId, Found(true));
  }

  /** A failed lookup is answered with 503 and nothing else is: it is never a grant, and it is never cached. */
  lemma FailuresAreUnavailable(g: Gate, run: seq<State>, i: nat, n: nat)
    requires IsExecution(g, run) && i < |run| && n in run[i].requests && run[i].requests[n].pc.Decided?
    ensures run[i].requests[n].pc.decision == Unavailable
            <==> run[i].requests[n].pc.grounds == FromDatabase(LookupError)
  {
    Invariant(g, run, i);
    var r := run[i].requests[n];
    assert RequestSound(g, run[i], r);
    assert r.pc.grounds == NoOverride ==> r.pc.decision == Uncached(g, r.systemRole, r.userId, Found(true));
  }
}
