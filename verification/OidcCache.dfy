/**
 oidcProviderCache.load of gateway/internal/admin/oidc_cache.go: a positive and negative TTL cache that gives up its
 mutex while the provider is fetched, so any number of loads overlap. Times are milliseconds.
 */
module OidcCache {
  import opened Outcomes
  import opened Runs

  const TTL := 600000
  const NEGATIVE_TTL := 30000

  /** A handle of a constructed provider. */
  type Provider = nat

  type FetchResult = Result<Provider, string>

  /** A cached provider or a cached error, dated by the moment its fetch began. */
  datatype Entry = Entry(result: FetchResult, cachedAt: int)

  function Lifetime(result: FetchResult): int {
    if result.Err? then NEGATIVE_TTL else TTL
  }

  predicate Fresh(e: Entry, now: int) {
    now - e.cachedAt < Lifetime(e.result)
  }

  class ProviderCache {
    var entries: map<string, Entry>

    constructor ()
      ensures entries == map[]
    {
      entries := map[];
    }

    /** First critical section: a fresh entry is the answer, a stale one is dropped. */
    method LookUp(issuer: string, now: int) returns (hit: Option<FetchResult>)
      modifies this
      ensures hit == if issuer in old(entries) && Fresh(old(entries)[issuer], now)
                     then Some(old(entries)[issuer].result) else None
      ensures hit.Some? <==>
              && issuer in old(entries)
              && now < old(entries)[issuer].cachedAt + if old(entries)[issuer].result.Ok? then 600000 else 30000
      ensures entries == if hit.Some? then old(entries) else old(entries) - {issuer}
    {
      if issuer in entries {
        var entry := entries[issuer];
        if entry.result.Err? {
          if now - entry.cachedAt < NEGATIVE_TTL {
            return Some(entry.result);
          }
          entries := entries - {issuer};
        } else {
          if now - entry.cachedAt < TTL {
            return Some(entry.result);
          }
          entries := entries - {issuer};
        }
      }
      return None;
    }

    /** Second critical section: the last writer wins. */
    method Store(issuer: string, result: FetchResult, begunAt: int)
      modifies this
      ensures entries == old(entries)[issuer := Entry(result, begunAt)]
    {
      entries := entries[issuer := Entry(result, begunAt)];
    }

    /**
     One undisturbed load; `fetched` is what construction would give. A fresh entry, good or bad, is not fetched
     again.
     */
    method Load(issuer: string, now: int, fetched: FetchResult) returns (r: FetchResult)
      modifies this
      ensures var valid := && issuer in old(entries)
                           && now < old(entries)[issuer].cachedAt
                                    + if old(entries)[issuer].result.Ok? then 600000 else 30000;
              if valid then r == old(entries)[issuer].result && entries == old(entries)
              else r == fetched && entries == old(entries)[issuer := Entry(fetched, now)]
    {
      var hit := LookUp(issuer, now);
      if hit.Some? {
        return hit.value;
      }
      Store(issuer, fetched, now);
      return fetched;
    }
  }

  // ---- overlapping loads ----

  datatype Pc =
    | Called
    | Fetching(begunAt: int)
    | Returned(result: FetchResult, at: int, cached: bool)

  datatype Load = Load(issuer: string, pc: Pc)

  /** A finished fetch: for whom, when it began and what it gave. */
  datatype Fetch = Fetch(issuer: string, begunAt: int, result: FetchResult)

  /** `fetches` remembers every finished fetch. */
  datatype State = State(now: int, entries: map<string, Entry>, loads: map<nat, Load>, fetches: set<Fetch>)

  ghost predicate LoadStep(s: State, t: State, i: nat) {
    if i !in s.loads then
      exists issuer :: t == s.(loads := s.loads[i := Load(issuer, Called)])
    else
      var issuer := s.loads[i].issuer;
      match s.loads[i].pc
      case Called =>
        if issuer in s.entries && Fresh(s.entries[issuer], s.now) then
          t == s.(loads := s.loads[i := Load(issuer, Returned(s.entries[issuer].result, s.now, true))])
        else
          t == s.(entries := s.entries - {issuer}, loads := s.loads[i := Load(issuer, Fetching(s.now))])
      case Fetching(begunAt) =>
        exists result ::
          t == s.(entries := s.entries[issuer := Entry(result, begunAt)],
                  loads := s.loads[i := Load(issuer, Returned(result, s.now, false))],
                  fetches := s.fetches + {Fetch(issuer, begunAt, result)})
      case Returned(_, _, _) => false
  }

  ghost predicate Next(s: State, t: State) {
    || (s.now <= t.now && t == s.(now := t.now))
    || exists i :: LoadStep(s, t, i)
  }

  ghost predicate Init(s: State) {
    s.entries == map[] && s.loads == map[] && s.fetches == {}
  }

  ghost predicate IsExecution(run: seq<State>) {
    IsRun(Init, Next, run)
  }

  /**
   A result served from the cache at `at` comes from a fetch for this issuer that began within its lifetime before.
   */
  ghost predicate FreshFetch(s: State, issuer: string, result: FetchResult, at: int) {
    exists begunAt :: Fetch(issuer, begunAt, result) in s.fetches && begunAt <= at < begunAt + Lifetime(result)
  }

  ghost predicate EntrySound(s: State, issuer: string)
    requires issuer in s.entries
  {
    var e := s.entries[issuer];
    Fetch(issuer, e.cachedAt, e.result) in s.fetches && e.cachedAt <= s.now
  }

  ghost predicate LoadSound(s: State, l: Load) {
    match l.pc
    case Called => true
    case Fetching(begunAt) => begunAt <= s.now
    case Returned(result, at, cached) =>
      && at <= s.now
      && (cached ==> FreshFetch(s, l.issuer, result, at))
      && (!cached ==> exists begunAt :: begunAt <= at && Fetch(l.issuer, begunAt, result) in s.fetches)
  }

  ghost predicate Inv(s: State) {
    && (forall issuer :: issuer in s.entries ==> EntrySound(s, issuer))
    && (forall i :: i in s.loads ==> LoadSound(s, s.loads[i]))
  }

  lemma LaterStillSound(s: State, t: State, l: Load)
    requires LoadSound(s, l) && s.now <= t.now && s.fetches <= t.fetches
    ensures LoadSound(t, l)
  {
    if l.pc.Returned? && l.pc.cached {
      var begunAt :| Fetch(l.issuer, begunAt, l.pc.result) in s.fetches
        && begunAt <= l.pc.at < begunAt + Lifetime(l.pc.result);
      assert Fetch(l.issuer, begunAt, l.pc.result) in t.fetches;
    }
    if l.pc.Returned? && !l.pc.cached {
      var begunAt :| begunAt <= l.pc.at && Fetch(l.issuer, begunAt, l.pc.result) in s.fetches;
      assert Fetch(l.issuer, begunAt, l.pc.result) in t.fetches;
    }
  }

  lemma StepKeeps(s: State, t: State)
    requires Inv(s) && Next(s, t)
    ensures Inv(t)
  {
    forall issuer | issuer in t.entries ensures EntrySound(t, issuer) {
      assert issuer in s.entries ==> EntrySound(s, issuer);
      if exists i :: LoadStep(s, t, i) {
        var i :| LoadStep(s, t, i);
        assert i in s.loads ==> LoadSound(s, s.loads[i]);
      }
    }
    forall j | j in t.loads ensures LoadSound(t, t.loads[j]) {
      if j in s.loads && t.loads[j] == s.loads[j] {
        LaterStillSound(s, t, s.loads[j]);
      } else {
        var i :| LoadStep(s, t, i);
        OwnSound(s, t, i);
      }
    }
  }

  lemma OwnSound(s: State, t: State, i: nat)
    requires Inv(s) && LoadStep(s, t, i)
    ensures i in t.loads && LoadSound(t, t.loads[i])
  {
    var l := t.loads[i];
    if i in s.loads {
      assert LoadSound(s, s.loads[i]);
      if l.pc.Returned? && l.pc.cached {
        assert EntrySound(s, l.issuer);
        assert Fetch(l.issuer, s.entries[l.issuer].cachedAt, l.pc.result) in t.fetches;
      } else if l.pc.Returned? {
        assert Fetch(l.issuer, s.loads[i].pc.begunAt, l.pc.result) in t.fetches;
      }
    }
  }

  lemma Invariant(run: seq<State>, i: nat)
    requires IsExecution(run) && i < |run|
    ensures Inv(run[i])
  {
    forall s: State, t: State | Inv(s) && Next(s, t) ensures Inv(t) {
      StepKeeps(s, t);
    }
    Always(Init, Next, Inv, run, i);
  }

  /** Whatever a load returns for an issuer came from a fetch for that very issuer that had begun by then. */
  lemma BuiltForIssuer(run: seq<State>, i: nat, l: nat)
    requires IsExecution(run) && i < |run| && l in run[i].loads && run[i].loads[l].pc.Returned?
    ensures var pc := run[i].loads[l].pc;
            exists begunAt :: begunAt <= pc.at && Fetch(run[i].loads[l].issuer, begunAt, pc.result) in run[i].fetches
  {
    Invariant(run, i);
    assert LoadSound(run[i], run[i].loads[l]);
    var load := run[i].loads[l];
    if load.pc.cached {
      var begunAt :| Fetch(load.issuer, begunAt, load.pc.result) in run[i].fetches && begunAt <= load.pc.at;
    }
  }

  /**
   A provider served from the cache comes from a fetch begun less than ten minutes before, and an error from one begun
   less than thirty seconds before, in every overlap of loads: a slow fetch that overwrites a newer entry carries its
   own, older, date.
   */
  lemma BoundedStaleness(run: seq<State>, i: nat, l: nat)
    requires IsExecution(run) && i < |run| && l in run[i].loads
    requires run[i].loads[l].pc.Returned? && run[i].loads[l].pc.cached
    ensures var load := run[i].loads[l];
            exists begunAt ::
              && Fetch(load.issuer, begunAt, load.pc.result) in run[i].fetches
              && begunAt <= load.pc.at < begunAt + if load.pc.result.Ok? then 600000 else 30000
  {
    Invariant(run, i);
    var load := run[i].loads[l];
    assert LoadSound(run[i], load);
    var begunAt :| Fetch(load.issuer, begunAt, load.pc.result) in run[i].fetches
                   && begunAt <= load.pc.at < begunAt + Lifetime(load.pc.result);
  }
}
