/**
 claimLoader.get of gateway/cmd/gateway/main.go: a claim name cached for sixty seconds that keeps its old value when the
 load fails. The mutex is held throughout, so calls follow one another. Times are milliseconds.
 */
module ClaimLoader {
  import opened Outcomes

  const TTL := 60000

  /** One call: when it looks at the clock, what loading would give, and when that load would be over. */
  datatype Call = Call(now: int, answer: Result<string, string>, after: int)

  class Loader {
    var value: string
    // None is the zero time
    var loadedAt: Option<int>

    constructor ()
      ensures State() == Fields("", None)
    {
      value := "";
      loadedAt := None;
    }

    function State(): Fields
      reads this
    {
      Fields(value, loadedAt)
    }

    method Get(call: Call) returns (r: string)
      modifies this
      ensures State() == After(old(State()), call) && r == value
      ensures var loads := old(loadedAt).None? || call.now >= old(loadedAt).value + 60000;
              if loads && call.answer.Ok? then value == call.answer.value && loadedAt == Some(call.after)
              else value == old(value) && loadedAt == old(loadedAt)
    {
      if loadedAt.Some? && call.now - loadedAt.value < TTL {
        return value;
      }
      match call.answer {
        case Err(_) =>
          return value;
        case Ok(v) =>
          value := v;
          loadedAt := Some(call.after);
          return value;
      }
    }
  }

  datatype Fields = Fields(value: string, loadedAt: Option<int>)

  predicate Stale(s: Fields, now: int) {
    s.loadedAt.None? || now - s.loadedAt.value >= TTL
  }

  function After(s: Fields, call: Call): Fields {
    if Stale(s, call.now) && call.answer.Ok? then Fields(call.answer.value, Some(call.after)) else s
  }

  function StateAt(calls: seq<Call>, n: nat): Fields
    requires n <= |calls|
  {
    if n == 0 then Fields("", None) else After(StateAt(calls, n - 1), calls[n - 1])
  }

  /** What call i returns. */
  function Returned(calls: seq<Call>, i: nat): string
    requires i < |calls|
  {
    StateAt(calls, i + 1).value
  }

  /** Call i reaches loadFn. */
  predicate Loads(calls: seq<Call>, i: nat)
    requires i < |calls|
  {
    Stale(StateAt(calls, i), calls[i].now)
  }

  predicate LoadsWell(calls: seq<Call>, i: nat)
    requires i < |calls|
  {
    Loads(calls, i) && calls[i].answer.Ok?
  }

  /** The mutex puts the calls one after another on a clock that never runs back. */
  ghost predicate Ordered(calls: seq<Call>) {
    && (forall i :: 0 <= i < |calls| ==> calls[i].now <= calls[i].after)
    && (forall i, j :: 0 <= i < j < |calls| ==> calls[i].after <= calls[j].now)
  }

  /** The most recent successful load among the first n calls. */
  function LastLoad(calls: seq<Call>, n: nat): (r: Option<nat>)
    requires n <= |calls|
    ensures match r
            case Some(j) => j < n && LoadsWell(calls, j) && forall k :: j < k < n ==> !LoadsWell(calls, k)
            case None => forall k :: 0 <= k < n ==> !LoadsWell(calls, k)
  {
    if n == 0 then None
    else if LoadsWell(calls, n - 1) then Some(n - 1)
    else LastLoad(calls, n - 1)
  }

  /** The fields are those of the most recent successful load, if there was one. */
  lemma {:induction false} FieldsAre(calls: seq<Call>, n: nat)
    requires n <= |calls|
    ensures StateAt(calls, n) == match LastLoad(calls, n)
                                 case Some(j) => Fields(calls[j].answer.value, Some(calls[j].after))
                                 case None => Fields("", None)
  {
    if n > 0 {
      FieldsAre(calls, n - 1);
    }
  }

  /** Every call returns the result of the most recent successful load, its own included, or the empty string. */
  lemma ReturnsMostRecent(calls: seq<Call>, i: nat)
    requires i < |calls|
    ensures Returned(calls, i) == match LastLoad(calls, i + 1)
                                  case Some(j) => calls[j].answer.value
                                  case None => ""
  {
    FieldsAre(calls, i + 1);
  }

  /**
   A call loads exactly if no load succeeded less than sixty seconds before it: within that time nothing is loaded
   again, and after it every call tries, however often loading fails.
   */
  lemma LoadsExactly(calls: seq<Call>, i: nat)
    requires Ordered(calls) && i < |calls|
    ensures Loads(calls, i)
            <==> forall j :: 0 <= j < i && LoadsWell(calls, j) ==> calls[i].now - calls[j].after >= 60000
  {
    FieldsAre(calls, i);
    hide StateAt;
    var last := LastLoad(calls, i);
    if last.Some? {
      forall j | 0 <= j < i && LoadsWell(calls, j) ensures calls[j].after <= calls[last.value].after {
        assert j <= last.value;
      }
    }
  }

  /** Call i returns a value whose load ended less than sixty seconds before the call, or ran in the call itself. */
  ghost predicate Recent(calls: seq<Call>, i: nat)
    requires i < |calls|
  {
    var last := LastLoad(calls, i + 1);
    last.Some? && (last.value == i || calls[i].now - calls[last.value].after < 60000)
  }

  /** A call returns a recent value exactly unless it had to load and the load failed. */
  lemma RecentUnlessLoadFails(calls: seq<Call>, i: nat)
    requires Ordered(calls) && i < |calls|
    ensures Recent(calls, i) <==> !(Loads(calls, i) && calls[i].answer.Err?)
  {
    LoadsExactly(calls, i);
    hide StateAt, Loads;
    var last := LastLoad(calls, i + 1);
    if !Loads(calls, i) {
      var j :| 0 <= j < i && LoadsWell(calls, j) && calls[i].now - calls[j].after < TTL;
      assert j <= last.value < i;
    }
  }
}
