/**
 FetchUsers of gateway/internal/admin/scim_client.go: all users of a SCIM 2.0 /Users endpoint, page by page
 (section 3.4.2.4 of RFC 7644), up to a hard cap. Strings are byte strings.
 */
module Scim {
  import opened Outcomes
  import opened Base64Url

  const PAGE_SIZE := 100
  const MAX_TOTAL_USERS := 100000
  const MAX_CLAIM_LENGTH := 512

  type Text = seq<Byte>

  datatype Email = Email(value: Text, primary: bool)

  datatype Record = Record(id: Text, userName: Text, displayName: Text, emails: seq<Email>)

  datatype User = User(sub: Text, displayName: Text, email: Text)

  datatype ListResponse = ListResponse(totalResults: int, resources: seq<Record>)

  datatype ScimError = BadEndpoint | PageFailed | TooManyUsers

  /**
   What the endpoint answers to the n-th request, asking from `startIndex`. It may answer the same question
   differently.
   */
  type Server = (nat, nat) -> Result<ListResponse, string>

  function Truncate(s: Text): (r: Text)
    ensures r == s || (|s| > 512 && r == s[..512])
    ensures |s| <= 512 || |r| == 512
  {
    if |s| <= MAX_CLAIM_LENGTH then s else s[..MAX_CLAIM_LENGTH]
  }

  /** The first primary address, else the first, else none. */
  method PrimaryEmail(r: Record) returns (email: Text)
    ensures match FirstPrimary(r.emails)
            case Some(i) => email == r.emails[i].value
            case None => email == if r.emails == [] then [] else r.emails[0].value
  {
    for i := 0 to |r.emails|
      invariant forall j :: 0 <= j < i ==> !r.emails[j].primary
    {
      if r.emails[i].primary {
        return r.emails[i].value;
      }
    }
    if |r.emails| > 0 {
      return r.emails[0].value;
    }
    return [];
  }

  function FirstPrimary(emails: seq<Email>): (r: Option<nat>)
    ensures match r
            case Some(i) => i < |emails| && emails[i].primary && forall j :: 0 <= j < i ==> !emails[j].primary
            case None => forall j :: 0 <= j < |emails| ==> !emails[j].primary
  {
    if emails == [] then None
    else if emails[0].primary then Some(0)
    else match FirstPrimary(emails[1..]) case Some(i) => Some(i + 1) case None => None
  }

  function ToUser(r: Record): User {
    User(Truncate(if r.userName != [] then r.userName else r.id),
         Truncate(r.displayName),
         Truncate(match FirstPrimary(r.emails)
                  case Some(i) => r.emails[i].value
                  case None => if r.emails == [] then [] else r.emails[0].value))
  }

  function ToUsers(records: seq<Record>): (users: seq<User>)
    ensures |users| == |records| && forall i :: 0 <= i < |users| ==> users[i] == ToUser(records[i])
  {
    seq(|records|, i requires 0 <= i < |records| => ToUser(records[i]))
  }

  /** The records of the pages from request n on, when `held` users have been taken over already. */
  function PagesFrom(server: Server, n: nat, startIndex: nat, held: nat): Result<seq<Record>, ScimError>
    requires held <= MAX_TOTAL_USERS
    decreases MAX_TOTAL_USERS - held
  {
    match server(n, startIndex)
    case Err(_) => Err(PageFailed)
    case Ok(page) =>
      var count := |page.resources|;
      if count == 0 then Ok([])
      else if page.totalResults > MAX_TOTAL_USERS || held + count > MAX_TOTAL_USERS then Err(TooManyUsers)
      else if count < PAGE_SIZE then Ok(page.resources)
      else
        match PagesFrom(server, n + 1, startIndex + count, held + count)
        case Err(e) => Err(e)
        case Ok(rest) => Ok(page.resources + rest)
  }

  function Fetched(server: Server): Result<seq<Record>, ScimError> {
    PagesFrom(server, 0, 1, 0)
  }

  /** How many requests are made from the n-th on. */
  function RequestsFrom(server: Server, n: nat, startIndex: nat, held: nat): nat
    requires held <= MAX_TOTAL_USERS
    decreases MAX_TOTAL_USERS - held
  {
    match server(n, startIndex)
    case Err(_) => 1
    case Ok(page) =>
      var count := |page.resources|;
      if count < PAGE_SIZE || page.totalResults > MAX_TOTAL_USERS || held + count > MAX_TOTAL_USERS then 1
      else 1 + RequestsFrom(server, n + 1, startIndex + count, held + count)
  }

  function Requests(server: Server): nat {
    RequestsFrom(server, 0, 1, 0)
  }

  /** What is fetched in the end when `taken` came on the way to the current request. */
  ghost predicate Onward(server: Server, taken: seq<Record>, n: nat, startIndex: nat) {
    && startIndex == |taken| + 1 && PAGE_SIZE * n <= |taken| <= MAX_TOTAL_USERS
    && Requests(server) == n + RequestsFrom(server, n, startIndex, |taken|)
    && Fetched(server) == match PagesFrom(server, n, startIndex, |taken|)
                          case Err(e) => Err(e)
                          case Ok(rest) => Ok(taken + rest)
  }

  /**
   Whatever the server answers, there are at most 1001 requests. A user's subject is the user name, or else the id; the
   e-mail address is the first primary one, or else the first.
   */
  method FetchUsers(enabled: bool, endpointValid: bool, server: Server)
    returns (r: Result<seq<User>, ScimError>, requests: nat)
    ensures requests <= 1001
    ensures !enabled ==> r == Ok([]) && requests == 0
    ensures enabled && !endpointValid ==> r == Err(BadEndpoint) && requests == 0
    ensures enabled && endpointValid ==>
              requests == Requests(server) &&
              r == match Fetched(server) case Err(e) => Err(e) case Ok(records) => Ok(ToUsers(records))
    ensures enabled && endpointValid && r.Ok? ==>
              && |r.value| == |Fetched(server).value|
              && forall i :: 0 <= i < |r.value| ==>
                   var from, user := Fetched(server).value[i], r.value[i];
                   && user.sub == Truncate(if from.userName != [] then from.userName else from.id)
                   && user.displayName == Truncate(from.displayName)
                   && (from.emails == [] ==> user.email == [])
                   && (from.emails != [] && (forall m :: m in from.emails ==> !m.primary) ==>
                         user.email == Truncate(from.emails[0].value))
                   && (forall k :: 0 <= k < |from.emails| && from.emails[k].primary
                                   && (forall j :: 0 <= j < k ==> !from.emails[j].primary) ==>
                         user.email == Truncate(from.emails[k].value))
  {
    hide PagesFrom, RequestsFrom, Requests, Fetched, ToUser, Truncate, FirstPrimary;
    requests := 0;
    if !enabled {
      return Ok([]), 0;
    }
    if !endpointValid {
      return Err(BadEndpoint), 0;
    }
    var allUsers: seq<User> := [];
    ghost var taken: seq<Record> := [];
    var startIndex: nat := 1;
    Begin(server);
    while true
      invariant Onward(server, taken, requests, startIndex) && allUsers == ToUsers(taken)
      decreases MAX_TOTAL_USERS - |taken|
    {
      var answer := server(requests, startIndex);
      if answer.Ok? {
        TakePage(server, taken, requests, startIndex);
      } else {
        TakeFailure(server, taken, requests, startIndex);
      }
      requests := requests + 1;
      if answer.Err? {
        return Err(PageFailed), requests;
      }
      var page := answer.value;
      if |page.resources| == 0 {
        assert taken + [] == taken;
        UsersAre(taken);
        return Ok(allUsers), requests;
      }
      if page.totalResults > MAX_TOTAL_USERS {
        return Err(TooManyUsers), requests;
      }
      if |allUsers| + |page.resources| > MAX_TOTAL_USERS {
        return Err(TooManyUsers), requests;
      }
      allUsers := AppendUsers(allUsers, page.resources, taken);
      taken := taken + page.resources;
      startIndex := startIndex + |page.resources|;
      if |page.resources| < PAGE_SIZE {
        UsersAre(taken);
        return Ok(allUsers), requests;
      }
    }
  }

  lemma UsersAre(records: seq<Record>)
    ensures |ToUsers(records)| == |records|
    ensures forall i :: 0 <= i < |records| ==>
              var from, user := records[i], ToUsers(records)[i];
              && user.sub == Truncate(if from.userName != [] then from.userName else from.id)
              && user.displayName == Truncate(from.displayName)
              && (from.emails == [] ==> user.email == [])
              && (from.emails != [] && (forall m :: m in from.emails ==> !m.primary) ==>
                    user.email == Truncate(from.emails[0].value))
              && (forall k :: 0 <= k < |from.emails| && from.emails[k].primary
                              && (forall j :: 0 <= j < k ==> !from.emails[j].primary) ==>
                    user.email == Truncate(from.emails[k].value))
  {
    hide Truncate;
    assert Truncate([]) == [];
  }

  lemma Begin(server: Server)
    ensures Onward(server, [], 0, 1)
  {
    hide PagesFrom, RequestsFrom;
    match Fetched(server)
    case Ok(records) => assert [] + records == records;
    case Err(_) =>
  }

  lemma TakeFailure(server: Server, taken: seq<Record>, n: nat, startIndex: nat)
    requires Onward(server, taken, n, startIndex) && server(n, startIndex).Err?
    ensures Fetched(server) == Err(PageFailed) && Requests(server) == n + 1
  {
  }

  lemma TakePage(server: Server, taken: seq<Record>, n: nat, startIndex: nat)
    requires Onward(server, taken, n, startIndex) && server(n, startIndex).Ok?
    ensures var page := server(n, startIndex).value;
            if page.resources != []
               && (page.totalResults > MAX_TOTAL_USERS || |taken| + |page.resources| > MAX_TOTAL_USERS)
            then Fetched(server) == Err(TooManyUsers)
            else if |page.resources| < PAGE_SIZE then Fetched(server) == Ok(taken + page.resources)
            else Onward(server, taken + page.resources, n + 1, startIndex + |page.resources|)
    ensures var page := server(n, startIndex).value;
            (|| |page.resources| < PAGE_SIZE || page.totalResults > MAX_TOTAL_USERS
             || |taken| + |page.resources| > MAX_TOTAL_USERS) ==> Requests(server) == n + 1
  {
    var page := server(n, startIndex).value;
    if |page.resources| >= PAGE_SIZE && |taken| + |page.resources| <= MAX_TOTAL_USERS
       && page.totalResults <= MAX_TOTAL_USERS {
      var rest := PagesFrom(server, n + 1, startIndex + |page.resources|, |taken| + |page.resources|);
      if rest.Ok? {
        assert taken + (page.resources + rest.value) == (taken + page.resources) + rest.value;
      }
    }
  }

  method AppendUsers(users: seq<User>, records: seq<Record>, ghost taken: seq<Record>) returns (more: seq<User>)
    requires users == ToUsers(taken)
    ensures more == ToUsers(taken + records)
  {
    more := users;
    for i := 0 to |records|
      invariant more == ToUsers(taken + records[..i])
    {
      var r := records[i];
      var email := PrimaryEmail(r);
      more := more + [User(Truncate(if r.userName != [] then r.userName else r.id), Truncate(r.displayName),
                           Truncate(email))];
      assert records[..i + 1] == records[..i] + [r];
    }
    assert records[..|records|] == records;
  }

  // ---- against any server ----

  function Concat(pages: seq<ListResponse>): seq<Record> {
    if pages == [] then [] else Concat(pages[..|pages| - 1]) + pages[|pages| - 1].resources
  }

  /** The answers to the first requests, each asking from behind the users it has; none reports or makes too many. */
  ghost predicate Answers(server: Server, pages: seq<ListResponse>) {
    && |Concat(pages)| <= 100000
    && forall i :: 0 <= i < |pages| ==>
         && server(i, |Concat(pages[..i])| + 1) == Ok(pages[i])
         && (pages[i].resources == [] || pages[i].totalResults <= 100000)
  }

  /** Pages of a hundred or more, behind each of which another request is made. */
  ghost predicate Full(pages: seq<ListResponse>) {
    forall i :: 0 <= i < |pages| ==> |pages[i].resources| >= 100
  }

  /** All answers of a fetch that succeeds: full pages up to one that is not. */
  ghost predicate Complete(server: Server, pages: seq<ListResponse>) {
    && pages != [] && Answers(server, pages)
    && Full(pages[..|pages| - 1]) && |pages[|pages| - 1].resources| < 100
  }

  /** Full pages, and behind them a request that fails. */
  ghost predicate Failing(server: Server, pages: seq<ListResponse>) {
    Answers(server, pages) && Full(pages) && server(|pages|, |Concat(pages)| + 1).Err?
  }

  /**
   For every server: the users of a fetch that succeeds are those of its answers in order, up to the first page of fewer
   than a hundred; a failed request fails the fetch; anything else is too many users.
   */
  lemma FetchedExactly(server: Server, records: seq<Record>)
    ensures Fetched(server) == Ok(records) <==> exists pages :: Complete(server, pages) && Concat(pages) == records
    ensures Fetched(server) == Err(PageFailed) <==> exists pages :: Failing(server, pages)
    ensures Fetched(server) != Err(BadEndpoint)
  {
    hide PagesFrom, Complete, Failing, Concat;
    EmptyConcat();
    var answers := AnswersOf(server, []);
    match Fetched(server) {
      case Ok(all) => assert [] + all == all;
      case Err(_) =>
    }
    forall pages | Complete(server, pages) ensures Fetched(server) == Ok(Concat(pages)) {
      CompleteGives(server, pages);
    }
    forall pages | Failing(server, pages) ensures Fetched(server) == Err(PageFailed) {
      FailingGives(server, pages);
    }
  }

  lemma EmptyConcat()
    ensures Concat([]) == []
  {
  }

  lemma Step(server: Server, n: nat, held: nat)
    requires held <= 100000
    ensures PagesFrom(server, n, held + 1, held)
            == match server(n, held + 1)
               case Err(_) => Err(PageFailed)
               case Ok(page) =>
                 var count := |page.resources|;
                 if count == 0 then Ok([])
                 else if page.totalResults > 100000 || held + count > 100000 then Err(TooManyUsers)
                 else if count < 100 then Ok(page.resources)
                 else match PagesFrom(server, n + 1, held + count + 1, held + count)
                      case Err(e) => Err(e)
                      case Ok(rest) => Ok(page.resources + rest)
  {
  }

  lemma OneMore(server: Server, taken: seq<ListResponse>, page: ListResponse)
    requires Answers(server, taken) && Full(taken) && server(|taken|, |Concat(taken)| + 1) == Ok(page)
    ensures Concat(taken + [page]) == Concat(taken) + page.resources
    ensures (page.resources == [] || page.totalResults <= 100000) && |Concat(taken)| + |page.resources| <= 100000 ==>
              Answers(server, taken + [page])
    ensures |page.resources| >= 100 ==> Full(taken + [page])
    ensures Answers(server, taken + [page]) && |page.resources| < 100 ==> Complete(server, taken + [page])
  {
    Appended(taken, page);
    if (page.resources == [] || page.totalResults <= 100000) && |Concat(taken)| + |page.resources| <= 100000 {
      AnswersAppended(server, taken, page);
    }
    hide Concat, Answers;
    assert (taken + [page])[..|taken|] == taken;
  }

  lemma Appended(taken: seq<ListResponse>, page: ListResponse)
    ensures Concat(taken + [page]) == Concat(taken) + page.resources
  {
    assert (taken + [page])[..|taken|] == taken;
  }

  lemma AnswersAppended(server: Server, taken: seq<ListResponse>, page: ListResponse)
    requires Answers(server, taken) && server(|taken|, |Concat(taken)| + 1) == Ok(page)
    requires (page.resources == [] || page.totalResults <= 100000) && |Concat(taken)| + |page.resources| <= 100000
    ensures Answers(server, taken + [page])
  {
    Appended(taken, page);
    hide Concat;
    var pages := taken + [page];
    forall i | 0 <= i < |pages|
      ensures server(i, |Concat(pages[..i])| + 1) == Ok(pages[i])
      ensures pages[i].resources == [] || pages[i].totalResults <= 100000
    {
      if i < |taken| {
        assert pages[..i] == taken[..i];
        assert pages[i] == taken[i];
      } else {
        assert pages[..i] == taken && pages[i] == page;
      }
    }
  }

  lemma {:induction false} AnswersOf(server: Server, taken: seq<ListResponse>) returns (pages: seq<ListResponse>)
    requires Answers(server, taken) && Full(taken) && |Concat(taken)| <= 100000
    ensures match PagesFrom(server, |taken|, |Concat(taken)| + 1, |Concat(taken)|)
            case Ok(rest) => Complete(server, pages) && Concat(pages) == Concat(taken) + rest
            case Err(PageFailed) => Failing(server, pages)
            case Err(e) => e == TooManyUsers
    decreases 100000 - |Concat(taken)|
  {
    hide PagesFrom, Concat, Complete, Answers, Full;
    pages := taken;
    var held := |Concat(taken)|;
    Step(server, |taken|, held);
    match server(|taken|, held + 1)
    case Err(_) =>
    case Ok(page) =>
      OneMore(server, taken, page);
      hide Failing;
      pages := taken + [page];
      var count := |page.resources|;
      if count >= 100 && page.totalResults <= 100000 && held + count <= 100000 {
        pages := AnswersOf(server, pages);
        var rest := PagesFrom(server, |taken| + 1, held + count + 1, held + count);
        if rest.Ok? {
          assert Concat(taken) + page.resources + rest.value == Concat(taken) + (page.resources + rest.value);
        }
      }
  }

  lemma {:induction false} ConcatUpTo(pages: seq<ListResponse>, k: nat)
    requires k <= |pages|
    ensures |Concat(pages[..k])| <= |Concat(pages)|
    ensures k < |pages| ==> Concat(pages[..k + 1]) == Concat(pages[..k]) + pages[k].resources
    decreases |pages|
  {
    assert k < |pages| ==> pages[..k + 1][..k] == pages[..k];
    if k < |pages| {
      var n := |pages| - 1;
      ConcatUpTo(pages[..n], k);
      assert pages[..n][..k] == pages[..k];
    } else {
      assert pages[..k] == pages;
    }
  }

  lemma {:induction false} Reached(server: Server, pages: seq<ListResponse>, k: nat)
    requires k <= |pages| && Answers(server, pages) && Full(pages[..k])
    ensures |Concat(pages[..k])| <= 100000
    ensures Fetched(server)
            == match PagesFrom(server, k, |Concat(pages[..k])| + 1, |Concat(pages[..k])|)
               case Err(e) => Err(e)
               case Ok(rest) => Ok(Concat(pages[..k]) + rest)
  {
    hide PagesFrom, Concat;
    ConcatUpTo(pages, k);
    if k == 0 {
      EmptyConcat();
      assert pages[..0] == [];
      assert Fetched(server).Ok? ==> [] + Fetched(server).value == Fetched(server).value;
    } else {
      assert forall i :: 0 <= i < k ==> pages[..k][i] == pages[i];
      assert pages[k - 1] == pages[..k][k - 1];
      assert forall i :: 0 <= i < k - 1 ==> pages[..k - 1][i] == pages[i];
      Reached(server, pages, k - 1);
      ConcatUpTo(pages, k - 1);
      var page, before := pages[k - 1], Concat(pages[..k - 1]);
      Step(server, k - 1, |before|);
      var rest := PagesFrom(server, k, |Concat(pages[..k])| + 1, |Concat(pages[..k])|);
      if rest.Ok? {
        assert before + page.resources + rest.value == before + (page.resources + rest.value);
      }
    }
  }

  lemma CompleteGives(server: Server, pages: seq<ListResponse>)
    requires Complete(server, pages)
    ensures Fetched(server) == Ok(Concat(pages))
  {
    hide PagesFrom, Fetched, Concat;
    var k := |pages| - 1;
    Reached(server, pages, k);
    ConcatUpTo(pages, k);
    assert pages[..k + 1] == pages;
    Step(server, k, |Concat(pages[..k])|);
    assert Concat(pages[..k]) + [] == Concat(pages[..k]);
  }

  lemma FailingGives(server: Server, pages: seq<ListResponse>)
    requires Failing(server, pages)
    ensures Fetched(server) == Err(PageFailed)
  {
    hide PagesFrom, Fetched, Concat;
    assert pages[..|pages|] == pages;
    Reached(server, pages, |pages|);
    Step(server, |pages|, |Concat(pages)|);
  }

  // ---- against a server that serves one fixed list ----

  /**
   A server of a fixed list of users, paged contiguously: from offset `off` it serves the next `size(off)` users, at
   least one as long as there are any. It reports the true total or none.
   */
  ghost predicate Serves(server: Server, all: seq<Record>, size: nat -> nat, total: int) {
    && (total == |all| || total <= 0)
    && (forall off :: 0 <= off < |all| ==> 1 <= size(off) <= |all| - off)
    && forall n: nat, startIndex: nat :: startIndex >= 1 ==>
         server(n, startIndex) == Ok(ListResponse(total, PageAt(all, size, startIndex - 1)))
  }

  ghost function PageAt(all: seq<Record>, size: nat -> nat, off: nat): seq<Record> {
    if off < |all| && size(off) <= |all| - off then all[off..off + size(off)] else []
  }

  /** From this offset on every page the client asks for holds a hundred users, or all that remain. */
  ghost predicate FullPages(count: nat, size: nat -> nat, off: nat)
    decreases count - off
  {
    off < count && 0 < size(off) <= count - off ==>
      (size(off) >= 100 || size(off) == count - off) && FullPages(count, size, off + size(off))
  }

  lemma NextPage(server: Server, all: seq<Record>, size: nat -> nat, total: int, n: nat, off: nat)
    requires Serves(server, all, size, total) && off < |all| && off <= MAX_TOTAL_USERS
    ensures var next := off + size(off);
            PagesFrom(server, n, off + 1, off)
            == if total > MAX_TOTAL_USERS || next > MAX_TOTAL_USERS then Err(TooManyUsers)
               else if size(off) < PAGE_SIZE then Ok(all[off..next])
               else match PagesFrom(server, n + 1, next + 1, next)
                    case Err(e) => Err(e)
                    case Ok(rest) => Ok(all[off..next] + rest)
  {
    assert server(n, off + 1) == Ok(ListResponse(total, all[off..off + size(off)]));
  }

  lemma NoPage(server: Server, all: seq<Record>, size: nat -> nat, total: int, n: nat)
    requires Serves(server, all, size, total) && |all| <= MAX_TOTAL_USERS
    ensures PagesFrom(server, n, |all| + 1, |all|) == Ok([]) && FullPages(|all|, size, |all|)
  {
    assert server(n, |all| + 1) == Ok(ListResponse(total, []));
  }

  lemma Cancel(all: seq<Record>, off: nat, next: nat, rest: seq<Record>)
    requires off <= next <= |all|
    ensures all[off..next] + rest == all[off..] <==> rest == all[next..]
  {
    assert (all[off..next] + rest)[next - off..] == rest && all[off..][next - off..] == all[next..];
    assert all[off..next] + all[next..] == all[off..];
  }

  lemma {:induction false} PagesOf(server: Server, all: seq<Record>, size: nat -> nat, total: int, n: nat, off: nat)
    requires Serves(server, all, size, total) && off <= |all| && off <= MAX_TOTAL_USERS
    ensures PagesFrom(server, n, off + 1, off) == Ok(all[off..]) <==>
              FullPages(|all|, size, off) && |all| <= MAX_TOTAL_USERS
    ensures FullPages(|all|, size, off) && |all| > MAX_TOTAL_USERS ==>
              PagesFrom(server, n, off + 1, off) == Err(TooManyUsers)
    decreases |all| - off
  {
    hide PagesFrom, FullPages, Serves;
    if off < |all| {
      var next := off + size(off);
      SizesAre(server, all, size, total, off);
      NextPage(server, all, size, total, n, off);
      FullPagesFrom(|all|, size, off);
      if size(off) >= PAGE_SIZE && next <= MAX_TOTAL_USERS {
        PagesOf(server, all, size, total, n + 1, next);
        var rest := PagesFrom(server, n + 1, next + 1, next);
        if rest.Ok? {
          Cancel(all, off, next, rest.value);
        }
        if next == |all| {
          NoPage(server, all, size, total, n + 1);
        }
      } else {
        Cancel(all, off, next, []);
        assert all[off..next] + [] == all[off..next];
        assert all[next..] == [] <==> next == |all|;
      }
    } else {
      NoPage(server, all, size, total, n);
      assert all[off..] == [];
    }
  }

  lemma SizesAre(server: Server, all: seq<Record>, size: nat -> nat, total: int, off: nat)
    requires Serves(server, all, size, total) && off < |all|
    ensures 1 <= size(off) <= |all| - off && (total == |all| || total <= 0)
  {
  }

  lemma FullPagesFrom(count: nat, size: nat -> nat, off: nat)
    requires off < count && 0 < size(off) <= count - off
    ensures FullPages(count, size, off) <==>
              size(off) == count - off || (size(off) >= PAGE_SIZE && FullPages(count, size, off + size(off)))
  {
    assert FullPages(count, size, count);
  }

  /**
   FetchUsers is complete exactly if no page on its way is short, that is, holds fewer than a hundred users without
   being the last, and the cap is kept: a server that prefers smaller pages, as RFC 7644 lets it, loses users silently.
   */
  lemma CompleteExactly(server: Server, all: seq<Record>, size: nat -> nat, total: int)
    requires Serves(server, all, size, total)
    ensures Fetched(server) == Ok(all) <==> FullPages(|all|, size, 0) && |all| <= 100000
    ensures FullPages(|all|, size, 0) && |all| > 100000 ==> Fetched(server) == Err(TooManyUsers)
  {
    PagesOf(server, all, size, total, 0, 0);
    assert all[0..] == all;
  }

  ghost predicate PagesUpTo(count: nat, most: nat, size: nat -> nat) {
    forall off :: 0 <= off < count ==> size(off) == if count - off < most then count - off else most
  }

  lemma {:induction false} EqualPages(count: nat, most: nat, size: nat -> nat, off: nat)
    requires 0 < most && PagesUpTo(count, most, size) && off <= count
    ensures FullPages(count, size, off) <==> most >= PAGE_SIZE || count - off <= most
    decreases count - off
  {
    if off < count {
      EqualPages(count, most, size, off + size(off));
    }
  }

  /** With pages of at most `most` users, all users arrive exactly if they fit one page or a page holds a hundred. */
  lemma CompletePageSizes(server: Server, all: seq<Record>, most: nat, size: nat -> nat, total: int)
    requires 0 < most && PagesUpTo(|all|, most, size) && Serves(server, all, size, total) && |all| <= 100000
    ensures Fetched(server) == Ok(all) <==> most >= 100 || |all| <= most
  {
    CompleteExactly(server, all, size, total);
    EqualPages(|all|, most, size, 0);
  }

  /** A server that honours the requested page size is asked floor(n / 100) + 1 times for n users. */
  lemma ExactRequests(server: Server, all: seq<Record>, size: nat -> nat, total: int)
    requires PagesUpTo(|all|, 100, size) && Serves(server, all, size, total) && |all| <= 100000
    ensures Requests(server) == |all| / 100 + 1
  {
    RequestsLeft(server, all, size, total, 0, 0);
  }

  lemma {:induction false} RequestsLeft(server: Server, all: seq<Record>, size: nat -> nat, total: int, n: nat,
                                        off: nat)
    requires PagesUpTo(|all|, PAGE_SIZE, size) && Serves(server, all, size, total)
    requires off <= |all| <= MAX_TOTAL_USERS
    ensures RequestsFrom(server, n, off + 1, off) == (|all| - off) / PAGE_SIZE + 1
    decreases |all| - off
  {
    if off < |all| {
      assert server(n, off + 1) == Ok(ListResponse(total, all[off..off + size(off)]));
      if size(off) == PAGE_SIZE {
        RequestsLeft(server, all, size, total, n + 1, off + PAGE_SIZE);
      }
    } else {
      assert server(n, off + 1) == Ok(ListResponse(total, []));
    }
  }

  // ---- a server that prefers smaller pages ----

  function PageSizes(count: nat, most: nat): nat -> nat {
    off => if off >= count then 0 else if count - off < most then count - off else most
  }

  /** It serves at most `most` users at a time, whatever is asked for, and reports the true total. */
  ghost function SmallPages(all: seq<Record>, most: nat): Server {
    (n, startIndex) =>
      Ok(ListResponse(|all|, if startIndex >= 1 then PageAt(all, PageSizes(|all|, most), startIndex - 1) else []))
  }

  /** Of its users the first page is imported, without an error, and the others are lost. */
  lemma SmallPagesLose(all: seq<Record>, most: nat)
    requires 0 < most < 100 && most < |all| <= 100000
    ensures Serves(SmallPages(all, most), all, PageSizes(|all|, most), |all|)
    ensures Fetched(SmallPages(all, most)) == Ok(all[..most]) && all[..most] != all
    ensures Requests(SmallPages(all, most)) == 1
  {
    assert SmallPages(all, most)(0, 1) == Ok(ListResponse(|all|, all[0..most]));
    assert |all[..most]| == most;
  }
}
