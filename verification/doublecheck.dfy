/** The maintainers' audit script doublechek.py: `fetch_issues` walks the
    repository's issue list page by page and keeps every issue not opened by
    dependabot.  The replies to pages 1, 2, ... are an input; pages past the
    end answer 200 with an empty list, as GitHub does. */
module DoubleCheck {
  import opened Base

  /** An issue as the script reads it: `login` is `issue["user"]["login"]`,
      `None` when that lookup raises. */
  datatype Issue = Issue(title: string, login: Option<string>, body: Option<string>)

  /** A page: `requests.get` or `response.json()` raised, or a status and
      the issues on the page. */
  datatype PageReply = PageRaised | Page(status: int, issues: seq<Issue>)

  /** What `fetch_issues` does: returns the gathered issues, or raises. */
  datatype Fetched = Gathered(issues: seq<Issue>) | Raised

  const Dependabot: string := "dependabot[bot]"

  function ReplyAt(pages: seq<PageReply>, i: nat): PageReply {
    if i < |pages| then pages[i] else Page(200, [])
  }

  // ---------------------------------------------------------------------------
  // The filter of lines 25-27
  // ---------------------------------------------------------------------------

  predicate IsDependabot(issue: Issue) {
    issue.login == Some(Dependabot)
  }

  /** Every issue on the page has a `user.login` to compare. */
  predicate AllHaveLogin(issues: seq<Issue>) {
    forall k | 0 <= k < |issues| :: issues[k].login.Some?
  }

  /** The issues that are not dependabot's, in their order. */
  function Keep(issues: seq<Issue>): (kept: seq<Issue>)
    ensures |kept| <= |issues|
  {
    if |issues| == 0 then []
    else
      var rest := Keep(issues[1..]);
      if IsDependabot(issues[0]) then rest else [issues[0]] + rest
  }

  /** The kept issues are exactly the issues that are not dependabot's. */
  lemma {:induction false} KeepSpec(issues: seq<Issue>)
    ensures forall x | x in Keep(issues) :: x in issues && !IsDependabot(x)
    ensures forall x | x in issues && !IsDependabot(x) :: x in Keep(issues)
    decreases |issues|
  {
    if |issues| > 0 {
      KeepSpec(issues[1..]);
      assert forall x | x in issues :: x == issues[0] || x in issues[1..];
    }
  }

  /** Filtering page by page is filtering the whole list: order is kept. */
  lemma {:induction false} KeepAppend(a: seq<Issue>, b: seq<Issue>)
    ensures Keep(a + b) == Keep(a) + Keep(b)
    decreases |a|
  {
    if |a| == 0 {
      assert a + b == b;
    } else {
      assert (a + b)[0] == a[0];
      assert (a + b)[1..] == a[1..] + b;
      KeepAppend(a[1..], b);
    }
  }

  // ---------------------------------------------------------------------------
  // The loop of lines 12-29
  // ---------------------------------------------------------------------------

  /** A page after which the loop asks for the next one: status 200, not
      empty, and every issue on it has a login. */
  predicate GoesOn(reply: PageReply) {
    reply.Page? && reply.status == 200 && |reply.issues| > 0 && AllHaveLogin(reply.issues)
  }

  /** A page on which the script raises: the request or the decoding raised,
      or an issue on a non-empty 200 page has no `user.login`. */
  predicate Raises(reply: PageReply) {
    || reply.PageRaised?
    || (reply.status == 200 && |reply.issues| > 0 && !AllHaveLogin(reply.issues))
  }

  /** The loop, stated page by page: stop on a page that is not 200 or is
      empty, keeping what was gathered; raise on a page that raises;
      otherwise keep the page's non-dependabot issues and go on. */
  function Gather(pages: seq<PageReply>): Fetched
    decreases |pages|
  {
    var reply := ReplyAt(pages, 0);
    if Raises(reply) then Raised
    else if !GoesOn(reply) || |pages| == 0 then Gathered([])
    else match Gather(pages[1..])
      case Raised => Raised
      case Gathered(rest) => Gathered(Keep(reply.issues) + rest)
  }

  /** The index of the page on which the loop stops. */
  function StopAt(pages: seq<PageReply>): (n: nat)
    ensures n <= |pages|
    ensures forall k | 0 <= k < n :: GoesOn(ReplyAt(pages, k))
    ensures !GoesOn(ReplyAt(pages, n))
    decreases |pages|
  {
    if !GoesOn(ReplyAt(pages, 0)) || |pages| == 0 then 0
    else
      var n := StopAt(pages[1..]);
      assert forall k | 1 <= k <= n + 1 :: ReplyAt(pages, k) == ReplyAt(pages[1..], k - 1);
      n + 1
  }

  /** The issues of a page that answered. */
  function IssuesOf(reply: PageReply): seq<Issue> {
    if reply.Page? then reply.issues else []
  }

  /** All issues on the first `n` pages, page after page. */
  function IssuesBefore(pages: seq<PageReply>, n: nat): seq<Issue>
    requires n <= |pages|
  {
    if n == 0 then [] else IssuesBefore(pages, n - 1) + IssuesOf(ReplyAt(pages, n - 1))
  }

  /** The result of the whole loop: unless the stopping page raises, it is
      every issue on the pages before it, dependabot's removed, in page order
      and then in order on the page. */
  lemma {:induction false} GatherSpec(pages: seq<PageReply>)
    ensures Gather(pages) == (if Raises(ReplyAt(pages, StopAt(pages))) then Raised
                              else Gathered(Keep(IssuesBefore(pages, StopAt(pages)))))
    decreases |pages|
  {
    var reply := ReplyAt(pages, 0);
    if !GoesOn(reply) || |pages| == 0 {
      assert StopAt(pages) == 0;
    } else {
      var tail := pages[1..];
      GatherSpec(tail);
      var n := StopAt(tail);
      assert StopAt(pages) == n + 1;
      assert ReplyAt(pages, n + 1) == ReplyAt(tail, n);
      IssuesBeforeShift(pages, n);
      var before := IssuesBefore(tail, n);
      KeepAppend(reply.issues, before);
      assert !Raises(reply);
      if !Raises(ReplyAt(tail, n)) {
        assert Gather(tail) == Gathered(Keep(before));
        assert Gather(pages) == Gathered(Keep(reply.issues) + Keep(before));
      }
    }
  }

  /** None of the gathered issues is dependabot's. */
  lemma GatherHasNoDependabot(pages: seq<PageReply>)
    ensures Gather(pages).Gathered? ==> forall x | x in Gather(pages).issues :: !IsDependabot(x)
  {
    GatherSpec(pages);
    KeepSpec(IssuesBefore(pages, StopAt(pages)));
  }

  /** Dropping the first page shifts the later pages down by one. */
  lemma {:induction false} IssuesBeforeShift(pages: seq<PageReply>, n: nat)
    requires n + 1 <= |pages|
    ensures IssuesBefore(pages, n + 1) == IssuesOf(ReplyAt(pages, 0)) + IssuesBefore(pages[1..], n)
    decreases n
  {
    if n > 0 {
      IssuesBeforeShift(pages, n - 1);
      assert ReplyAt(pages, n) == ReplyAt(pages[1..], n - 1);
    }
  }

  /** `fetch_issues()`: asks for pages 1, 2, ... in turn (`requested` lists
      the page numbers) and returns the loop's result. */
  method FetchIssues(pages: seq<PageReply>) returns (r: Fetched, requested: seq<nat>)
    ensures r == Gather(pages)
    ensures 1 <= |requested| <= |pages| + 1
    ensures forall k | 0 <= k < |requested| :: requested[k] == k + 1
    ensures forall k | 0 <= k < |requested| - 1 :: GoesOn(ReplyAt(pages, k))
    ensures !GoesOn(ReplyAt(pages, |requested| - 1))
  {
    var page := 1;
    var all: seq<Issue> := [];
    requested := [];
    while true
      invariant 1 <= page <= |pages| + 1
      invariant |requested| == page - 1
      invariant forall k | 0 <= k < |requested| :: requested[k] == k + 1
      invariant forall k | 0 <= k < page - 1 :: GoesOn(ReplyAt(pages, k))
      invariant Gather(pages) == Then(all, Gather(pages[page - 1..]))
      decreases |pages| + 1 - page
    {
      requested := requested + [page];
      var reply := ReplyAt(pages, page - 1);
      GatherFrom(pages, page - 1);
      if reply.PageRaised? {
        return Raised, requested;
      }
      if reply.status != 200 || |reply.issues| == 0 {
        assert all + [] == all;
        return Gathered(all), requested;
      }
      var kept, ok := KeepPage(reply.issues);
      if !ok {
        return Raised, requested;
      }
      ThenAssoc(all, kept, Gather(pages[page..]));
      all := all + kept;
      page := page + 1;
    }
  }

  /** The loop from page `i` on, by what page `i` answers. */
  lemma GatherFrom(pages: seq<PageReply>, i: nat)
    requires i <= |pages|
    ensures Raises(ReplyAt(pages, i)) ==> Gather(pages[i..]) == Raised
    ensures !Raises(ReplyAt(pages, i)) && !GoesOn(ReplyAt(pages, i)) ==> Gather(pages[i..]) == Gathered([])
    ensures GoesOn(ReplyAt(pages, i)) ==>
      i < |pages| && Gather(pages[i..]) == Then(Keep(ReplyAt(pages, i).issues), Gather(pages[i + 1..]))
  {
    assert ReplyAt(pages[i..], 0) == ReplyAt(pages, i);
    if i < |pages| {
      assert pages[i..][1..] == pages[i + 1..];
    }
  }

  /** The issues gathered so far put in front of what the rest of the loop
      gathers. */
  function Then(before: seq<Issue>, rest: Fetched): Fetched {
    match rest
    case Raised => Raised
    case Gathered(more) => Gathered(before + more)
  }

  lemma ThenAssoc(a: seq<Issue>, b: seq<Issue>, rest: Fetched)
    ensures Then(a, Then(b, rest)) == Then(a + b, rest)
  {
    if rest.Gathered? {
      assert a + (b + rest.issues) == a + b + rest.issues;
    }
  }

  /** The list comprehension of lines 25-27 over one page: the kept issues,
      or `ok == false` when some issue has no login to compare (the
      comprehension raises). */
  method KeepPage(issues: seq<Issue>) returns (kept: seq<Issue>, ok: bool)
    ensures ok <==> AllHaveLogin(issues)
    ensures ok ==> kept == Keep(issues)
  {
    kept := [];
    var k := 0;
    while k < |issues|
      invariant 0 <= k <= |issues|
      invariant AllHaveLogin(issues[..k])
      invariant kept == Keep(issues[..k])
    {
      var issue := issues[k];
      if issue.login.None? {
        return kept, false;
      }
      KeepStep(issues, k);
      if issue.login.value != Dependabot {
        kept := kept + [issue];
      }
      k := k + 1;
    }
    assert issues[..k] == issues;
    ok := true;
  }

  /** One more issue of the page: kept unless it is dependabot's. */
  lemma KeepStep(issues: seq<Issue>, k: nat)
    requires k < |issues|
    requires AllHaveLogin(issues[..k]) && issues[k].login.Some?
    ensures AllHaveLogin(issues[..k + 1])
    ensures Keep(issues[..k + 1]) == Keep(issues[..k]) + (if IsDependabot(issues[k]) then [] else [issues[k]])
  {
    assert issues[..k + 1] == issues[..k] + [issues[k]];
    KeepAppend(issues[..k], [issues[k]]);
    assert [issues[k]][1..] == [];
  }

  /** A page shorter than the page size does not end the loop: two pages of
      one issue each are both read. */
  lemma ShortPageGoesOn(a: Issue, b: Issue)
    requires a.login == Some("alice") && b.login == Some("bob")
    ensures Gather([Page(200, [a]), Page(200, [b])]) == Gathered([a, b])
  {
    var pages := [Page(200, [a]), Page(200, [b])];
    assert pages[1..] == [Page(200, [b])];
    assert pages[1..][1..] == [];
    assert Keep([a]) == [a] && Keep([b]) == [b];
    assert Gather(pages[1..][1..]) == Gathered([]);
    assert Gather(pages[1..]) == Gathered([b] + []);
  }
}
