/** The worker's two GitHub look-ups made before the issue scan:
    `verifyGitHubHandle` (packages/worker/src/index.ts:118-146) and the
    paginated repository scan `verifyRepo` (packages/worker/src/index.ts:149-214).
    GitHub's replies are inputs: one reply for the account and, for the
    repositories, the replies to pages 1, 2, ... in order. */
module GitHub {
  import opened Text

  /** The account look-up: either `fetch` or `response.json()` threw, or the
      body was read and the reply had this status. */
  datatype AccountReply = AccountThrew | AccountStatus(status: int)

  /** `verifyGitHubHandle`: the account exists exactly when the status is 200;
      an exception anywhere counts as "does not exist". */
  function AccountExists(reply: AccountReply): (exists_: bool)
    ensures exists_ <==> reply == AccountStatus(200)
  {
    match reply
    case AccountThrew => false
    case AccountStatus(status) => status == 200
  }

  /** One repository page: either the request threw, or it answered with a
      status and (when the status is 200) the repository names on the page. */
  datatype PageReply = PageThrew | PageStatus(status: int, names: seq<string>)

  /** The page size the worker asks for (`per_page=100`). */
  const PerPage: nat := 100

  /** The repository name the worker looks for, whatever `repo` parameter it
      was given. */
  const RepoName: string := "ethbinder"

  /** `pageRepos.some(repo => repo.name.toLowerCase() === 'ethbinder')`. */
  predicate HasRepo(names: seq<string>) {
    exists k | 0 <= k < |names| :: Lower(names[k]) == RepoName
  }

  /** The result of the loop together with the number of pages requested. */
  datatype RepoScan = RepoScan(found: bool, requests: nat)

  /** A page after which the loop asks for the next one: answered 200, full,
      and without the repository. */
  predicate GoesOn(reply: PageReply) {
    reply.PageStatus? && reply.status == 200 && |reply.names| >= PerPage && !HasRepo(reply.names)
  }

  /** A page on which the loop stops with `true`. */
  predicate Finds(reply: PageReply) {
    reply.PageStatus? && reply.status == 200 && HasRepo(reply.names)
  }

  /** The reply to page `i + 1`; GitHub answers past the last page with an
      empty list. */
  function ReplyAt(pages: seq<PageReply>, i: nat): PageReply {
    if i < |pages| then pages[i] else PageStatus(200, [])
  }

  /** `verifyRepo`'s loop, starting at page 1 with `pages[0]`.  It stops with
      `false` on an exception or a status other than 200, with `true` on a page
      holding the repository (checked before the page length), and with `false`
      on a page with fewer than 100 entries; otherwise it asks for the next
      page.  Each request is for a new page, and the pages run out. */
  function ScanRepos(pages: seq<PageReply>): (r: RepoScan)
    ensures 1 <= r.requests <= |pages| + 1
    ensures forall i | 0 <= i < r.requests - 1 :: GoesOn(ReplyAt(pages, i))
    ensures !GoesOn(ReplyAt(pages, r.requests - 1))
    ensures r.found <==> Finds(ReplyAt(pages, r.requests - 1))
    decreases |pages|
  {
    var reply := ReplyAt(pages, 0);
    if !GoesOn(reply) || |pages| == 0 then RepoScan(Finds(reply), 1)
    else
      var r := ScanRepos(pages[1..]);
      assert forall i | 1 <= i <= r.requests :: ReplyAt(pages, i) == ReplyAt(pages[1..], i - 1);
      RepoScan(r.found, r.requests + 1)
  }

  /** The pages GitHub serves for a user owning `repos`, 100 to a page. */
  function Listing(repos: seq<string>): seq<PageReply>
    decreases |repos|
  {
    if |repos| < PerPage then [PageStatus(200, repos)]
    else [PageStatus(200, repos[..PerPage])] + Listing(repos[PerPage..])
  }

  /** Over a well-behaved listing of `N` repositories the scan answers whether
      one of them is called "ethbinder" up to case, and when none is it makes
      exactly `N / 100 + 1` requests: a listing whose length is a multiple of
      100 costs one extra request for the empty page after it. */
  lemma {:induction false} ScanListing(repos: seq<string>)
    ensures ScanRepos(Listing(repos)).found <==> HasRepo(repos)
    ensures !HasRepo(repos) ==> ScanRepos(Listing(repos)).requests == |repos| / PerPage + 1
    decreases |repos|
  {
    var pages := Listing(repos);
    if |repos| < PerPage {
      assert pages == [PageStatus(200, repos)];
    } else {
      var head, tail := repos[..PerPage], repos[PerPage..];
      assert repos == head + tail;
      assert pages[0] == PageStatus(200, head);
      assert pages[1..] == Listing(tail);
      ScanListing(tail);
      HasRepoAppend(head, tail);
      if !HasRepo(head) {
        assert GoesOn(pages[0]);
        assert |pages| > 0;
        assert |repos| / PerPage == |tail| / PerPage + 1;
      }
    }
  }

  lemma HasRepoAppend(a: seq<string>, b: seq<string>)
    ensures HasRepo(a + b) <==> HasRepo(a) || HasRepo(b)
  {
    if HasRepo(a) {
      var k :| 0 <= k < |a| && Lower(a[k]) == RepoName;
      assert (a + b)[k] == a[k];
    }
    if HasRepo(b) {
      var k :| 0 <= k < |b| && Lower(b[k]) == RepoName;
      assert (a + b)[|a| + k] == b[k];
    }
    if HasRepo(a + b) {
      var k :| 0 <= k < |a + b| && Lower((a + b)[k]) == RepoName;
      if k >= |a| {
        assert b[k - |a|] == (a + b)[k];
        assert Lower(b[k - |a|]) == RepoName;
      } else {
        assert a[k] == (a + b)[k];
        assert Lower(a[k]) == RepoName;
      }
    }
  }
}
