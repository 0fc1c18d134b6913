/** The badge worker's request handler (`fetch` in packages/worker/src/index.ts).
    It resolves a GitHub handle, checks the account, the repository list and
    the API token, fetches the issue list of `{handle}/{repo}`, scans it and
    answers with a badge.  The handler is modelled in two parts: `Decide`
    computes which stage ended the request, and `Render` turns that into the
    response.  GitHub's replies are functions of the request URL, and the
    signature check is the `recover` parameter. */
module Worker {
  import opened Base
  import opened Text
  import GitHub
  import IssueScan
  import Badge

  // ---------------------------------------------------------------------------
  // The request
  // ---------------------------------------------------------------------------

  /** The Referer header.  An absent or empty header is `NoReferer`; a header
      `new URL` rejects is `Unparsable`; otherwise the URL's host and path. */
  datatype Referer = NoReferer | Unparsable(raw: string) | Parsed(host: string, pathname: string)

  /** The query parameters the worker reads (`None` when absent) and the Referer. */
  datatype Request = Request(
    handleParam: Option<string>,
    repoParam: Option<string>,
    debugParam: Option<string>,
    referer: Referer)

  /** The worker's environment: the `GITHUB_API_KEY` binding, if set. */
  datatype Env = Env(token: Option<string>)

  /** The reply to the issue-list request: `fetch` threw, the status was not
      in the 2xx range (with its status text), or the issues were read. */
  datatype IssuesReply = IssuesThrew | IssuesNotOk(statusText: string) | IssuesOk(issues: seq<IssueScan.Issue>)

  /** GitHub as the worker sees it, keyed by request URL; the repository pages
      are keyed by the listing URL before its `?per_page=100&page=N` query and
      hold the replies to pages 1, 2, ... */
  datatype GitHubState = GitHubState(
    account: string -> GitHub.AccountReply,
    repoPages: string -> seq<GitHub.PageReply>,
    issues: string -> IssuesReply)

  /** `url.searchParams.get('repo') || 'ethbinder'`: never empty, so the
      `!repo` test of the handler can never fire. */
  function RepoOf(req: Request): (repo: string)
    ensures repo != ""
    ensures Truthy(req.repoParam) ==> repo == req.repoParam.value
    ensures !Truthy(req.repoParam) ==> repo == GitHub.RepoName
  {
    if Truthy(req.repoParam) then req.repoParam.value else GitHub.RepoName
  }

  /** `url.searchParams.get('debug') === 'true'`. */
  predicate DebugOf(req: Request) {
    req.debugParam == Some("true")
  }

  function UserUrl(handle: string): string {
    "https://api.github.com/users/" + handle
  }

  function ReposUrl(handle: string): string {
    UserUrl(handle) + "/repos"
  }

  function IssuesUrl(handle: string, repo: string): string {
    "https://api.github.com/repos/" + handle + "/" + repo + "/issues"
  }

  // ---------------------------------------------------------------------------
  // Handle resolution
  // ---------------------------------------------------------------------------

  /** The second `/`-separated segment of a path, when it exists and is not
      empty: `pathParts[1]` in `setGitHubHandle`. */
  function PathHandle(pathname: string): (h: Option<string>)
    ensures h.Some? ==> h.value != "" && '/' !in h.value
  {
    var parts := Split(pathname, '/');
    if |parts| >= 2 && parts[1] != "" then Some(parts[1]) else None
  }

  /** The shape of a path whose second segment is `x`: a first segment `f`
      without a slash, a slash, `x`, and then nothing or a slash and anything. */
  ghost predicate SecondSegment(pathname: string, x: string) {
    && x != "" && '/' !in x
    && exists f: string, suffix: string | '/' !in f && (suffix == "" || suffix[0] == '/') ::
         pathname == f + "/" + x + suffix
  }

  lemma PathHandleOf(f: string, x: string, suffix: string)
    requires '/' !in f && '/' !in x && x != ""
    requires suffix == "" || suffix[0] == '/'
    ensures PathHandle(f + "/" + x + suffix) == Some(x)
  {
    var s := f + "/" + x + suffix;
    assert s == f + ['/'] + (x + suffix);
    SplitCons(f, '/', x + suffix);
    SplitHead(x, '/', suffix);
  }

  /** The handle taken from a path is exactly its second segment. */
  lemma PathHandleSpec(pathname: string, x: string)
    ensures PathHandle(pathname) == Some(x) <==> SecondSegment(pathname, x)
  {
    if SecondSegment(pathname, x) {
      var f: string, suffix: string :| '/' !in f && (suffix == "" || suffix[0] == '/')
        && pathname == f + "/" + x + suffix;
      PathHandleOf(f, x, suffix);
    }
    if PathHandle(pathname) == Some(x) {
      PathHandleShape(pathname);
    }
  }

  lemma PathHandleShape(pathname: string)
    requires PathHandle(pathname).Some?
    ensures SecondSegment(pathname, PathHandle(pathname).value)
  {
    var parts := Split(pathname, '/');
    var x := parts[1];
    var tail := parts[1..];
    assert '/' !in parts[0];
    assert pathname == parts[0] + ['/'] + Join(tail, '/');
    var suffix := if |tail| == 1 then "" else "/" + Join(tail[1..], '/');
    assert Join(tail, '/') == x + suffix;
    assert suffix == "" || suffix[0] == '/';
    assert pathname == parts[0] + "/" + x + suffix;
    assert '/' !in parts[0] && (suffix == "" || suffix[0] == '/') && pathname == parts[0] + "/" + x + suffix;
  }

  /** The path of `https://github.com/testuser/repo` gives "testuser". */
  lemma PathHandleExample()
    ensures PathHandle("/testuser/repo") == Some("testuser")
  {
    assert "/testuser/repo" == "" + "/" + "testuser" + "/repo";
    PathHandleOf("", "testuser", "/repo");
  }

  /** The handle, or the exception thrown by `new URL(referrer)`. */
  datatype Resolution = Resolved(handle: Option<string>) | ResolveThrew

  /** `url.searchParams.get('handle') || setGitHubHandle()`: a non-empty
      parameter is used as is and the Referer is not looked at; otherwise the
      Referer's path decides, whatever its host. */
  function ResolveHandle(req: Request): (r: Resolution)
    ensures Truthy(req.handleParam) ==> r == Resolved(req.handleParam)
    ensures r == ResolveThrew <==> !Truthy(req.handleParam) && req.referer.Unparsable?
    ensures r.Resolved? && r.handle.Some? ==> r.handle.value != ""
    ensures !Truthy(req.handleParam) && req.referer.Parsed? ==>
      forall x :: r == Resolved(Some(x)) <==> SecondSegment(req.referer.pathname, x)
    ensures !Truthy(req.handleParam) && req.referer.NoReferer? ==> r == Resolved(None)
  {
    if Truthy(req.handleParam) then Resolved(req.handleParam)
    else match req.referer
      case NoReferer => Resolved(None)
      case Unparsable(_) => ResolveThrew
      case Parsed(_, pathname) =>
        ResolveSpec(pathname);
        Resolved(PathHandle(pathname))
  }

  lemma ResolveSpec(pathname: string)
    ensures forall x :: PathHandle(pathname) == Some(x) <==> SecondSegment(pathname, x)
  {
    forall x
      ensures PathHandle(pathname) == Some(x) <==> SecondSegment(pathname, x)
    {
      PathHandleSpec(pathname, x);
    }
  }

  // ---------------------------------------------------------------------------
  // The decision chain
  // ---------------------------------------------------------------------------

  /** Which stage ended the request. */
  datatype Outcome =
    | MissingHandle
    | InvalidHandle(handle: string)
    | MissingRepo
    | MissingToken
    | IssueFetchFailed(statusText: string)
    | Scanned(verdict: IssueScan.Verdict)
    | Uncaught

  predicate AccountOk(gh: GitHubState, h: string) {
    GitHub.AccountExists(gh.account(UserUrl(h)))
  }

  predicate RepoOk(gh: GitHubState, h: string) {
    GitHub.ScanRepos(gh.repoPages(ReposUrl(h))).found
  }

  /** The handle `h` passed the handle, account, repository and token
      stages, so the issue list is fetched. */
  predicate ReachesIssues(req: Request, env: Env, gh: GitHubState, h: string) {
    ResolveHandle(req) == Resolved(Some(h)) && AccountOk(gh, h) && RepoOk(gh, h) && Truthy(env.token)
  }

  /** The stages in the handler's order: handle, account, repository, token,
      issue fetch, issue scan.  The first stage that fails alone decides. */
  function Decide(req: Request, env: Env, gh: GitHubState, recover: IssueScan.Recover): (o: Outcome)
    ensures o == MissingHandle <==> ResolveHandle(req) == Resolved(None)
    ensures forall h :: o == InvalidHandle(h) <==>
      ResolveHandle(req) == Resolved(Some(h)) && !AccountOk(gh, h)
    ensures o == MissingRepo <==>
      exists h :: ResolveHandle(req) == Resolved(Some(h)) && AccountOk(gh, h) && !RepoOk(gh, h)
    ensures o == MissingToken <==>
      exists h :: ResolveHandle(req) == Resolved(Some(h)) && AccountOk(gh, h) && RepoOk(gh, h)
        && !Truthy(env.token)
    ensures o == Uncaught <==>
      || ResolveHandle(req) == ResolveThrew
      || exists h :: ReachesIssues(req, env, gh, h) && gh.issues(IssuesUrl(h, RepoOf(req))).IssuesThrew?
    ensures forall t :: o == IssueFetchFailed(t) <==>
      exists h :: ReachesIssues(req, env, gh, h) && gh.issues(IssuesUrl(h, RepoOf(req))) == IssuesNotOk(t)
    ensures forall v :: o == Scanned(v) <==>
      exists h :: ReachesIssues(req, env, gh, h) && gh.issues(IssuesUrl(h, RepoOf(req))).IssuesOk?
        && v == IssueScan.ScanIssues(recover, gh.issues(IssuesUrl(h, RepoOf(req))).issues)
  {
    match ResolveHandle(req)
    case ResolveThrew => Uncaught
    case Resolved(None) => MissingHandle
    case Resolved(Some(h)) =>
      if !AccountOk(gh, h) then InvalidHandle(h)
      else if !RepoOk(gh, h) then MissingRepo
      else if !Truthy(env.token) then MissingToken
      else match gh.issues(IssuesUrl(h, RepoOf(req)))
        case IssuesThrew => Uncaught
        case IssuesNotOk(t) => IssueFetchFailed(t)
        case IssuesOk(issues) => Scanned(IssueScan.ScanIssues(recover, issues))
  }

  /** The `repo` parameter is only used in the issue-list URL: the account
      and repository checks, and their messages, ignore it. */
  lemma RepoOnlyNamesIssues(req: Request, r1: string, r2: string, env: Env,
                            gh1: GitHubState, gh2: GitHubState, recover: IssueScan.Recover)
    requires ResolveHandle(req).Resolved? && ResolveHandle(req).handle.Some?
    requires var h := ResolveHandle(req).handle.value;
      && gh1.account(UserUrl(h)) == gh2.account(UserUrl(h))
      && gh1.repoPages(ReposUrl(h)) == gh2.repoPages(ReposUrl(h))
      && gh1.issues(IssuesUrl(h, RepoOf(req.(repoParam := Some(r1)))))
         == gh2.issues(IssuesUrl(h, RepoOf(req.(repoParam := Some(r2)))))
    ensures Decide(req.(repoParam := Some(r1)), env, gh1, recover)
         == Decide(req.(repoParam := Some(r2)), env, gh2, recover)
  {
    assert ResolveHandle(req.(repoParam := Some(r1))) == ResolveHandle(req);
    assert ResolveHandle(req.(repoParam := Some(r2))) == ResolveHandle(req);
  }

  // ---------------------------------------------------------------------------
  // The response
  // ---------------------------------------------------------------------------

  /** The badge message, colour flag and requested status of each outcome
      that ends in `sendBadgeResponse`. */
  function Message(o: Outcome): string
    requires !o.Uncaught?
  {
    match o
    case MissingHandle => "missing handle"
    case InvalidHandle(h) => "invalid handle: " + h
    case MissingRepo => "missing repo ethbinder"
    case MissingToken => "missing github token"
    case IssueFetchFailed(t) => "issue fetch failed: " + t
    case Scanned(v) =>
      match v
      case Verified => "verified"
      case Failed => "failed"
      case NoIssue => "no issue found"
  }

  function RequestedStatus(o: Outcome): int
    requires !o.Uncaught?
  {
    match o
    case MissingHandle => 400
    case Scanned(v) =>
      (match v
       case Verified => 200
       case Failed => 400
       case NoIssue => 404)
    case _ => 500
  }

  function JsonOptions(status: int): Badge.Options {
    Badge.Options(status, [("Content-Type", "application/json")])
  }

  /** The badge message tells the outcomes apart: no two outcomes share a
      message, and the handle or status text can be read back from it. */
  lemma MessageInjective(o1: Outcome, o2: Outcome)
    requires !o1.Uncaught? && !o2.Uncaught?
    requires Message(o1) == Message(o2)
    ensures o1 == o2
  {
    var m := Message(o1);
    if o1.InvalidHandle? {
      assert m == "invalid handle: " + o1.handle && m[1] == 'n' && m[16..] == o1.handle;
    }
    if o2.InvalidHandle? {
      assert m == "invalid handle: " + o2.handle && m[1] == 'n' && m[16..] == o2.handle;
    }
    if o1.IssueFetchFailed? {
      assert m == "issue fetch failed: " + o1.statusText && m[1] == 's' && m[20..] == o1.statusText;
    }
    if o2.IssueFetchFailed? {
      assert m == "issue fetch failed: " + o2.statusText && m[1] == 's' && m[20..] == o2.statusText;
    }
  }

  /** The handler's reply.  On an issue-fetch failure the badge is red with
      the status text; the handler as written throws there instead (see
      `RenderAsWritten`). */
  function Render(o: Outcome, debug: bool, logs: seq<string>, now: string): (r: Badge.Reply)
    ensures r.Threw? <==> o.Uncaught?
    ensures r.Responded? ==>
      && r.response.status == 200
      && r.response.headers == Badge.NoCacheHeaders(now)
      && r.response.body.badge.schemaVersion == 1
      && r.response.body.badge.labelText == "ethbinder"
      && r.response.body.badge.cacheSeconds == 300
      && r.response.body.badge.message == Message(o)
      && (r.response.body.badge.color == Badge.Verified <==> o == Scanned(IssueScan.Verified))
      && (r.response.body.logs.Some? <==> debug)
  {
    if o.Uncaught? then Badge.Threw
    else
      Badge.SendBadgeResponse(Message(o), o == Scanned(IssueScan.Verified),
        Some(JsonOptions(RequestedStatus(o))), debug, logs, now)
  }

  /** The handler as written: the issue-fetch-failure call passes its options
      object in the `success` position (a truthy value) and no options, so
      `options.status = 200` throws. */
  function RenderAsWritten(o: Outcome, debug: bool, logs: seq<string>, now: string): (r: Badge.Reply)
    ensures r.Threw? <==> o.Uncaught? || o.IssueFetchFailed?
    ensures !o.IssueFetchFailed? ==> r == Render(o, debug, logs, now)
  {
    if o.IssueFetchFailed? then Badge.SendBadgeResponse(Message(o), true, None, debug, logs, now)
    else Render(o, debug, logs, now)
  }

  /** The handler with the issue-fetch failure repaired: that failure is
      answered with a red badge instead of a throw (`FetchAsWritten` is the
      handler as written).  `logs` are the debug lines collected on the way
      and `now` is the current date. */
  function Fetch(req: Request, env: Env, gh: GitHubState, recover: IssueScan.Recover,
                 logs: seq<string>, now: string): (r: Badge.Reply)
    ensures r.Threw? <==> Decide(req, env, gh, recover) == Uncaught
    ensures r.Responded? ==>
      && r.response.status == 200
      && r.response.body.badge.message == Message(Decide(req, env, gh, recover))
      && r.response.headers == Badge.NoCacheHeaders(now)
      && (r.response.body.badge.color == Badge.Verified
          <==> Decide(req, env, gh, recover) == Scanned(IssueScan.Verified))
      && (r.response.body.logs.Some? <==> DebugOf(req))
  {
    Render(Decide(req, env, gh, recover), DebugOf(req), logs, now)
  }

  function FetchAsWritten(req: Request, env: Env, gh: GitHubState, recover: IssueScan.Recover,
                          logs: seq<string>, now: string): (r: Badge.Reply)
    ensures r.Threw? <==> Decide(req, env, gh, recover).Uncaught? || Decide(req, env, gh, recover).IssueFetchFailed?
  {
    RenderAsWritten(Decide(req, env, gh, recover), DebugOf(req), logs, now)
  }

  /** Wherever the issue fetch fails, the handler as written throws and the
      corrected one answers with a badge naming the status text. */
  lemma IssueFetchFailureThrows(req: Request, env: Env, gh: GitHubState, recover: IssueScan.Recover,
                                logs: seq<string>, now: string)
    requires Decide(req, env, gh, recover).IssueFetchFailed?
    ensures FetchAsWritten(req, env, gh, recover, logs, now) == Badge.Threw
    ensures Fetch(req, env, gh, recover, logs, now).Responded?
    ensures Fetch(req, env, gh, recover, logs, now).response.body.badge.message
         == "issue fetch failed: " + Decide(req, env, gh, recover).statusText
  {
  }

  /** The failure is reachable: an existing account with the repository, a
      token, and a 403 from the issue list. */
  lemma IssueFetchFailureReachable()
    ensures var req := Request(Some("alice"), None, None, NoReferer);
      var gh := GitHubState(
        _ => GitHub.AccountStatus(200),
        _ => [GitHub.PageStatus(200, ["ethbinder"])],
        _ => IssuesNotOk("Forbidden"));
      Decide(req, Env(Some("token")), gh, (_, _) => None) == IssueFetchFailed("Forbidden")
  {
    var names := ["ethbinder"];
    assert Lower(names[0]) == GitHub.RepoName;
    assert GitHub.HasRepo(names);
  }
}
