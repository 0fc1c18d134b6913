/** The older badge worker (eth-verification-worker/src/index.ts): it takes
    the handle from the `handle` parameter or from a github.com Referer,
    fetches issue 1 of `{handle}/ethbinder`, and answers with a two-colour
    SVG badge reading "verified" or "failed".  Its signature check is a mock.
    As written the issue body is never read (see `HandleRequestAsWritten`);
    `HandleRequest` is the evidently intended handler. */
module LegacyWorker {
  import opened Base
  import opened Text
  import FlatJson

  /** The `handle` query parameter and the `Referer` header, `None` when
      absent. */
  datatype Request = Request(handleParam: Option<string>, referer: Option<string>)

  /** The reply to the issue request: `fetch` or `response.json()` threw, the
      status was not in the 2xx range, or the issue was read (its `body` may be
      `null`). */
  datatype IssueReply = IssueThrew | IssueNotOk | IssueOk(body: Option<string>)

  /** A plain-text response with its status, or an SVG badge (status 200,
      `content-type: image/svg+xml`) kept as the message and colour it is
      generated from; `Body` gives its text. */
  datatype Response = PlainText(status: int, text: string) | SvgBadge(message: string, color: string)

  const NotFromGitHub: string := "Request must come from a GitHub page or provide a handle."
  const NoHandle: string := "Unable to extract GitHub handle."
  const NoIssue: string := "Unable to fetch issue from GitHub."

  // ---------------------------------------------------------------------------
  // The handle: the parameter, or the Referer through /github\.com\/([^\/]+)\//
  // ---------------------------------------------------------------------------

  /** The text the pattern looks for before the captured run. */
  const Host: string := "github.com/"

  /** The pattern matches at `p` with a run of `k` characters: `github.com/`
      at `p`, then `k >= 1` characters none of which is `/`, then a `/`. */
  ghost predicate MatchesAt(s: string, p: int, k: int) {
    && OccursAt(s, Host, p)
    && k >= 1
    && p + |Host| + k < |s|
    && '/' !in s[p + |Host|..p + |Host| + k]
    && s[p + |Host| + k] == '/'
  }

  /** The end of the run of non-`/` characters starting at `i`. */
  function RunEnd(s: string, i: nat): (j: nat)
    requires i <= |s|
    ensures i <= j <= |s|
    ensures '/' !in s[i..j]
    ensures j == |s| || s[j] == '/'
    decreases |s| - i
  {
    if i == |s| || s[i] == '/' then i
    else
      var j := RunEnd(s, i + 1);
      assert s[i..j] == [s[i]] + s[i + 1..j];
      j
  }

  /** The first match at or after `p`, and its capture. */
  function MatchFrom(s: string, p: nat): Option<(nat, string)>
    decreases |s| - p
  {
    if p + |Host| > |s| then None
    else if OccursAt(s, Host, p) && p + |Host| < RunEnd(s, p + |Host|) < |s| then
      Some((p, s[p + |Host|..RunEnd(s, p + |Host|)]))
    else MatchFrom(s, p + 1)
  }

  /** `referer.match(/github\.com\/([^\/]+)\//)`, reduced to its capture
      group.  The group is greedy and must be followed by `/`, so at a given
      position there is at most one run length that matches. */
  function ExtractHandle(referer: string): (r: Option<string>)
  {
    match MatchFrom(referer, 0)
    case None => None
    case Some((_, h)) => Some(h)
  }

  lemma MatchAtUnique(s: string, p: int, k: int, k': int)
    requires MatchesAt(s, p, k) && MatchesAt(s, p, k')
    ensures k == k'
  {
  }

  lemma MatchFromSpec(s: string, p0: nat)
    ensures MatchFrom(s, p0).None? <==> forall p, k | p0 <= p :: !MatchesAt(s, p, k)
    ensures forall p, h :: MatchFrom(s, p0) == Some((p, h)) <==>
      p0 <= p && MatchesAt(s, p, |h|) && s[p + |Host|..p + |Host| + |h|] == h
      && forall q, k | p0 <= q < p :: !MatchesAt(s, q, k)
    decreases |s| - p0
  {
    var i := p0 + |Host|;
    if p0 + |Host| > |s| {
      forall p, k | p0 <= p
        ensures !MatchesAt(s, p, k)
      {
      }
    } else if OccursAt(s, Host, p0) && p0 + |Host| < RunEnd(s, i) < |s| {
      var j := RunEnd(s, i);
      assert MatchesAt(s, p0, j - i);
      forall p, h
        ensures MatchFrom(s, p0) == Some((p, h)) <==>
          p0 <= p && MatchesAt(s, p, |h|) && s[p + |Host|..p + |Host| + |h|] == h
          && forall q, k | p0 <= q < p :: !MatchesAt(s, q, k)
      {
        if p0 <= p && MatchesAt(s, p, |h|) && s[p + |Host|..p + |Host| + |h|] == h
           && forall q, k | p0 <= q < p :: !MatchesAt(s, q, k) {
          assert p == p0;
          MatchAtUnique(s, p0, |h|, j - i);
        }
      }
    } else {
      var j := RunEnd(s, i);
      forall k
        ensures !MatchesAt(s, p0, k)
      {
      }
      MatchFromSpec(s, p0 + 1);
    }
  }

  /** The capture is the run after the first position at which the whole
      pattern matches; there is none when no position matches. */
  lemma ExtractHandleSpec(referer: string)
    ensures ExtractHandle(referer).None? <==> forall p, k :: !MatchesAt(referer, p, k)
    ensures forall h :: ExtractHandle(referer) == Some(h) <==> FirstCapture(referer, h)
  {
    MatchFromSpec(referer, 0);
    forall h
      ensures ExtractHandle(referer) == Some(h) <==> FirstCapture(referer, h)
    {
      ExtractHandleIs(referer, h);
    }
  }

  /** `h` is the capture at the first position where the pattern matches. */
  ghost predicate FirstCapture(s: string, h: string) {
    exists p :: && MatchesAt(s, p, |h|)
                && s[p + |Host|..p + |Host| + |h|] == h
                && forall q, k | 0 <= q < p :: !MatchesAt(s, q, k)
  }

  lemma ExtractHandleIs(referer: string, h: string)
    ensures ExtractHandle(referer) == Some(h) <==> FirstCapture(referer, h)
  {
    MatchFromSpec(referer, 0);
    if ExtractHandle(referer) == Some(h) {
      var p :| MatchFrom(referer, 0) == Some((p, h));
      assert MatchesAt(referer, p, |h|);
    }
    if FirstCapture(referer, h) {
      var p :| && MatchesAt(referer, p, |h|)
               && referer[p + |Host|..p + |Host| + |h|] == h
               && forall q, k | 0 <= q < p :: !MatchesAt(referer, q, k);
      assert MatchFrom(referer, 0) == Some((p, h));
    }
  }

  /** A Referer of the form `{pre}github.com/{h}/{post}`, where `pre` cannot
      hold the pattern's first letter, yields `h`. */
  lemma ExtractHandleOf(pre: string, h: string, post: string)
    requires 'g' !in pre && h != "" && '/' !in h
    ensures ExtractHandle(pre + Host + h + "/" + post) == Some(h)
  {
    var s := pre + Host + h + "/" + post;
    var p := |pre|;
    assert s[p..p + |Host|] == Host;
    assert s[p + |Host|..p + |Host| + |h|] == h;
    assert s[p + |Host| + |h|] == '/';
    assert MatchesAt(s, p, |h|);
    forall q, k | 0 <= q < p
      ensures !MatchesAt(s, q, k)
    {
      assert s[q] == pre[q];
    }
    ExtractHandleSpec(s);
  }

  /** A Referer that ends in the handle, with no `/` after it, yields
      nothing: `https://github.com/alice` is refused. */
  lemma ExtractHandleOfBare(pre: string, h: string)
    requires 'g' !in pre && '/' !in h
    ensures ExtractHandle(pre + Host + h) == None
  {
    var s := pre + Host + h;
    forall p, k
      ensures !MatchesAt(s, p, k)
    {
      if 0 <= p < |pre| {
        assert s[p] == pre[p];
      }
    }
    ExtractHandleSpec(s);
  }

  /** The outcome of the handle step: a handle, or the 400 response. */
  datatype Resolution = Handle(name: string) | Refused(response: Response)

  /** Lines 7-21: a truthy `handle` parameter wins; otherwise the Referer must
      contain `github.com` and the pattern must match, each failure answering
      400 with its own text. */
  function ResolveHandle(req: Request): (r: Resolution)
    ensures Truthy(req.handleParam) ==> r == Handle(req.handleParam.value)
    ensures !Truthy(req.handleParam) && (!Truthy(req.referer) || !Includes(req.referer.value, "github.com")) ==>
      r == Refused(PlainText(400, NotFromGitHub))
    ensures !Truthy(req.handleParam) && Truthy(req.referer) && Includes(req.referer.value, "github.com") ==>
      && (r == Refused(PlainText(400, NoHandle)) <==> ExtractHandle(req.referer.value).None?)
      && (forall h :: r == Handle(h) <==> ExtractHandle(req.referer.value) == Some(h))
    ensures r.Handle? ==> r.name != ""
  {
    if Truthy(req.handleParam) then Handle(req.handleParam.value)
    else if !Truthy(req.referer) || !Includes(req.referer.value, "github.com") then
      Refused(PlainText(400, NotFromGitHub))
    else
      ExtractedHandleNonEmpty(req.referer.value);
      match ExtractHandle(req.referer.value)
      case None => Refused(PlainText(400, NoHandle))
      case Some(h) => Handle(h)
  }

  /** The extracted handle is never empty, so it always counts as truthy. */
  lemma ExtractedHandleNonEmpty(referer: string)
    ensures ExtractHandle(referer).Some? ==> ExtractHandle(referer).value != ""
  {
    ExtractHandleSpec(referer);
  }

  /** With a truthy `handle` parameter the Referer is never consulted. */
  lemma HandleParamWins(h: string, referer: Option<string>, referer': Option<string>)
    requires h != ""
    ensures ResolveHandle(Request(Some(h), referer)) == ResolveHandle(Request(Some(h), referer'))
    ensures ResolveHandle(Request(Some(h), referer)) == Handle(h)
  {
  }

  // ---------------------------------------------------------------------------
  // The badge
  // ---------------------------------------------------------------------------

  const Green: string := "51D06A"
  const Red: string := "E74C3C"

  /** `verifySignature`, the mock of lines 48-52: true exactly when the
      address is the literal `0x123` (an absent address is `undefined`, which
      is not). */
  function VerifySignature(githubHandle: string, ethAddress: Option<string>, signature: Option<string>): (ok: bool)
  {
    ethAddress == Some("0x123")
  }

  /** The mock looks at nothing but the address, accepts `0x123` and
      rejects every other address, even one differing only in case. */
  lemma VerifySignatureSpec(h: string, h': string, a: Option<string>, s: Option<string>, s': Option<string>)
    ensures VerifySignature(h, a, s) == VerifySignature(h', a, s')
    ensures VerifySignature(h, Some("0x123"), s)
    ensures a != Some("0x123") ==> !VerifySignature(h, a, s)
    ensures VerifySignature(h, a, s) ==> a.Some? && |a.value| == 5 && a.value[0] == '0' && a.value[1] == 'x'
    ensures !VerifySignature(h, Some("0X123"), s)
  {
  }

  /** The SVG template of lines 54-63 around the colour and the message. */
  const SvgHead: string :=
    "\n    <svg xmlns=\"http://www.w3.org/2000/svg\" width=\"100\" height=\"20\">"
    + "\n      <rect width=\"100\" height=\"20\" fill=\"#555\"/>"
    + "\n      <rect x=\"50\" width=\"50\" height=\"20\" fill=\"#"
  const SvgMid: string :=
    "\"/>"
    + "\n      <text x=\"25\" y=\"14\" fill=\"#fff\" font-family=\"Verdana\" font-size=\"11\">eth</text>"
    + "\n      <text x=\"65\" y=\"14\" fill=\"#fff\" font-family=\"Verdana\" font-size=\"11\">"
  const SvgTail: string := "</text>" + "\n    </svg>\n  "

  /** `generateBadge(message, color)`. */
  function GenerateBadge(message: string, color: string): string {
    SvgHead + color + SvgMid + message + SvgTail
  }

  /** Reads a colour and a message back out of a text framed by `head`, `mid`
      and `tail`: the colour runs to the first `"`, the message to the first
      `<`. */
  function ReadFramed(s: string, head: string, mid: string, tail: string): Option<(string, string)> {
    if |s| < |head| || s[..|head|] != head then None
    else
      var rest := s[|head|..];
      if '"' !in rest then None
      else
        var i := IndexOf(rest, '"');
        var after := rest[i..];
        if |after| < |mid| || after[..|mid|] != mid then None
        else
          var more := after[|mid|..];
          if '<' !in more then None
          else
            var j := IndexOf(more, '<');
            if more[j..] != tail then None
            else Some((more[..j], rest[..i]))
  }

  /** The message and the colour of a badge, if the text is one. */
  function ReadBadge(svg: string): Option<(string, string)> {
    ReadFramed(svg, SvgHead, SvgMid, SvgTail)
  }

  /** The first `c` in `a + b` is the one that starts `b`, when `a` has
      none. */
  lemma IndexOfJoin(a: string, b: string, c: char)
    requires c !in a && |b| > 0 && b[0] == c
    ensures c in a + b && IndexOf(a + b, c) == |a|
  {
    var s := a + b;
    assert s[|a|] == c;
    var i := IndexOf(s, c);
    assert s[..|a|] == a;
  }

  lemma ReadFramedOf(head: string, color: string, mid: string, message: string, tail: string)
    requires '"' !in color && |mid| > 0 && mid[0] == '"'
    requires '<' !in message && |tail| > 0 && tail[0] == '<'
    ensures ReadFramed(head + color + mid + message + tail, head, mid, tail) == Some((message, color))
  {
    var s := head + color + mid + message + tail;
    assert s[..|head|] == head;
    var rest := s[|head|..];
    assert rest == color + (mid + message + tail);
    IndexOfJoin(color, mid + message + tail, '"');
    assert rest[..|color|] == color;
    var after := rest[|color|..];
    assert after == mid + message + tail;
    assert after[..|mid|] == mid;
    var more := after[|mid|..];
    assert more == message + tail;
    IndexOfJoin(message, tail, '<');
    assert more[..|message|] == message;
    assert more[|message|..] == tail;
  }

  /** The badge carries its colour and message verbatim: they can be read
      back, as long as the colour holds no `"` and the message no `<`. */
  lemma ReadGenerated(message: string, color: string)
    requires '"' !in color && '<' !in message
    ensures ReadBadge(GenerateBadge(message, color)) == Some((message, color))
  {
    assert SvgMid[0] == '"';
    assert SvgTail[0] == '<';
    ReadFramedOf(SvgHead, color, SvgMid, message, SvgTail);
  }

  /** Two badges are the same text only when they carry the same colour and
      message. */
  lemma GenerateBadgeInjective(m1: string, c1: string, m2: string, c2: string)
    requires '"' !in c1 && '<' !in m1 && '"' !in c2 && '<' !in m2
    ensures GenerateBadge(m1, c1) == GenerateBadge(m2, c2) <==> m1 == m2 && c1 == c2
  {
    ReadGenerated(m1, c1);
    ReadGenerated(m2, c2);
  }

  /** The text of a response. */
  function Body(r: Response): string {
    match r
    case PlainText(_, text) => text
    case SvgBadge(message, color) => GenerateBadge(message, color)
  }

  /** The badge for a verdict, as lines 32-35 choose it: the colour from the
      verdict, the message from the colour. */
  function Badge(verified: bool): (r: Response)
  {
    var color := if verified then Green else Red;
    var message := if color == Green then "verified" else "failed";
    SvgBadge(message, color)
  }

  /** The message reads "verified" exactly when the colour is green, which is
      exactly when the verdict is true; and the text carries both. */
  lemma BadgeSpec(verified: bool)
    ensures Badge(verified).color == Green <==> verified
    ensures Badge(verified).message == "verified" <==> Badge(verified).color == Green
    ensures Badge(verified).message == "failed" <==> Badge(verified).color == Red
    ensures ReadBadge(Body(Badge(verified))) == Some((Badge(verified).message, Badge(verified).color))
  {
    if verified {
      ReadGenerated("verified", Green);
    } else {
      ReadGenerated("failed", Red);
    }
  }

  // ---------------------------------------------------------------------------
  // handleRequest
  // ---------------------------------------------------------------------------

  function IssueUrl(githubHandle: string): string {
    "https://api.github.com/repos/" + githubHandle + "/ethbinder/issues/1"
  }

  /** `handleRequest` as written.  Line 30 parses `response.json().body`,
      the `body` property of a promise, which is `undefined`; `JSON.parse`
      then throws and the handler catches it, so a fetched issue always gets
      the failed badge, whatever it says. */
  function HandleRequestAsWritten(req: Request, issues: string -> IssueReply): (r: Response)
  {
    match ResolveHandle(req)
    case Refused(response) => response
    case Handle(h) =>
      match issues(IssueUrl(h))
      case IssueNotOk => PlainText(500, NoIssue)
      case IssueThrew => Badge(false)
      case IssueOk(_) => Badge(false)
  }

  /** The address the intended line 30 reads: `JSON.parse` of the issue
      body, then its `ethAddress` member.  A `null` body parses to `null`, and
      destructuring it throws; so does a body that is not JSON.  Both end in
      the catch block, as `None` does here. */
  function ClaimedAddress(body: Option<string>): (r: Option<Option<string>>)
  {
    match body
    case None => None
    case Some(text) =>
      match FlatJson.Parse(text)
      case None => None
      case Some(obj) => Some(FlatJson.Get(obj, "ethAddress"))
  }

  /** `handleRequest` with line 30 reading the issue's body, as evidently
      intended: the badge is verified exactly when the body is a JSON object
      whose `ethAddress` is `0x123`. */
  function HandleRequest(req: Request, issues: string -> IssueReply): (r: Response)
    ensures r.PlainText? <==>
      ResolveHandle(req).Refused? || issues(IssueUrl(ResolveHandle(req).name)) == IssueNotOk
    ensures ResolveHandle(req).Refused? ==> r == ResolveHandle(req).response
    ensures ResolveHandle(req).Handle? && issues(IssueUrl(ResolveHandle(req).name)) == IssueNotOk ==>
      r == PlainText(500, NoIssue)
    ensures r.SvgBadge? ==> r == Badge(true) || r == Badge(false)
    ensures r == Badge(true) <==>
      && ResolveHandle(req).Handle?
      && issues(IssueUrl(ResolveHandle(req).name)).IssueOk?
      && ClaimedAddress(issues(IssueUrl(ResolveHandle(req).name)).body) == Some(Some("0x123"))
  {
    match ResolveHandle(req)
    case Refused(response) => response
    case Handle(h) =>
      match issues(IssueUrl(h))
      case IssueNotOk => PlainText(500, NoIssue)
      case IssueThrew => Badge(false)
      case IssueOk(body) =>
        match ClaimedAddress(body)
        case None => Badge(false)
        case Some(address) => Badge(VerifySignature(h, address, None))
  }

  /** As written, the handler never answers with the verified badge; in every
      other case it agrees with the intended handler. */
  lemma AsWrittenNeverVerifies(req: Request, issues: string -> IssueReply)
    ensures HandleRequestAsWritten(req, issues) != Badge(true)
    ensures HandleRequest(req, issues) != Badge(true) ==>
      HandleRequestAsWritten(req, issues) == HandleRequest(req, issues)
  {
  }

  /** The request that shows the difference: handle `alice`, and issue 1
      holding `{"ethAddress": "0x123"}`.  The intended handler answers
      verified; the handler as written answers failed. */
  lemma AsWrittenIgnoresIssue()
    ensures var body := FlatJson.Render([("ethAddress", "0x123")]);
      var issues := (u: string) => IssueOk(Some(body));
      && HandleRequest(Request(Some("alice"), None), issues) == Badge(true)
      && HandleRequestAsWritten(Request(Some("alice"), None), issues) == Badge(false)
  {
    RenderedAddress();
  }

  /** The body `{"ethAddress": "0x123"}` claims the address `0x123`. */
  lemma RenderedAddress()
    ensures ClaimedAddress(Some(FlatJson.Render([("ethAddress", "0x123")]))) == Some(Some("0x123"))
  {
    var ms := [("ethAddress", "0x123")];
    assert FlatJson.PlainMembers(ms) by {
      assert FlatJson.AllPlain(ms[0].0) && FlatJson.AllPlain(ms[0].1);
    }
    FlatJson.ParseRender(ms, "");
    assert FlatJson.Render(ms) + "" == FlatJson.Render(ms);
    assert FlatJson.Get(ms, "ethAddress") == Some("0x123");
  }
}
