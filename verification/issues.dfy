/** The issue scan inside the worker's `fetch` (packages/worker/src/index.ts:240-297):
    issues are visited in list order; each body is searched for its first
    ```` ```json ```` block, the block is parsed, and the first payload with all
    three fields decides the verdict by comparing the recovered signer with the
    claimed address up to case.  Everything else skips to the next issue. */
module IssueScan {
  import opened Base
  import opened Text
  import Fence
  import FlatJson

  /** An issue as the GitHub API lists it; only the body matters here. */
  datatype Issue = Issue(title: string, body: Option<string>)

  /** The three fields the worker requires, all non-empty. */
  datatype Payload = Payload(githubHandle: string, ethAddress: string, signature: string)

  /** `verifyMessage(message, signature)`: the recovered address, or `None`
      when it throws.  The cryptography behind it is not part of this model. */
  type Recover = (string, string) -> Option<string>

  /** What one issue (or the whole scan) says. */
  datatype Verdict = Verified | Failed | NoIssue

  /** `parsedPayload.githubHandle && parsedPayload.ethAddress && parsedPayload.signature`. */
  function Complete(obj: FlatJson.Object): (r: Option<Payload>)
    ensures r.Some? <==>
      && Truthy(FlatJson.Get(obj, "githubHandle"))
      && Truthy(FlatJson.Get(obj, "ethAddress"))
      && Truthy(FlatJson.Get(obj, "signature"))
    ensures r.Some? ==>
      && FlatJson.Get(obj, "githubHandle") == Some(r.value.githubHandle)
      && FlatJson.Get(obj, "ethAddress") == Some(r.value.ethAddress)
      && FlatJson.Get(obj, "signature") == Some(r.value.signature)
  {
    var h := FlatJson.Get(obj, "githubHandle");
    var a := FlatJson.Get(obj, "ethAddress");
    var s := FlatJson.Get(obj, "signature");
    if Truthy(h) && Truthy(a) && Truthy(s) then Some(Payload(h.value, a.value, s.value)) else None
  }

  /** The payload an issue body carries: a missing body, no fenced block, a
      block that does not parse or an incomplete object all give `None`. */
  function PayloadOf(body: Option<string>): Option<Payload>
  {
    match body
    case None => None
    case Some(text) =>
      match Fence.FirstJsonBlock(text)
      case None => None
      case Some(block) =>
        match FlatJson.Parse(block)
        case None => None
        case Some(obj) => Complete(obj)
  }

  /** A body whose first block parses to a complete object carries that
      object's payload. */
  lemma PayloadOfBlock(text: string, block: string, obj: FlatJson.Object, p: Payload)
    requires Fence.FirstJsonBlock(text) == Some(block)
    requires FlatJson.Parse(block) == Some(obj)
    requires Complete(obj) == Some(p)
    ensures PayloadOf(Some(text)) == Some(p)
  {
  }

  /** The verdict of one issue.  The signed message is the payload's own
      handle; a throwing recovery is caught and the issue is skipped. */
  function Judge(recover: Recover, issue: Issue): (v: Verdict)
    ensures v != NoIssue <==>
      PayloadOf(issue.body).Some? &&
      recover(PayloadOf(issue.body).value.githubHandle, PayloadOf(issue.body).value.signature).Some?
    ensures v == Verified <==>
      && PayloadOf(issue.body).Some?
      && var p := PayloadOf(issue.body).value;
         && recover(p.githubHandle, p.signature).Some?
         && EqualsIgnoreCase(recover(p.githubHandle, p.signature).value, p.ethAddress)
  {
    match PayloadOf(issue.body)
    case None => NoIssue
    case Some(p) =>
      match recover(p.githubHandle, p.signature)
      case None => NoIssue
      case Some(address) => if EqualsIgnoreCase(address, p.ethAddress) then Verified else Failed
  }

  /** The first verdict of a list of verdicts, `NoIssue` when there is none. */
  function FirstVerdict(vs: seq<Verdict>): (v: Verdict)
    ensures v == NoIssue <==> forall i | 0 <= i < |vs| :: vs[i] == NoIssue
    ensures v != NoIssue ==>
      exists i | 0 <= i < |vs| :: vs[i] == v && forall j | 0 <= j < i :: vs[j] == NoIssue
  {
    if |vs| == 0 then NoIssue
    else if vs[0] != NoIssue then vs[0]
    else
      var rest := FirstVerdict(vs[1..]);
      assert forall i | 1 <= i < |vs| :: vs[i] == vs[1..][i - 1];
      rest
  }

  /** `Judge` with the signature recovery fixed. */
  function JudgeWith(recover: Recover): Issue -> Verdict {
    issue => Judge(recover, issue)
  }

  /** The verdict of each issue, in list order. */
  function Verdicts(judge: Issue -> Verdict, issues: seq<Issue>): (vs: seq<Verdict>)
    ensures |vs| == |issues|
    ensures forall i | 0 <= i < |issues| :: vs[i] == judge(issues[i])
  {
    seq(|issues|, i requires 0 <= i < |issues| => judge(issues[i]))
  }

  /** The loop over the issue list: the first issue with a verdict decides. */
  function ScanIssues(recover: Recover, issues: seq<Issue>): (v: Verdict)
    ensures v == NoIssue <==> forall i | 0 <= i < |issues| :: Judge(recover, issues[i]) == NoIssue
    ensures v != NoIssue ==>
      exists i | 0 <= i < |issues| ::
        && Judge(recover, issues[i]) == v
        && forall j | 0 <= j < i :: Judge(recover, issues[j]) == NoIssue
  {
    FirstVerdict(Verdicts(JudgeWith(recover), issues))
  }

  /** The first issue with a verdict is the only one examined: whatever
      follows it does not matter, and issues without a verdict are passed over. */
  lemma {:induction false} ScanAppend(recover: Recover, xs: seq<Issue>, ys: seq<Issue>)
    ensures ScanIssues(recover, xs) != NoIssue ==> ScanIssues(recover, xs + ys) == ScanIssues(recover, xs)
    ensures ScanIssues(recover, xs) == NoIssue ==> ScanIssues(recover, xs + ys) == ScanIssues(recover, ys)
  {
    VerdictsAppend(JudgeWith(recover), xs, ys);
    FirstVerdictAppend(Verdicts(JudgeWith(recover), xs), Verdicts(JudgeWith(recover), ys));
  }

  lemma VerdictsAppend(judge: Issue -> Verdict, xs: seq<Issue>, ys: seq<Issue>)
    ensures Verdicts(judge, xs + ys) == Verdicts(judge, xs) + Verdicts(judge, ys)
  {
    var zs, vs := Verdicts(judge, xs + ys), Verdicts(judge, xs) + Verdicts(judge, ys);
    forall i | 0 <= i < |zs|
      ensures zs[i] == vs[i]
    {
      if i < |xs| {
        assert (xs + ys)[i] == xs[i];
      } else {
        assert (xs + ys)[i] == ys[i - |xs|];
      }
    }
  }

  lemma {:induction false} FirstVerdictAppend(vs: seq<Verdict>, ws: seq<Verdict>)
    ensures FirstVerdict(vs) != NoIssue ==> FirstVerdict(vs + ws) == FirstVerdict(vs)
    ensures FirstVerdict(vs) == NoIssue ==> FirstVerdict(vs + ws) == FirstVerdict(ws)
    decreases |vs|
  {
    if |vs| == 0 {
      assert vs + ws == ws;
    } else {
      assert (vs + ws)[0] == vs[0];
      assert (vs + ws)[1..] == vs[1..] + ws;
      FirstVerdictAppend(vs[1..], ws);
    }
  }

  /** The verdict is decided by the first issue that carries a complete
      payload with a recoverable signature, and it is `Verified` exactly when
      that issue's recovered signer equals its claimed address up to case. */
  lemma ScanDecidedBy(recover: Recover, issues: seq<Issue>, i: nat)
    requires i < |issues|
    requires forall j | 0 <= j < i :: Judge(recover, issues[j]) == NoIssue
    requires Judge(recover, issues[i]) != NoIssue
    ensures ScanIssues(recover, issues) == Judge(recover, issues[i])
  {
    var v := ScanIssues(recover, issues);
    assert v != NoIssue;
    var k :| 0 <= k < |issues| && Judge(recover, issues[k]) == v
      && forall j | 0 <= j < k :: Judge(recover, issues[j]) == NoIssue;
    assert !(k < i) && !(i < k);
  }
}
