/** The site's issue generator (packages/site/src/hooks/useGitHubIssueGenerator.tsx):
    `constructIssueBody` writes the Markdown issue body holding the signed
    payload in a ```` ```json ```` block, and `generateIssueUrl` builds the
    "new issue" link for the user's fork of the ethbinder repository.
    The main property is that the worker's extractor reads back exactly the
    three values the generator wrote. */
module IssueGenerator {
  import opened Base
  import opened Text
  import Fence
  import FlatJson
  import Percent
  import IssueScan

  // ---------------------------------------------------------------------------
  // The template text before the payload (lines 9-15), in short pieces
  // ---------------------------------------------------------------------------

  // The paragraphs are cut into pieces of a few words because the verifier
  // checks a string literal for a backquote character by character, and a
  // whole paragraph in one literal is too costly to check at once.

  const Heading: string := "\n### Ethereum Signature Verification\n\n"
  const Lead1: string := "The following **GitHub handle** has been "
  const Lead2: string := "signed and can be verified. This "
  const Lead3: string := "signature confirms the association "
  const Lead4: string := "between the GitHub handle and the "
  const Lead5: string := "provided Ethereum address.\n\n"
  const Steps1: string := "To verify the signature, please follow "
  const Steps2: string := "the [verification steps](https://"
  const Steps3: string := "ethbinder.io/repo#verification-steps) "
  const Steps4: string := "in the README file.\n\n"

  function Intro(): string {
    Heading + Lead1 + Lead2 + Lead3 + Lead4 + Lead5 + Steps1 + Steps2 + Steps3 + Steps4
  }

  lemma HeadingHasNoBackquote()
    ensures '`' !in Heading
  {
  }

  lemma LeadStartHasNoBackquote()
    ensures '`' !in Lead1 && '`' !in Lead2
  {
  }

  lemma LeadMiddleHasNoBackquote()
    ensures '`' !in Lead3 && '`' !in Lead4
  {
  }

  lemma LeadEndHasNoBackquote()
    ensures '`' !in Lead5
  {
  }

  lemma StepsStartHasNoBackquote()
    ensures '`' !in Steps1 && '`' !in Steps2
  {
  }

  lemma StepsEndHasNoBackquote()
    ensures '`' !in Steps3 && '`' !in Steps4
  {
  }

  /** The text before the payload holds no backquote, so no fence can start
      in it. */
  lemma IntroHasNoBackquote()
    ensures '`' !in Intro()
  {
    HeadingHasNoBackquote();
    LeadStartHasNoBackquote();
    LeadMiddleHasNoBackquote();
    LeadEndHasNoBackquote();
    StepsStartHasNoBackquote();
    StepsEndHasNoBackquote();
  }

  // ---------------------------------------------------------------------------
  // constructIssueBody and generateIssueUrl
  // ---------------------------------------------------------------------------

  /** The two shields.io badge links of lines 5-6; they differ only in the
      text and colour of the right half. */
  const BadgeBase: string := "https://img.shields.io/badge/eth-"
  const BadgeQuery: string := "?logo=ethereum&labelColor=5177D0"
  const VerifiedUrl: string := BadgeBase + "verified-51D06A" + BadgeQuery
  const FailedUrl: string := BadgeBase + "failed-E74C3C" + BadgeQuery

  /** The links as they are written into the body, through
      `encodeURIComponent`. */

  function VerifiedBadge(): string {
    Percent.EncodeURIComponent(VerifiedUrl)
  }

  function FailedBadge(): string {
    Percent.EncodeURIComponent(FailedUrl)
  }

  /** The text after the closing fence (lines 23-41); the handle and the
      address appear again in the note. */
  const Download: string := "\n\nYou can download and run the verification script from [here](https://ethbinder.io/verifier/verify-signature.sh).\n\n"
  const Howto: string := "**Steps for Verification**:\n1. Copy the JSON payload above.\n2. Follow the instructions in the README to verify the signature.\n\n"
  const Note1: string := "**Note**: Only the **GitHub handle** ("
  const Note2: string := ") has been signed. The Ethereum address ("
  const Note3: string := ") is provided for reference.\n\n### Verification Status\n\n"
  const Pass: string := "If the signature verification passes, the badge will reflect the success:\n\n"
  const PassImg: string := "![Verified Badge](https://img.shields.io/endpoint?url="
  const Fail: string := ")\n\nIf the signature verification fails, the badge will be updated to show the failure:\n\n"
  const FailImg: string := "![Failed Badge](https://img.shields.io/endpoint?url="
  const End: string := ")\n    "
  function Outro(githubHandle: string, ethAddress: string): string {
    Download + Howto + Note1 + githubHandle + Note2 + ethAddress + Note3 + Pass + PassImg + VerifiedBadge() + Fail + FailImg + FailedBadge() + End
  }

  /** The payload block of lines 16-22: the opening tag and a line break, the
      object with one member per line, a line break and the closing fence.
      The values are put between double quotes as they are, without escaping. */
  function PayloadBlock(githubHandle: string, ethAddress: string, signature: string): string {
    Fence.Open + "\n"
    + "{\n  " + FlatJson.Quote("githubHandle") + ": " + FlatJson.Quote(githubHandle)
    + ",\n  " + FlatJson.Quote("ethAddress") + ": " + FlatJson.Quote(ethAddress)
    + ",\n  " + FlatJson.Quote("signature") + ": " + FlatJson.Quote(signature)
    + "\n}"
    + "\n" + Fence.Close
  }

  /** `constructIssueBody({ githubHandle, ethAddress, signature })`. */
  function ConstructIssueBody(githubHandle: string, ethAddress: string, signature: string): string {
    Intro() + PayloadBlock(githubHandle, ethAddress, signature) + Outro(githubHandle, ethAddress)
  }

  /** The repository the link opens an issue in; the same name the worker
      falls back to when it is given no `repo` parameter. */
  const Repo: string := "ethbinder"

  function IssueUrlPrefix(githubHandle: string): string {
    "https://github.com/" + githubHandle + "/" + Repo
    + "/issues/new?title=Ethereum%20Signature%20Verification&body="
  }

  /** `generateIssueUrl(githubHandle, ethAddress, signature)`: the link to a
      new issue in `{githubHandle}/ethbinder` whose `body` query value is the
      encoded issue body.  That value holds nothing that could end it early,
      and decoding it gives the body back. */
  function GenerateIssueUrl(githubHandle: string, ethAddress: string, signature: string): (url: string)
    ensures exists value ::
      && url == IssueUrlPrefix(githubHandle) + value
      && Percent.IsEncoded(value)
      && '&' !in value && '#' !in value && '+' !in value
      && Percent.DecodeURIComponent(value) == Some(ConstructIssueBody(githubHandle, ethAddress, signature))
  {
    var body := ConstructIssueBody(githubHandle, ethAddress, signature);
    var value := Percent.EncodeURIComponent(body);
    Percent.EncodedIsQueryValue(value);
    Percent.DecodeEncode(body);
    IssueUrlPrefix(githubHandle) + value
  }

  // ---------------------------------------------------------------------------
  // The worker reads back what the generator wrote
  // ---------------------------------------------------------------------------

  /** A value the worker can read back: a non-empty string (the worker's
      truthiness test) of characters JSON allows unescaped, with no
      backquote (which would end the fenced block early). */
  predicate Readable(v: string) {
    v != "" && FlatJson.AllPlain(v) && '`' !in v
  }

  function Members(githubHandle: string, ethAddress: string, signature: string): seq<(string, string)> {
    [("githubHandle", githubHandle), ("ethAddress", ethAddress), ("signature", signature)]
  }

  lemma RegroupBlock(open: string, nl: string, lb: string, a1: string, colon: string, b1: string, comma: string,
                a2: string, b2: string, a3: string, b3: string, rb: string, close: string)
    ensures open + nl + lb + a1 + colon + b1 + comma + a2 + colon + b2 + comma + a3 + colon + b3 + rb + nl + close
         == open + nl + (lb + (a1 + colon + b1 + (comma + (a2 + colon + b2 + (comma + (a3 + colon + b3 + "")))))
            + rb) + nl + close
  {
  }

  /** The object in the payload block is the JSON rendering of the three
      members, keys in the order `githubHandle`, `ethAddress`, `signature`. */
  lemma PayloadIsRendering(githubHandle: string, ethAddress: string, signature: string)
    ensures PayloadBlock(githubHandle, ethAddress, signature)
         == Fence.Open + "\n" + FlatJson.Render(Members(githubHandle, ethAddress, signature)) + "\n" + Fence.Close
  {
    var ms := Members(githubHandle, ethAddress, signature);
    var q1, q2, q3 := FlatJson.Quote("githubHandle"), FlatJson.Quote("ethAddress"), FlatJson.Quote("signature");
    var v1, v2, v3 := FlatJson.Quote(githubHandle), FlatJson.Quote(ethAddress), FlatJson.Quote(signature);
    assert ms[1..] == [("ethAddress", ethAddress), ("signature", signature)];
    assert ms[1..][1..] == [("signature", signature)];
    assert FlatJson.Items(ms[1..][1..]) == q3 + ": " + v3 + "";
    assert FlatJson.Items(ms[1..]) == q2 + ": " + v2 + (",\n  " + (q3 + ": " + v3 + ""));
    assert FlatJson.Items(ms) == q1 + ": " + v1 + (",\n  " + (q2 + ": " + v2 + (",\n  " + (q3 + ": " + v3 + ""))));
    RegroupBlock(Fence.Open, "\n", "{\n  ", q1, ": ", v1, ",\n  ", q2, v2, q3, v3, "\n}", Fence.Close);
  }

  lemma MembersPlain(githubHandle: string, ethAddress: string, signature: string)
    requires Readable(githubHandle) && Readable(ethAddress) && Readable(signature)
    ensures FlatJson.PlainMembers(Members(githubHandle, ethAddress, signature))
  {
    var ms := Members(githubHandle, ethAddress, signature);
    assert FlatJson.AllPlain("githubHandle") && FlatJson.AllPlain("ethAddress") && FlatJson.AllPlain("signature");
    assert forall i | 0 <= i < |ms| :: FlatJson.AllPlain(ms[i].0) && FlatJson.AllPlain(ms[i].1);
  }

  lemma {:induction false} ItemsHaveNoBackquote(ms: seq<(string, string)>)
    requires |ms| >= 1
    requires forall i | 0 <= i < |ms| :: '`' !in ms[i].0 && '`' !in ms[i].1
    ensures '`' !in FlatJson.Items(ms)
    decreases |ms|
  {
    if |ms| > 1 {
      ItemsHaveNoBackquote(ms[1..]);
    }
  }

  lemma RenderHasNoBackquote(githubHandle: string, ethAddress: string, signature: string)
    requires '`' !in githubHandle && '`' !in ethAddress && '`' !in signature
    ensures '`' !in FlatJson.Render(Members(githubHandle, ethAddress, signature)) + "\n"
  {
    var ms := Members(githubHandle, ethAddress, signature);
    assert '`' !in "githubHandle" && '`' !in "ethAddress" && '`' !in "signature";
    ItemsHaveNoBackquote(ms);
  }

  lemma RegroupBody(pre: string, open: string, nl: string, json: string, close: string, post: string)
    ensures pre + (open + nl + json + nl + close) + post == pre + open + nl + (json + nl) + close + post
  {
  }

  /** The worker's fence search finds the generator's block behind any text
      without a backquote, whatever text follows it, and its capture group is
      the rendered object with the line break after it. */
  lemma BlockFoundBehind(pre: string, githubHandle: string, ethAddress: string, signature: string, post: string)
    requires '`' !in pre
    requires '`' !in githubHandle && '`' !in ethAddress && '`' !in signature
    ensures Fence.FirstJsonBlock(pre + PayloadBlock(githubHandle, ethAddress, signature) + post)
         == Some(FlatJson.Render(Members(githubHandle, ethAddress, signature)) + "\n")
  {
    var rendered := FlatJson.Render(Members(githubHandle, ethAddress, signature));
    var json := rendered + "\n";
    PayloadIsRendering(githubHandle, ethAddress, signature);
    RegroupBody(pre, Fence.Open, "\n", rendered, Fence.Close, post);
    RenderHasNoBackquote(githubHandle, ethAddress, signature);
    assert json[0] == '{';
    Fence.FirstJsonBlockOfFenced(pre, '\n', json, post);
  }

  /** The object reads back as the three members, and they pass the worker's
      completeness test. */
  lemma BlockParsed(githubHandle: string, ethAddress: string, signature: string)
    requires Readable(githubHandle) && Readable(ethAddress) && Readable(signature)
    ensures var ms := Members(githubHandle, ethAddress, signature);
      && FlatJson.Parse(FlatJson.Render(ms) + "\n") == Some(ms)
      && IssueScan.Complete(ms) == Some(IssueScan.Payload(githubHandle, ethAddress, signature))
  {
    var ms := Members(githubHandle, ethAddress, signature);
    MembersPlain(githubHandle, ethAddress, signature);
    FlatJson.ParseRender(ms, "\n");
    assert ms[..2] == [("githubHandle", githubHandle), ("ethAddress", ethAddress)];
    assert ms[..2][..1] == [("githubHandle", githubHandle)];
    assert |"signature"| != |"githubHandle"| && |"ethAddress"| != |"githubHandle"| && |"signature"| != |"ethAddress"|;
    assert FlatJson.Get(ms, "githubHandle") == FlatJson.Get(ms[..2], "githubHandle");
    assert FlatJson.Get(ms[..2], "githubHandle") == FlatJson.Get(ms[..2][..1], "githubHandle");
    assert FlatJson.Get(ms, "ethAddress") == FlatJson.Get(ms[..2], "ethAddress");
    assert FlatJson.Get(ms, "githubHandle") == Some(githubHandle);
    assert FlatJson.Get(ms, "ethAddress") == Some(ethAddress);
    assert FlatJson.Get(ms, "signature") == Some(signature);
  }

  /** The payload block read back wherever it stands after text without a
      backquote: the worker finds it, parses it and accepts it as a complete
      payload carrying exactly the three values. */
  lemma PayloadReadBack(pre: string, githubHandle: string, ethAddress: string, signature: string, post: string)
    requires '`' !in pre
    requires Readable(githubHandle) && Readable(ethAddress) && Readable(signature)
    ensures IssueScan.PayloadOf(Some(pre + PayloadBlock(githubHandle, ethAddress, signature) + post))
         == Some(IssueScan.Payload(githubHandle, ethAddress, signature))
  {
    var ms := Members(githubHandle, ethAddress, signature);
    BlockFoundBehind(pre, githubHandle, ethAddress, signature, post);
    BlockParsed(githubHandle, ethAddress, signature);
    IssueScan.PayloadOfBlock(pre + PayloadBlock(githubHandle, ethAddress, signature) + post, FlatJson.Render(ms) + "\n",
                             ms, IssueScan.Payload(githubHandle, ethAddress, signature));
  }

  /** Round trip: the worker reads back from the generated issue body exactly
      the three values the generator wrote. */
  lemma PayloadRoundTrip(githubHandle: string, ethAddress: string, signature: string)
    requires Readable(githubHandle) && Readable(ethAddress) && Readable(signature)
    ensures IssueScan.PayloadOf(Some(ConstructIssueBody(githubHandle, ethAddress, signature)))
         == Some(IssueScan.Payload(githubHandle, ethAddress, signature))
  {
    IntroHasNoBackquote();
    PayloadReadBack(Intro(), githubHandle, ethAddress, signature, Outro(githubHandle, ethAddress));
  }

  /** An issue the generator wrote is judged by the recovered signer of the
      handle it carries: verified exactly when that signer equals the written
      address up to case. */
  lemma GeneratedIssueJudged(recover: IssueScan.Recover, title: string,
                             githubHandle: string, ethAddress: string, signature: string)
    requires Readable(githubHandle) && Readable(ethAddress) && Readable(signature)
    ensures var v := IssueScan.Judge(recover,
              IssueScan.Issue(title, Some(ConstructIssueBody(githubHandle, ethAddress, signature))));
      && (v == IssueScan.NoIssue <==> recover(githubHandle, signature).None?)
      && (v == IssueScan.Verified <==>
            recover(githubHandle, signature).Some?
            && EqualsIgnoreCase(recover(githubHandle, signature).value, ethAddress))
  {
    PayloadRoundTrip(githubHandle, ethAddress, signature);
  }
}
