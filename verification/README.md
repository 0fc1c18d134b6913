# ethbinder in Dafny

ethbinder links a GitHub account to an Ethereum address. The user signs their
GitHub handle with their Ethereum key through MetaMask; the signing itself
happens outside the code modelled here. The site writes the handle, the address and
the signature into a GitHub issue on the user's fork of the `ethbinder`
repository. A Cloudflare worker serves a shields.io badge that reads
"verified" when such an issue carries a signature whose signer is the
claimed address.

This project models the core of that flow as pure functions and proves what
each part promises:

| module | file | models |
|---|---|---|
| `Base` | base.dfy | `Option` and JavaScript truthiness of an optional string |
| `Text` | text.dfy | `trim`, ASCII `toLowerCase`, `includes`, `split` |
| `Percent` | percent.dfy | `encodeURIComponent` / `decodeURIComponent` over UTF-8 |
| `Fence` | fence.dfy | the worker's regular expression ```` /```json\s+([\s\S]+?)```/ ```` with JavaScript's backtracking choice |
| `FlatJson` | flatjson.dfy | `JSON.parse` of a flat object of string members, and the generator's layout |
| `GitHub` | github.dfy | `verifyGitHubHandle` and the paginated `verifyRepo` loop |
| `Badge` | badge.dfy | `buildBadge` and `sendBadgeResponse` |
| `IssueScan` | issues.dfy | the issue loop of the worker's `fetch`: locate, parse, complete, compare |
| `Worker` | worker.dfy | the worker's `fetch`: `setGitHubHandle`, the order of the checks, the reply |
| `IssueGenerator` | generator.dfy | `constructIssueBody` and `generateIssueUrl` |
| `LegacyWorker` | legacy.dfy | the older SVG worker: `handleRequest`, `verifySignature`, `generateBadge` |
| `Snap` | snap.dfy | the snap's `onRpcRequest` validation and dispatch |
| `DoubleCheck` | doublecheck.dfy | the audit script's `fetch_issues` |

GitHub's replies are inputs to the model:
- the account look-up reply;
- the replies to repository pages 1, 2, …;
- the issue list, keyed by request URL.

`verifyMessage` is the parameter `recover`. It maps a message and a signature
to the recovered address, or to `None` when it throws.

The central property is `IssueGenerator.GeneratedIssueJudged`. For values the
JSON can carry, the worker finds the block the generator wrote and parses it
back to exactly the three values. It then judges the issue by comparing the
recovered signer of the handle with the written address, up to case.

Behaviour of the code worth knowing:
- **Page count.** For a user with N repositories and none named ethbinder,
  `verifyRepo` makes ⌊N/100⌋ + 1 requests: a full last page is followed by
  a request for an empty page (`GitHub.ScanListing`).
- **Order of checks.** The API-token check comes after the handle, account
  and repository checks (`Worker.Decide`).
- **Signed message.** The worker verifies the signature against the handle
  written in the issue's payload; the handle the badge was asked for is used
  only to look up the account, its repositories and its issues
  (`IssueScan.Judge`).
- **Repository name.** The `repo` parameter only names the repository whose
  issues are read. The repository check always looks for `ethbinder`
  (`Worker.RepoOnlyNamesIssues`).

## Model

| member | source | states |
|---|---|---|
| Text.Trim | packages/snap/src/onUserInput.tsx:22 | the trimmed text is the input with leading and trailing white space removed, and starts and ends on a non-space |
| Text.TrimEmptyIffBlank | packages/snap/src/onUserInput.tsx:22 | `!userInput.trim()` holds exactly when the input is all white space |
| Text.EqualsIgnoreCaseIff | packages/worker/src/index.ts:266 | comparing lower-cased addresses is position-wise equality up to ASCII case |
| Text.EqualsIgnoreCaseEquivalence | packages/worker/src/index.ts:266 | that comparison is reflexive, symmetric and transitive |
| Text.Split | packages/worker/src/index.ts:26 | `split('/')` yields at least one piece, no piece holds the separator, and joining the pieces gives the path back |
| Text.SplitJoin | packages/worker/src/index.ts:26 | splitting is also a left inverse of joining pieces that hold no separator |
| Percent.EncodeURIComponent | packages/site/src/hooks/useGitHubIssueGenerator.tsx:49 | the output holds only unreserved characters and `%` escapes of two upper-case hex digits |
| Percent.Utf8RoundTrip | packages/site/src/hooks/useGitHubIssueGenerator.tsx:49 | the UTF-8 bytes of every character decode back to that character |
| Percent.DecodeEncode | packages/site/src/hooks/useGitHubIssueGenerator.tsx:49 | `decodeURIComponent(encodeURIComponent(s)) == s` for every text |
| Percent.EncodedIsQueryValue | packages/site/src/hooks/useGitHubIssueGenerator.tsx:53 | an encoded text holds no `&`, `#`, `=` or `+`, so it cannot end the `body` query value or be read as a space |
| Fence.FirstJsonBlockSpec | packages/worker/src/index.ts:248 | the scan returns the capture group of the match JavaScript picks (leftmost tag, greedy white space, lazy body), and nothing exactly when no match exists |
| Fence.FirstJsonBlockOfFenced | packages/worker/src/index.ts:248 | after text without backquotes, a tag, one space and a backquote-free body, the capture is that body whatever follows |
| FlatJson.ParseRender | packages/worker/src/index.ts:252 | `JSON.parse` of the indented layout, plus trailing white space, gives back the members in order |
| GitHub.AccountExists | packages/worker/src/index.ts:118-146 | the account counts as existing exactly when the look-up answered 200; any exception counts as missing |
| GitHub.ScanRepos | packages/worker/src/index.ts:149-214 | the loop asks for pages in order. Every page before the last one it asks for is a full 200 page without the repository. The last is not, and the answer is true exactly when that page is a 200 page naming `ethbinder` up to case |
| GitHub.ScanListing | packages/worker/src/index.ts:193-196 | over GitHub's 100-per-page listing the answer is whether any repository is named `ethbinder`; without one the loop makes ⌊N/100⌋+1 requests |
| Badge.BuildBadge | packages/worker/src/index.ts:40-51 | the fixed fields of the shields.io document, the message as given, and green exactly on success |
| Badge.SendBadgeResponse | packages/worker/src/index.ts:53-65 | status 200 and the no-cache headers whatever the caller asked for, logs only when debugging; throws without an options object |
| IssueScan.Complete | packages/worker/src/index.ts:254 | a payload exists exactly when all three fields are non-empty strings, and it carries their values |
| IssueScan.Judge | packages/worker/src/index.ts:254-280 | an issue has a verdict exactly when it has a payload and the recovery of its own handle succeeds. It is verified exactly when the recovered signer equals the address up to case |
| IssueScan.ScanIssues | packages/worker/src/index.ts:244-297 | no verdict exactly when no issue has one; otherwise the verdict is that of the first issue that has one |
| IssueScan.ScanAppend | packages/worker/src/index.ts:245-290 | issues after the deciding one never matter, and issues without a verdict are passed over |
| IssueScan.ScanDecidedBy | packages/worker/src/index.ts:245-290 | the first issue with a verdict decides the scan |
| Worker.RepoOf | packages/worker/src/index.ts:12 | the repository name is never empty, so the handler's `!repo` test cannot fire; it is the parameter when given, `ethbinder` otherwise |
| Worker.PathHandle | packages/worker/src/index.ts:26-31 | a handle taken from the Referer path is non-empty and holds no `/` |
| Worker.PathHandleSpec | packages/worker/src/index.ts:26-35 | the Referer path yields `x` exactly when the path is a first segment, `/`, `x`, then nothing or `/…` |
| Worker.PathHandleOf | packages/worker/src/index.ts:26-31 | any path of the form `f/x` or `f/x/…` with a non-empty `x` yields `x` |
| Worker.PathHandleExample | packages/worker/src/index.ts:29-31 | the path `/testuser/repo` yields `testuser` |
| Worker.ResolveHandle | packages/worker/src/index.ts:18-38 | a non-empty `handle` parameter wins; otherwise the Referer path decides, an absent Referer gives no handle, and an unparsable one throws |
| Worker.Decide | packages/worker/src/index.ts:67-245 | the stages in the handler's order: each outcome, `Uncaught` included, holds exactly when the earlier stages passed and its own stage failed or threw; a fetched list is scanned |
| Worker.RepoOnlyNamesIssues | packages/worker/src/index.ts:219 | the `repo` parameter affects only the issue-list request, never the account or repository checks |
| Worker.MessageInjective | packages/worker/src/index.ts:70-297 | no two outcomes share a badge message, and the handle or status text can be read back from it |
| Worker.Render | packages/worker/src/index.ts:234-297 | the corrected reply: status 200, the no-cache headers, the outcome's message, green exactly for a verified scan |
| Worker.RenderAsWritten | packages/worker/src/index.ts:234-237 | as written, the reply throws exactly on an uncaught exception or an issue-fetch failure, and otherwise equals the corrected reply |
| Worker.Fetch | packages/worker/src/index.ts:9-298 | the corrected handler (with the issue-fetch failure of the first Findings row repaired; `Worker.FetchAsWritten` is the handler as written) answers with the decision's message, green exactly when the decision is a verified scan, and throws only when an exception escapes |
| Worker.FetchAsWritten | packages/worker/src/index.ts:229-238 | the handler as written also throws on every issue-fetch failure |
| Worker.IssueFetchFailureThrows | packages/worker/src/index.ts:234-237 | wherever the issue fetch fails, the handler as written throws while the corrected one answers with the status text |
| Worker.IssueFetchFailureReachable | packages/worker/src/index.ts:219-237 | an existing account with the repository, a token and a 403 from the issue list reaches that failure |
| IssueGenerator.IntroHasNoBackquote | packages/site/src/hooks/useGitHubIssueGenerator.tsx:9-15 | the text before the payload holds no backquote, so no fence can open there |
| IssueGenerator.GenerateIssueUrl | packages/site/src/hooks/useGitHubIssueGenerator.tsx:47-56 | the link is the new-issue URL of `{handle}/ethbinder` followed by a `body` value made only of unreserved characters and `%XX` escapes (so no `&`, `#` or `+`) that decodes to the issue body |
| IssueGenerator.BlockFoundBehind | packages/site/src/hooks/useGitHubIssueGenerator.tsx:16-22 | behind any text without a backquote, the worker's pattern captures exactly the generator's JSON object and the line break after it |
| IssueGenerator.BlockParsed | packages/site/src/hooks/useGitHubIssueGenerator.tsx:17-21 | that object parses to the three members, which form a complete payload |
| IssueGenerator.PayloadReadBack | packages/site/src/hooks/useGitHubIssueGenerator.tsx:16-22 | the payload block, wherever it stands after text without a backquote, reads back as a complete payload with exactly the three values written into it |
| IssueGenerator.PayloadRoundTrip | packages/site/src/hooks/useGitHubIssueGenerator.tsx:4-44 | the worker reads back from a generated issue exactly the handle, address and signature written into it |
| IssueGenerator.GeneratedIssueJudged | packages/site/src/hooks/useGitHubIssueGenerator.tsx:4-44 | a generated issue is verified exactly when the recovered signer of its handle equals its address up to case, and has no verdict exactly when recovery throws |
| LegacyWorker.MatchFromSpec | eth-verification-worker/src/index.ts:15 | the scan finds the first position where the whole pattern matches, with its capture, and nothing exactly when no position matches |
| LegacyWorker.ExtractHandleSpec | eth-verification-worker/src/index.ts:15-20 | the handle is the capture at the first matching position, and there is none exactly when the pattern matches nowhere |
| LegacyWorker.ExtractHandleOf | eth-verification-worker/src/index.ts:15-20 | a Referer `pre + "github.com/" + h + "/" + post` yields `h` when `pre` holds no `g`; the general case is `LegacyWorker.ExtractHandleSpec` |
| LegacyWorker.ExtractHandleOfBare | eth-verification-worker/src/index.ts:15-18 | a Referer `pre + "github.com/" + h`, with no `g` in `pre` and no `/` in `h`, yields nothing; without those conditions an earlier `github.com/` can still match (`https://github.com/a/github.com/h` yields `a`), and the general case is `LegacyWorker.ExtractHandleSpec` |
| LegacyWorker.ResolveHandle | eth-verification-worker/src/index.ts:7-21 | a truthy parameter wins; otherwise a missing or non-GitHub Referer and an unmatched one each get their own 400 text, and a match yields a non-empty handle |
| LegacyWorker.HandleParamWins | eth-verification-worker/src/index.ts:7-9 | with a handle parameter the Referer is never consulted |
| LegacyWorker.VerifySignatureSpec | eth-verification-worker/src/index.ts:48-52 | the mock reads only the address, accepts `0x123` and rejects every other address, `0X123` included |
| LegacyWorker.ReadGenerated | eth-verification-worker/src/index.ts:54-63 | the colour and message can be read back out of a generated badge |
| LegacyWorker.GenerateBadgeInjective | eth-verification-worker/src/index.ts:54-63 | two badges are the same text only when they carry the same colour and message |
| LegacyWorker.BadgeSpec | eth-verification-worker/src/index.ts:32-35 | green exactly when verified, "verified" exactly when green, "failed" exactly when red, and the SVG carries both |
| LegacyWorker.HandleRequest | eth-verification-worker/src/index.ts:23-45 | the corrected handler. Text replies only for a refused handle or a failed fetch, the latter being the 500 reply `Unable to fetch issue from GitHub.`; otherwise one of the two badges, verified exactly when the issue body's `ethAddress` is `0x123` |
| LegacyWorker.AsWrittenNeverVerifies | eth-verification-worker/src/index.ts:30 | as written, the handler never answers "verified", and it agrees with the corrected one everywhere else |
| LegacyWorker.AsWrittenIgnoresIssue | eth-verification-worker/src/index.ts:30 | an issue holding `{"ethAddress": "0x123"}` is verified by the corrected handler and failed by the handler as written |
| Snap.ErrorMessageInjective | packages/snap/src/onUserInput.tsx:15-37 | every failure has its own error message, and an unknown method's name can be read back from it |
| Snap.OnRpcRequest | packages/snap/src/onUserInput.tsx:11-39 | each of the three validation errors holds exactly when the earlier checks passed and its own failed; valid parameters with `confirm` or `edit` return success with their message, and any other method throws naming it |
| Snap.ValidationFirst | packages/snap/src/onUserInput.tsx:15-27 | invalid parameters throw whatever the method name is |
| Snap.DispatchSpec | packages/snap/src/onUserInput.tsx:29-38 | with valid parameters only `confirm` and `edit` succeed, and different unknown methods give different errors |
| DoubleCheck.Keep | doublechek.py:25-27 | the kept list is never longer than the page |
| DoubleCheck.KeepSpec | doublechek.py:25-27 | an issue is kept exactly when it is on the page and not opened by `dependabot[bot]` |
| DoubleCheck.KeepAppend | doublechek.py:25-28 | filtering page by page is filtering the concatenation, order kept |
| DoubleCheck.StopAt | doublechek.py:12-29 | the loop goes on after every page before the stopping page, and not after the stopping page itself |
| DoubleCheck.GatherSpec | doublechek.py:8-31 | unless the stopping page raises, the result is every issue on the pages before it, dependabot's removed, in order |
| DoubleCheck.GatherHasNoDependabot | doublechek.py:25-31 | no gathered issue is dependabot's |
| DoubleCheck.FetchIssues | doublechek.py:8-31 | the loop asks for pages 1, 2, … in turn, stops at the first page that is not 200, is empty or raises, and returns the reference result |
| DoubleCheck.KeepPage | doublechek.py:25-27 | the comprehension succeeds exactly when every issue has a login, and then keeps the non-dependabot issues |
| DoubleCheck.ShortPageGoesOn | doublechek.py:22-29 | an example: two 200 pages of one issue each are both read and both issues kept, so a page shorter than 100 issues does not end the loop (the general stopping rule is `DoubleCheck.StopAt`) |

## Left out

- The network: every `fetch` and `requests.get` reply is an input value, and each GitHub reply depends only on the request URL.
- `verifyMessage` and its elliptic-curve recovery are not modelled. They become the parameter `recover`, with `None` for a throw.
- `new URL(...)` parsing in the worker is not modelled. A Referer is given already parsed to its host and path, or marked unparsable.
- The debug log lines and their wording are not modelled. They are the input `logs`, returned only when debugging.
- `new Date().toUTCString()` is the input `now`.
- `JSON.stringify` of the badge document is not modelled; the document is kept as a record.
- `JSON.parse` is modelled only for flat objects with string values and without escapes. Any other text is `None`, which the worker treats like a throw.
- JSON values of other types are not modelled: numbers, booleans, arrays, nested objects. A payload whose fields are not strings is outside the model.
- `toLowerCase` is modelled for ASCII letters only; other characters are kept as they are.
- Strings are sequences of Unicode scalar values. Lone surrogates, on which `encodeURIComponent` throws, are not modelled.
- The shields.io and GitHub pages that render the badge and the issue are outside the model.
- `verifyRepo` only logs the accumulated `repos` list, and it is not modelled. A repository without a `name` would make the loop throw and answer false; names are always present here.
- In the snap, `origin` is never read and is left out. JavaScript values are modelled without NaN, functions or symbols.
- `doublechek.py`'s printing and `main` are left out.
- `fetch_issues` is assumed to get a list from `response.json()`. A JSON reply that is not a list is not modelled.
- For both loops, pages past the end of the given replies answer 200 with an empty list, as GitHub does.
- `addEventListener` wiring in the older worker is left out. Its SVG responses carry status 200 and `content-type: image/svg+xml`, which are not modelled as fields.
- LegacyWorker.ExtractHandle: carries no contract of its own. Its meaning is stated by `LegacyWorker.ExtractHandleSpec`.

## Findings

| source | as written | input that shows it | evidently intended | confidence | as-written member | corrected member |
|---|---|---|---|---|---|---|
| packages/worker/src/index.ts:234-237 | the issue-fetch failure calls `sendBadgeResponse` with the options object in the `success` position and no options, so `options.status = 200` throws a TypeError and the request fails with the runtime's error page | handle `alice` with an existing account, an `ethbinder` repository and a token, whose issue list answers 403 "Forbidden" (`Worker.IssueFetchFailureReachable`) | a red badge reading "issue fetch failed: Forbidden" | high; not executed | Worker.IssueFetchFailureThrows | Worker.Render |
| eth-verification-worker/src/index.ts:30 | parses `response.json().body`, the `body` property of a promise, which is `undefined`. `JSON.parse` then throws, and the catch block answers "failed" for every fetched issue | handle `alice` whose issue 1 body is `{"ethAddress": "0x123"}` | parse the body of the awaited issue, so that this issue is verified | high; not executed | LegacyWorker.AsWrittenIgnoresIssue | LegacyWorker.HandleRequest |
