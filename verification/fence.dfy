/** The worker's payload locator: `issue.body?.match(/```json\s+([\s\S]+?)```/)`
    and its capture group (packages/worker/src/index.ts:248).

    The regular expression is described twice.  `IsMatch` is the language it
    accepts and `IsChosen` is the match JavaScript's backtracking picks: the
    leftmost opening tag, then the longest white-space run (`\s+` is greedy),
    then the shortest body (`[\s\S]+?` is lazy).  `FirstJsonBlock` is a direct
    scan, and `FirstJsonBlockSpec` proves that it returns the chosen match. */
module Fence {
  import opened Base
  import opened Text

  const Open: string := "```json"
  const Close: string := "```"

  /** A match of the pattern: the opening tag at `p`, white space on
      `[p + 7, g)` (at least one character), the captured body on `[g, e)`
      (at least one character) and the closing fence at `e`. */
  predicate IsMatch(s: string, p: int, g: int, e: int) {
    && OccursAt(s, Open, p)
    && p + |Open| < g < e
    && OccursAt(s, Close, e)
    && (forall k | p + |Open| <= k < g :: IsJsSpace(s[k]))
  }

  /** Backtracking order: `(p, g, e)` is tried no later than `(p', g', e')`. */
  predicate TriedFirst(p: int, g: int, e: int, p': int, g': int, e': int) {
    p < p' || (p == p' && (g > g' || (g == g' && e <= e')))
  }

  /** The match `String.prototype.match` returns. */
  ghost predicate IsChosen(s: string, p: int, g: int, e: int) {
    && IsMatch(s, p, g, e)
    && forall p', g', e' | IsMatch(s, p', g', e') :: TriedFirst(p, g, e, p', g', e')
  }

  ghost predicate NoMatchAt(s: string, p: int) {
    forall g, e :: !IsMatch(s, p, g, e)
  }

  lemma ChosenUnique(s: string, p: int, g: int, e: int, p': int, g': int, e': int)
    requires IsChosen(s, p, g, e) && IsChosen(s, p', g', e')
    ensures p == p' && g == g' && e == e'
  {
    assert TriedFirst(p, g, e, p', g', e');
    assert TriedFirst(p', g', e', p, g, e);
  }

  // ---------------------------------------------------------------------------
  // The scan
  // ---------------------------------------------------------------------------

  /** Length of the longest run of white space starting at `i`. */
  function SpaceRun(s: string, i: nat): (n: nat)
    requires i <= |s|
    ensures i + n <= |s|
    ensures forall k | i <= k < i + n :: IsJsSpace(s[k])
    ensures i + n == |s| || !IsJsSpace(s[i + n])
    decreases |s| - i
  {
    if i < |s| && IsJsSpace(s[i]) then 1 + SpaceRun(s, i + 1) else 0
  }

  /** The first closing fence at or after `i`. */
  function FindClose(s: string, i: nat): (r: Option<nat>)
    ensures r.Some? ==> i <= r.value && OccursAt(s, Close, r.value)
    ensures r.Some? ==> forall k | i <= k < r.value :: !OccursAt(s, Close, k)
    ensures r.None? ==> forall k | i <= k :: !OccursAt(s, Close, k)
    decreases |s| - i
  {
    if i + |Close| > |s| then None
    else if OccursAt(s, Close, i) then Some(i)
    else FindClose(s, i + 1)
  }

  /** The match starting with the opening tag at `p`, as `(g, e)`.  With the
      longest white-space run ending at `G`, the body starts at `G` and ends at
      the first fence after it; only when there is none can backtracking give
      one white-space character back, which succeeds exactly when a fence
      starts right at `G`. */
  function MatchAt(s: string, p: nat): Option<(nat, nat)>
    requires OccursAt(s, Open, p)
  {
    var w := SpaceRun(s, p + |Open|);
    var G := p + |Open| + w;
    if w == 0 then None
    else match FindClose(s, G + 1)
      case Some(e) => Some((G, e))
      case None => if w >= 2 && OccursAt(s, Close, G) then Some((G - 1, G)) else None
  }

  /** Tries the opening positions `p, p + 1, ...` in turn. */
  function Search(s: string, p: nat): Option<(nat, nat, nat)>
    decreases |s| - p
  {
    if p + |Open| > |s| then None
    else if OccursAt(s, Open, p) && MatchAt(s, p).Some? then
      Some((p, MatchAt(s, p).value.0, MatchAt(s, p).value.1))
    else Search(s, p + 1)
  }

  /** The capture group of the first match, if any. */
  function FirstJsonBlock(s: string): Option<string> {
    match Search(s, 0)
    case None => None
    case Some((p, g, e)) => if g <= e <= |s| then Some(s[g..e]) else None
  }

  // ---------------------------------------------------------------------------
  // The scan returns the chosen match
  // ---------------------------------------------------------------------------

  /** A closing fence starts with a backquote, so it never starts on white space. */
  lemma CloseNotSpace(s: string, k: int)
    requires OccursAt(s, Close, k)
    ensures !IsJsSpace(s[k])
  {
    assert s[k] == s[k..k + 3][0];
  }

  lemma MatchAtSound(s: string, p: nat)
    requires OccursAt(s, Open, p)
    ensures MatchAt(s, p).Some? ==>
      var (g, e) := MatchAt(s, p).value;
      && IsMatch(s, p, g, e)
      && forall g', e' | IsMatch(s, p, g', e') :: g > g' || (g == g' && e <= e')
    ensures MatchAt(s, p).None? ==> NoMatchAt(s, p)
  {
    var w := SpaceRun(s, p + |Open|);
    var G := p + |Open| + w;
    forall g', e' | IsMatch(s, p, g', e')
      ensures g' <= G
      ensures w >= 1
      ensures e' == G || e' >= G + 1
    {
      assert G < |s| ==> !IsJsSpace(s[G]);
      assert IsJsSpace(s[p + |Open|]);
      if e' < G {
        CloseNotSpace(s, e');
      }
    }
  }

  lemma {:induction false} SearchSound(s: string, p0: nat)
    requires forall p | 0 <= p < p0 :: NoMatchAt(s, p)
    ensures Search(s, p0).Some? ==>
      var (p, g, e) := Search(s, p0).value; IsChosen(s, p, g, e)
    ensures Search(s, p0).None? ==> forall p :: NoMatchAt(s, p)
    decreases |s| - p0
  {
    if p0 + |Open| > |s| {
      forall p | p >= p0
        ensures NoMatchAt(s, p)
      {
      }
    } else if OccursAt(s, Open, p0) && MatchAt(s, p0).Some? {
      MatchAtSound(s, p0);
      var (g, e) := MatchAt(s, p0).value;
      forall p', g', e' | 0 <= p' < p0
        ensures !IsMatch(s, p', g', e')
      {
        assert NoMatchAt(s, p');
      }
    } else {
      if OccursAt(s, Open, p0) {
        MatchAtSound(s, p0);
      }
      assert NoMatchAt(s, p0);
      SearchSound(s, p0 + 1);
    }
  }

  /** The capture group is the body of the match JavaScript picks, and there is
      no capture group exactly when the pattern does not match at all. */
  lemma FirstJsonBlockSpec(s: string)
    ensures forall x :: FirstJsonBlock(s) == Some(x) <==>
      exists p, g, e :: IsChosen(s, p, g, e) && x == s[g..e]
    ensures FirstJsonBlock(s).None? <==> forall p :: NoMatchAt(s, p)
  {
    SearchSound(s, 0);
    forall x
      ensures FirstJsonBlock(s) == Some(x) <==> exists p, g, e :: IsChosen(s, p, g, e) && x == s[g..e]
    {
      if exists p, g, e :: IsChosen(s, p, g, e) && x == s[g..e] {
        var p, g, e :| IsChosen(s, p, g, e) && x == s[g..e];
        assert !NoMatchAt(s, p);
        assert Search(s, 0).Some?;
        var (p', g', e') := Search(s, 0).value;
        ChosenUnique(s, p, g, e, p', g', e');
      }
    }
    if Search(s, 0).Some? {
      var (p, g, e) := Search(s, 0).value;
      assert !NoMatchAt(s, p);
    }
  }

  /** The shape the issue generator writes: text without backquotes, the
      opening tag, one white-space character, a body that starts with a
      non-space and has no backquote, and a closing fence.  The capture group
      is exactly that body, whatever follows. */
  lemma FirstJsonBlockOfFenced(pre: string, ws: char, body: string, post: string)
    requires '`' !in pre
    requires IsJsSpace(ws)
    requires |body| >= 1 && !IsJsSpace(body[0]) && '`' !in body
    ensures FirstJsonBlock(pre + Open + [ws] + body + Close + post) == Some(body)
  {
    var s := pre + Open + [ws] + body + Close + post;
    var p, g, e := |pre|, |pre| + 8, |pre| + 8 + |body|;
    assert s[p..p + 7] == Open;
    assert s[g..e] == body;
    assert s[e..e + 3] == Close;
    assert IsMatch(s, p, g, e);
    assert forall k | 0 <= k < |pre| :: s[k] == pre[k];
    assert forall k | g <= k < e :: s[k] == body[k - g];
    forall p', g', e' | IsMatch(s, p', g', e')
      ensures TriedFirst(p, g, e, p', g', e')
    {
      assert s[p'] == s[p'..p' + 7][0] == '`';
      assert s[e'] == s[e'..e' + 3][0] == '`';
    }
    assert IsChosen(s, p, g, e);
    FirstJsonBlockSpec(s);
  }
}
