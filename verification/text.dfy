/** String helpers shared by the whole model: JavaScript's white space, ASCII
    case folding (`toLowerCase` restricted to ASCII), substring tests and
    `String.prototype.split` on a one-character separator. */
module Text {

  /** The characters matched by `\s` in a JavaScript regular expression; the
      same set (WhiteSpace plus LineTerminator) is what `String.prototype.trim`
      strips. */
  predicate IsJsSpace(c: char) {
    || c == '\t' || c == '\n' || c == '\U{000B}' || c == '\U{000C}' || c == '\r' || c == ' '
    || c == '\U{00A0}' || c == '\U{1680}' || ('\U{2000}' <= c <= '\U{200A}')
    || c == '\U{2028}' || c == '\U{2029}' || c == '\U{202F}' || c == '\U{205F}'
    || c == '\U{3000}' || c == '\U{FEFF}'
  }

  /** Nothing but white space. */
  predicate IsBlank(s: string) {
    forall i | 0 <= i < |s| :: IsJsSpace(s[i])
  }

  /** The position of the first character at or after `k` that is not
      white space, or `|s|`. */
  function SkipSpaceFrom(s: string, k: nat): (i: nat)
    requires k <= |s|
    ensures k <= i <= |s|
    ensures forall m | k <= m < i :: IsJsSpace(s[m])
    ensures i == |s| || !IsJsSpace(s[i])
    decreases |s| - k
  {
    if k == |s| || !IsJsSpace(s[k]) then k else SkipSpaceFrom(s, k + 1)
  }

  /** The position just after the last character before `k` that is not
      white space, or 0. */
  function SkipSpaceBack(s: string, k: nat): (j: nat)
    requires k <= |s|
    ensures j <= k
    ensures forall m | j <= m < k :: IsJsSpace(s[m])
    ensures j == 0 || !IsJsSpace(s[j - 1])
  {
    if k == 0 || !IsJsSpace(s[k - 1]) then k else SkipSpaceBack(s, k - 1)
  }

  /** `s.trim()`: `s` without its leading and trailing white space. */
  function Trim(s: string): (t: string)
    ensures t == [] || (!IsJsSpace(t[0]) && !IsJsSpace(t[|t| - 1]))
    ensures exists i, j | 0 <= i <= j <= |s| ::
      && t == s[i..j]
      && (forall m | 0 <= m < i :: IsJsSpace(s[m]))
      && (forall m | j <= m < |s| :: IsJsSpace(s[m]))
  {
    var i := SkipSpaceFrom(s, 0);
    var j := SkipSpaceBack(s, |s|);
    if i < j then s[i..j] else
      assert IsBlank(s);
      assert s[|s|..|s|] == [];
      []
  }

  /** `!s.trim()`: trimming leaves nothing exactly when the text is blank. */
  lemma TrimEmptyIffBlank(s: string)
    ensures Trim(s) == [] <==> IsBlank(s)
  {
    var i := SkipSpaceFrom(s, 0);
    if IsBlank(s) {
      assert i == |s|;
    }
  }

  // ---------------------------------------------------------------------------
  // ASCII case folding
  // ---------------------------------------------------------------------------

  predicate IsUpper(c: char) {
    'A' <= c <= 'Z'
  }

  function LowerChar(c: char): char {
    if IsUpper(c) then (c as int + 32) as char else c
  }

  /** `s.toLowerCase()` for ASCII letters; every other character is kept. */
  function Lower(s: string): string {
    seq(|s|, i requires 0 <= i < |s| => LowerChar(s[i]))
  }

  /** Two characters are the same letter up to case, described without
      reference to `LowerChar`: equal, or an ASCII capital and its small letter. */
  predicate SameIgnoringCase(a: char, b: char) {
    || a == b
    || (IsUpper(a) && b as int == a as int + 32)
    || (IsUpper(b) && a as int == b as int + 32)
  }

  /** The worker's address comparison `x.toLowerCase() === y.toLowerCase()`. */
  predicate EqualsIgnoreCase(a: string, b: string) {
    Lower(a) == Lower(b)
  }

  /** Lower-casing leaves no capital behind and changes nothing but capitals. */
  lemma LowerSpec(s: string)
    ensures |Lower(s)| == |s|
    ensures forall i | 0 <= i < |s| :: !IsUpper(Lower(s)[i])
    ensures forall i | 0 <= i < |s| && !IsUpper(s[i]) :: Lower(s)[i] == s[i]
    ensures forall i | 0 <= i < |s| :: SameIgnoringCase(s[i], Lower(s)[i])
  {
  }

  lemma LowerIdempotent(s: string)
    ensures Lower(Lower(s)) == Lower(s)
  {
    LowerSpec(s);
  }

  /** The lower-case comparison is exactly position-wise equality up to case. */
  lemma EqualsIgnoreCaseIff(a: string, b: string)
    ensures EqualsIgnoreCase(a, b)
        <==> |a| == |b| && forall i | 0 <= i < |a| :: SameIgnoringCase(a[i], b[i])
  {
    if |a| == |b| && forall i | 0 <= i < |a| :: SameIgnoringCase(a[i], b[i]) {
      forall i | 0 <= i < |a|
        ensures Lower(a)[i] == Lower(b)[i]
      {
        assert SameIgnoringCase(a[i], b[i]);
      }
    }
    if EqualsIgnoreCase(a, b) {
      forall i | 0 <= i < |a|
        ensures SameIgnoringCase(a[i], b[i])
      {
        assert Lower(a)[i] == Lower(b)[i];
      }
    }
  }

  /** Comparing up to case is an equivalence relation. */
  lemma EqualsIgnoreCaseEquivalence(a: string, b: string, c: string)
    ensures EqualsIgnoreCase(a, a)
    ensures EqualsIgnoreCase(a, b) ==> EqualsIgnoreCase(b, a)
    ensures EqualsIgnoreCase(a, b) && EqualsIgnoreCase(b, c) ==> EqualsIgnoreCase(a, c)
  {
  }

  // ---------------------------------------------------------------------------
  // Substrings
  // ---------------------------------------------------------------------------

  /** `t` occurs in `s` starting at position `p`. */
  predicate OccursAt(s: string, t: string, p: int) {
    0 <= p && p + |t| <= |s| && s[p..p + |t|] == t
  }

  /** `s.includes(t)`. */
  predicate Includes(s: string, t: string) {
    exists p | 0 <= p <= |s| :: OccursAt(s, t, p)
  }

  // ---------------------------------------------------------------------------
  // String.prototype.split with a one-character separator
  // ---------------------------------------------------------------------------

  /** The position of the first `c` in `s`. */
  function IndexOf(s: string, c: char): (i: nat)
    requires c in s
    ensures i < |s| && s[i] == c && c !in s[..i]
  {
    if s[0] == c then 0
    else
      assert c in s[1..] by { assert s == [s[0]] + s[1..]; }
      var j := IndexOf(s[1..], c);
      assert s[..j + 1] == [s[0]] + s[1..][..j];
      j + 1
  }

  /** Puts the separator back between consecutive parts. */
  function Join(parts: seq<string>, sep: char): string
    requires |parts| >= 1
  {
    if |parts| == 1 then parts[0] else parts[0] + [sep] + Join(parts[1..], sep)
  }

  /** `s.split(sep)`: the pieces between separators; there is always at least
      one piece, none contains the separator, and joining them gives `s` back. */
  function Split(s: string, sep: char): (parts: seq<string>)
    ensures |parts| >= 1
    ensures forall k | 0 <= k < |parts| :: sep !in parts[k]
    ensures Join(parts, sep) == s
    decreases |s|
  {
    if sep !in s then [s]
    else
      var i := IndexOf(s, sep);
      var rest := Split(s[i + 1..], sep);
      assert s == s[..i] + [sep] + s[i + 1..];
      [s[..i]] + rest
  }

  /** Splitting at the first separator: the piece before it, then the pieces
      of the rest. */
  lemma SplitCons(a: string, sep: char, rest: string)
    requires sep !in a
    ensures Split(a + [sep] + rest, sep) == [a] + Split(rest, sep)
  {
    var s := a + [sep] + rest;
    assert s[|a|] == sep;
    var i := IndexOf(s, sep);
    assert s[..|a|] == a;
    assert forall k | 0 <= k < |a| :: s[k] == a[k];
    assert i == |a|;
    assert s[i + 1..] == rest;
  }

  /** The first piece is everything before the first separator. */
  lemma SplitHead(a: string, sep: char, rest: string)
    requires sep !in a && (rest == [] || rest[0] == sep)
    ensures Split(a + rest, sep)[0] == a
  {
    if rest == [] {
      assert a + rest == a;
    } else {
      assert a + rest == a + [sep] + rest[1..];
      SplitCons(a, sep, rest[1..]);
    }
  }

  /** Split is also a left inverse of Join: parts that do not contain the
      separator are exactly what splitting their join returns. */
  lemma {:induction false} SplitJoin(parts: seq<string>, sep: char)
    requires |parts| >= 1
    requires forall k | 0 <= k < |parts| :: sep !in parts[k]
    ensures Split(Join(parts, sep), sep) == parts
    decreases |parts|
  {
    if |parts| > 1 {
      SplitCons(parts[0], sep, Join(parts[1..], sep));
      SplitJoin(parts[1..], sep);
      assert [parts[0]] + parts[1..] == parts;
    }
  }
}
