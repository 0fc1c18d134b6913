/** `JSON.parse` as the worker uses it on a captured block
    (packages/worker/src/index.ts:252), restricted to a flat object whose
    member values are strings.  Anything else — another JSON type, a nested
    value, an escape sequence, a syntax error — is `None`, which the worker
    treats like the exception `JSON.parse` throws.  An object is kept as its
    members in text order; `Get` returns the last value of a key, as the
    property access on `JSON.parse`'s result does when a key repeats.

    `Render` is the indented layout the issue generator writes, and
    `ParseRender` proves that parsing it gives back its members. */
module FlatJson {
  import opened Base

  type Object = seq<(string, string)>

  /** `obj[key]`: the value of the last member with that key. */
  function Get(obj: Object, key: string): Option<string>
  {
    if |obj| == 0 then None
    else if obj[|obj| - 1].0 == key then Some(obj[|obj| - 1].1)
    else Get(obj[..|obj| - 1], key)
  }

  /** The four white-space characters JSON allows between tokens. */
  predicate IsJsonSpace(c: char) {
    c == ' ' || c == '\t' || c == '\n' || c == '\r'
  }

  /** A character that may appear in a JSON string without an escape.  The
      backslash is excluded too: escapes are outside the modelled subset. */
  predicate IsPlain(c: char) {
    c != '"' && c != '\\' && c as int >= 0x20
  }

  predicate AllPlain(s: string) {
    forall i | 0 <= i < |s| :: IsPlain(s[i])
  }

  /** Drops the leading JSON white space. */
  function SkipSpace(s: string): (t: string)
    ensures |t| <= |s|
    ensures forall i | 0 <= i < |s| - |t| :: IsJsonSpace(s[i])
    ensures |t| > 0 ==> !IsJsonSpace(t[0])
  {
    if |s| > 0 && IsJsonSpace(s[0]) then SkipSpace(s[1..]) else s
  }

  /** Length of the longest prefix of plain characters. */
  function PlainRun(s: string): (n: nat)
    ensures n <= |s|
    ensures forall i | 0 <= i < n :: IsPlain(s[i])
    ensures n < |s| ==> !IsPlain(s[n])
  {
    if |s| > 0 && IsPlain(s[0]) then 1 + PlainRun(s[1..]) else 0
  }

  /** A string token at the start of `s`: its value and what follows it. */
  function ParseString(s: string): (r: Option<(string, string)>)
    ensures r.Some? ==> |r.value.1| < |s|
  {
    if |s| == 0 || s[0] != '"' then None
    else
      var n := PlainRun(s[1..]);
      if 1 + n < |s| && s[1 + n] == '"' then Some((s[1..1 + n], s[2 + n..])) else None
  }

  /** One `"key" : "value"` member: key, value and what follows. */
  function ParseMember(s: string): (r: Option<(string, string, string)>)
    ensures r.Some? ==> |r.value.2| < |s|
  {
    match ParseString(s)
    case None => None
    case Some((k, r1)) =>
      var r2 := SkipSpace(r1);
      if |r2| == 0 || r2[0] != ':' then None
      else match ParseString(SkipSpace(r2[1..]))
        case None => None
        case Some((v, r3)) => Some((k, v, r3))
  }

  /** Members separated by commas, up to and including the closing brace. */
  function ParseMembers(s: string): Option<(Object, string)>
    decreases |s|
  {
    match ParseMember(s)
    case None => None
    case Some((k, v, r3)) =>
      var r4 := SkipSpace(r3);
      if |r4| > 0 && r4[0] == ',' then
        match ParseMembers(SkipSpace(r4[1..]))
        case None => None
        case Some((more, rest)) => Some(([(k, v)] + more, rest))
      else if |r4| > 0 && r4[0] == '}' then Some(([(k, v)], r4[1..]))
      else None
  }

  /** The whole text must be one object, with only white space around it. */
  function Parse(s: string): Option<Object> {
    var t := SkipSpace(s);
    if |t| == 0 || t[0] != '{' then None
    else
      var u := SkipSpace(t[1..]);
      var r: Option<(Object, string)> :=
        if |u| > 0 && u[0] == '}' then Some(([], u[1..])) else ParseMembers(u);
      match r
      case None => None
      case Some((obj, rest)) => if SkipSpace(rest) == [] then Some(obj) else None
  }

  // ---------------------------------------------------------------------------
  // The rendering the issue generator uses, and its inverse
  // ---------------------------------------------------------------------------

  function Quote(s: string): string {
    "\"" + s + "\""
  }

  function Items(ms: seq<(string, string)>): string
    requires |ms| >= 1
  {
    Quote(ms[0].0) + ": " + Quote(ms[0].1) + (if |ms| == 1 then "" else ",\n  " + Items(ms[1..]))
  }

  /** One member per line, indented by two spaces, keys in the given order. */
  function Render(ms: seq<(string, string)>): string
    requires |ms| >= 1
  {
    "{\n  " + Items(ms) + "\n}"
  }

  predicate PlainMembers(ms: seq<(string, string)>) {
    forall i | 0 <= i < |ms| :: AllPlain(ms[i].0) && AllPlain(ms[i].1)
  }

  lemma SkipSpaceOf(w: string, t: string)
    requires forall i | 0 <= i < |w| :: IsJsonSpace(w[i])
    requires |t| > 0 ==> !IsJsonSpace(t[0])
    ensures SkipSpace(w + t) == t
  {
    if |w| > 0 {
      assert (w + t)[1..] == w[1..] + t;
      SkipSpaceOf(w[1..], t);
    }
  }

  /** A string token of plain characters reads back as itself. */
  lemma ParseQuoted(v: string, rest: string)
    requires AllPlain(v)
    ensures ParseString(Quote(v) + rest) == Some((v, rest))
  {
    var s := Quote(v) + rest;
    assert s[1..] == v + ("\"" + rest);
    PlainRunOf(v, "\"" + rest);
    assert s[1..1 + |v|] == v;
    assert s[2 + |v|..] == rest;
  }

  lemma PlainRunOf(v: string, rest: string)
    requires AllPlain(v)
    requires |rest| > 0 && !IsPlain(rest[0])
    ensures PlainRun(v + rest) == |v|
  {
    if |v| > 0 {
      assert (v + rest)[1..] == v[1..] + rest;
      PlainRunOf(v[1..], rest);
    }
  }

  lemma SkipNoSpace(t: string)
    requires |t| > 0 ==> !IsJsonSpace(t[0])
    ensures SkipSpace(t) == t
  {
  }

  lemma ParseMemberOf(k: string, v: string, after: string)
    requires AllPlain(k) && AllPlain(v)
    ensures ParseMember(Quote(k) + ": " + Quote(v) + after) == Some((k, v, after))
  {
    var qv := Quote(v) + after;
    var r1 := ":" + (" " + qv);
    assert Quote(k) + ": " + Quote(v) + after == Quote(k) + r1;
    ParseQuoted(k, r1);
    SkipNoSpace(r1);
    assert r1[1..] == " " + qv;
    assert qv[0] == '"';
    SkipSpaceOf(" ", qv);
    ParseQuoted(v, after);
  }

  lemma MembersStep(s: string, k: string, v: string, after: string)
    requires ParseMember(s) == Some((k, v, after))
    ensures var r4 := SkipSpace(after);
      && (|r4| > 0 && r4[0] == ',' && ParseMembers(SkipSpace(r4[1..])).Some? ==>
            var (more, rest) := ParseMembers(SkipSpace(r4[1..])).value;
            ParseMembers(s) == Some(([(k, v)] + more, rest)))
      && (|r4| > 0 && r4[0] == '}' ==> ParseMembers(s) == Some(([(k, v)], r4[1..])))
  {
  }

  lemma Assoc(a: string, b: string, c: string)
    ensures a + b + c == a + (b + c)
  {
  }

  lemma {:induction false} ItemsSplit(ms: seq<(string, string)>, tail: string)
    requires |ms| >= 1
    ensures |ms| == 1 ==>
      Items(ms) + "\n}" + tail == Quote(ms[0].0) + ": " + Quote(ms[0].1) + ("\n}" + tail)
    ensures |ms| > 1 ==>
      Items(ms) + "\n}" + tail
        == Quote(ms[0].0) + ": " + Quote(ms[0].1) + (",\n  " + (Items(ms[1..]) + "\n}" + tail))
  {
    var head := Quote(ms[0].0) + ": " + Quote(ms[0].1);
    var more := if |ms| == 1 then "" else ",\n  " + Items(ms[1..]);
    assert Items(ms) == head + more;
    Assoc(head, more, "\n}");
    Assoc(head, more + "\n}", tail);
    if |ms| > 1 {
      Assoc(",\n  ", Items(ms[1..]), "\n}");
      Assoc(",\n  ", Items(ms[1..]) + "\n}", tail);
    } else {
      assert more + "\n}" == "\n}";
    }
  }

  /** What follows the first member of `Items(ms) + "\n}" + tail`. */
  function AfterFirst(ms: seq<(string, string)>, tail: string): string
    requires |ms| >= 1
  {
    if |ms| == 1 then "\n}" + tail else ",\n  " + (Items(ms[1..]) + "\n}" + tail)
  }

  lemma ParseFirstItem(ms: seq<(string, string)>, tail: string)
    requires |ms| >= 1 && PlainMembers(ms)
    ensures ParseMember(Items(ms) + "\n}" + tail) == Some((ms[0].0, ms[0].1, AfterFirst(ms, tail)))
  {
    ItemsSplit(ms, tail);
    ParseMemberOf(ms[0].0, ms[0].1, AfterFirst(ms, tail));
  }

  lemma SkipAfterFirst(ms: seq<(string, string)>, tail: string)
    requires |ms| >= 1
    ensures var r4 := SkipSpace(AfterFirst(ms, tail));
      && |r4| > 0
      && (|ms| == 1 ==> r4[0] == '}' && r4[1..] == tail)
      && (|ms| > 1 ==> r4[0] == ',' && SkipSpace(r4[1..]) == Items(ms[1..]) + "\n}" + tail)
  {
    var after := AfterFirst(ms, tail);
    if |ms| == 1 {
      assert after[1..] == "}" + tail;
    } else {
      var next := Items(ms[1..]) + "\n}" + tail;
      assert after[1..] == "\n  " + next;
      assert Quote(ms[1].0)[0] == '"';
      SkipSpaceOf("\n  ", next);
    }
  }

  lemma ParseLastItem(ms: seq<(string, string)>, tail: string)
    requires |ms| == 1 && PlainMembers(ms)
    ensures ParseMembers(Items(ms) + "\n}" + tail) == Some((ms, tail))
  {
    ParseFirstItem(ms, tail);
    MembersStep(Items(ms) + "\n}" + tail, ms[0].0, ms[0].1, AfterFirst(ms, tail));
    SkipAfterFirst(ms, tail);
    assert [(ms[0].0, ms[0].1)] == ms;
  }

  lemma MembersCons(s: string, k: string, v: string, after: string, more: Object, rest: string, all: Object)
    requires ParseMember(s) == Some((k, v, after))
    requires |SkipSpace(after)| > 0 && SkipSpace(after)[0] == ','
    requires ParseMembers(SkipSpace(SkipSpace(after)[1..])) == Some((more, rest))
    requires all == [(k, v)] + more
    ensures ParseMembers(s) == Some((all, rest))
  {
  }

  lemma SkipAfterNext(ms: seq<(string, string)>, tail: string)
    requires |ms| > 1
    ensures |SkipSpace(AfterFirst(ms, tail))| > 0 && SkipSpace(AfterFirst(ms, tail))[0] == ','
    ensures SkipSpace(SkipSpace(AfterFirst(ms, tail))[1..]) == Items(ms[1..]) + "\n}" + tail
  {
    SkipAfterFirst(ms, tail);
  }

  lemma ParseNextItem(ms: seq<(string, string)>, tail: string)
    requires |ms| > 1 && PlainMembers(ms)
    requires ParseMembers(Items(ms[1..]) + "\n}" + tail) == Some((ms[1..], tail))
    ensures ParseMembers(Items(ms) + "\n}" + tail) == Some((ms, tail))
  {
    ParseFirstItem(ms, tail);
    SkipAfterNext(ms, tail);
    assert [(ms[0].0, ms[0].1)] + ms[1..] == ms;
    MembersCons(Items(ms) + "\n}" + tail, ms[0].0, ms[0].1, AfterFirst(ms, tail), ms[1..], tail, ms);
  }

  lemma {:induction false} ParseItems(ms: seq<(string, string)>, tail: string)
    requires |ms| >= 1 && PlainMembers(ms)
    ensures ParseMembers(Items(ms) + "\n}" + tail) == Some((ms, tail))
    decreases |ms|
  {
    if |ms| == 1 {
      ParseLastItem(ms, tail);
    } else {
      ParseItems(ms[1..], tail);
      ParseNextItem(ms, tail);
    }
  }

  /** Parsing the rendering, followed by any white space, gives back the
      members in order. */
  lemma ParseRender(ms: seq<(string, string)>, trailer: string)
    requires |ms| >= 1 && PlainMembers(ms)
    requires forall i | 0 <= i < |trailer| :: IsJsonSpace(trailer[i])
    ensures Parse(Render(ms) + trailer) == Some(ms)
  {
    var body := Items(ms) + "\n}" + trailer;
    var s := Render(ms) + trailer;
    Assoc("{\n  ", Items(ms), "\n}");
    Assoc("{\n  ", Items(ms) + "\n}", trailer);
    assert s == "{\n  " + body;
    assert "{\n  " + body == "{" + ("\n  " + body);
    assert s[1..] == "\n  " + body;
    SkipNoSpace(s);
    SkipSpaceOf("\n  ", body);
    ParseItems(ms, trailer);
    SkipSpaceOf(trailer, "");
    assert trailer + "" == trailer;
  }
}
