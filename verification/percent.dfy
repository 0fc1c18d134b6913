/** `encodeURIComponent` and its inverse `decodeURIComponent`, as used by the
    issue generator (packages/site/src/hooks/useGitHubIssueGenerator.tsx:5-6, 49).
    Characters are Unicode scalar values; each character outside the
    unreserved set is written as the `%XX` escapes (upper-case hex) of its
    UTF-8 bytes, following the percent-encoding of section 2.1 of RFC 3986. */
module Percent {
  import opened Base

  /** The characters `encodeURIComponent` leaves alone:
      `A-Z a-z 0-9 - _ . ! ~ * ' ( )`. */
  predicate IsUnreserved(c: char) {
    || ('A' <= c <= 'Z') || ('a' <= c <= 'z') || ('0' <= c <= '9')
    || c == '-' || c == '_' || c == '.' || c == '!' || c == '~'
    || c == '*' || c == '\'' || c == '(' || c == ')'
  }

  predicate IsUpperHex(c: char) {
    ('0' <= c <= '9') || ('A' <= c <= 'F')
  }

  predicate IsHex(c: char) {
    IsUpperHex(c) || ('a' <= c <= 'f')
  }

  function HexDigit(d: nat): (c: char)
    requires d < 16
    ensures IsUpperHex(c) && IsUnreserved(c)
  {
    if d < 10 then ('0' as int + d) as char else ('A' as int + d - 10) as char
  }

  /** The value of a hex digit of either case. */
  function HexValue(c: char): (d: nat)
    requires IsHex(c)
    ensures d < 16
  {
    if '0' <= c <= '9' then c as int - '0' as int
    else if 'A' <= c <= 'F' then c as int - 'A' as int + 10
    else c as int - 'a' as int + 10
  }

  lemma HexRoundTrip(d: nat)
    requires d < 16
    ensures HexValue(HexDigit(d)) == d
  {
  }

  // ---------------------------------------------------------------------------
  // UTF-8
  // ---------------------------------------------------------------------------

  type Byte = b: nat | b < 256

  /** The UTF-8 encoding of one scalar value. */
  function Utf8(c: char): (bs: seq<Byte>)
    ensures 1 <= |bs| <= 4
  {
    var n := c as int;
    if n < 0x80 then [n]
    else if n < 0x800 then [0xC0 + n / 64, 0x80 + n % 64]
    else if n < 0x1_0000 then [0xE0 + n / 4096, 0x80 + n / 64 % 64, 0x80 + n % 64]
    else [0xF0 + n / 262144, 0x80 + n / 4096 % 64, 0x80 + n / 64 % 64, 0x80 + n % 64]
  }

  /** How many bytes a sequence starting with this byte has; 0 when the byte
      cannot start one. */
  function SequenceLength(b: Byte): nat {
    if b < 0x80 then 1
    else if 0xC0 <= b < 0xE0 then 2
    else if 0xE0 <= b < 0xF0 then 3
    else if 0xF0 <= b < 0xF8 then 4
    else 0
  }

  predicate IsContinuation(b: Byte) {
    0x80 <= b < 0xC0
  }

  predicate IsScalar(n: int) {
    (0 <= n < 0xD800) || (0xE000 <= n <= 0x10_FFFF)
  }

  /** The code point a well-formed sequence denotes, rejecting over-long
      forms, surrogates and values above U+10FFFF (decodeURIComponent throws a
      URIError on each). */
  function Utf8Decode(bs: seq<Byte>): Option<char> {
    if |bs| == 0 || SequenceLength(bs[0]) != |bs| then None
    else if exists k | 1 <= k < |bs| :: !IsContinuation(bs[k]) then None
    else
      var n: int :=
        if |bs| == 1 then bs[0]
        else if |bs| == 2 then (bs[0] as int - 0xC0) * 64 + (bs[1] as int - 0x80)
        else if |bs| == 3 then (bs[0] as int - 0xE0) * 4096 + (bs[1] as int - 0x80) * 64 + (bs[2] as int - 0x80)
        else (bs[0] as int - 0xF0) * 262144 + (bs[1] as int - 0x80) * 4096 + (bs[2] as int - 0x80) * 64 + (bs[3] as int - 0x80);
      var least: int := if |bs| == 1 then 0 else if |bs| == 2 then 0x80 else if |bs| == 3 then 0x800 else 0x1_0000;
      if least <= n && IsScalar(n) then Some(n as char) else None
  }

  lemma Utf8RoundTrip1(c: char)
    requires c as int < 0x80
    ensures Utf8Decode(Utf8(c)) == Some(c)
  {
  }

  lemma Utf8RoundTrip2(c: char)
    requires 0x80 <= c as int < 0x800
    ensures Utf8Decode(Utf8(c)) == Some(c)
  {
    var n := c as int;
    var bs := Utf8(c);
    assert bs == [0xC0 + n / 64, 0x80 + n % 64];
    assert IsContinuation(bs[1]);
    assert (bs[0] as int - 0xC0) * 64 + (bs[1] as int - 0x80) == n;
  }

  lemma Utf8RoundTrip3(c: char)
    requires 0x800 <= c as int < 0x1_0000
    ensures Utf8Decode(Utf8(c)) == Some(c)
  {
    var n := c as int;
    var bs := Utf8(c);
    assert bs == [0xE0 + n / 4096, 0x80 + n / 64 % 64, 0x80 + n % 64];
    assert n / 64 / 64 == n / 4096;
    assert IsContinuation(bs[1]) && IsContinuation(bs[2]);
    assert (bs[0] as int - 0xE0) * 4096 + (bs[1] as int - 0x80) * 64 + (bs[2] as int - 0x80) == n;
  }

  lemma Utf8RoundTrip4(c: char)
    requires 0x1_0000 <= c as int
    ensures Utf8Decode(Utf8(c)) == Some(c)
  {
    var n := c as int;
    var bs := Utf8(c);
    assert bs == [0xF0 + n / 262144, 0x80 + n / 4096 % 64, 0x80 + n / 64 % 64, 0x80 + n % 64];
    assert n / 64 / 64 == n / 4096;
    assert n / 4096 / 64 == n / 262144;
    assert IsContinuation(bs[1]) && IsContinuation(bs[2]) && IsContinuation(bs[3]);
    assert (bs[0] as int - 0xF0) * 262144 + (bs[1] as int - 0x80) * 4096 + (bs[2] as int - 0x80) * 64 + (bs[3] as int - 0x80) == n;
  }

  /** Decoding the UTF-8 encoding of a character gives the character back. */
  lemma Utf8RoundTrip(c: char)
    ensures Utf8Decode(Utf8(c)) == Some(c)
  {
    if c as int < 0x80 {
      Utf8RoundTrip1(c);
    } else if c as int < 0x800 {
      Utf8RoundTrip2(c);
    } else if c as int < 0x1_0000 {
      Utf8RoundTrip3(c);
    } else {
      Utf8RoundTrip4(c);
    }
  }

  // ---------------------------------------------------------------------------
  // Encoding
  // ---------------------------------------------------------------------------

  function Escape(b: Byte): string {
    ['%', HexDigit(b / 16), HexDigit(b % 16)]
  }

  function EscapeAll(bs: seq<Byte>): (r: string)
    ensures |r| == 3 * |bs|
  {
    if |bs| == 0 then [] else Escape(bs[0]) + EscapeAll(bs[1..])
  }

  function EncodeChar(c: char): string {
    if IsUnreserved(c) then [c] else EscapeAll(Utf8(c))
  }

  /** The output alphabet: unreserved characters and `%`, and every `%`
      starts an escape of two upper-case hex digits. */
  ghost predicate IsEncoded(r: string) {
    && (forall i | 0 <= i < |r| :: IsUnreserved(r[i]) || r[i] == '%')
    && (forall i | 0 <= i < |r| && r[i] == '%' :: i + 2 < |r| && IsUpperHex(r[i + 1]) && IsUpperHex(r[i + 2]))
  }

  lemma {:induction false} EncodedAppend(a: string, b: string)
    requires IsEncoded(a) && IsEncoded(b)
    ensures IsEncoded(a + b)
  {
    var r := a + b;
    forall i | 0 <= i < |r| && r[i] == '%'
      ensures i + 2 < |r| && IsUpperHex(r[i + 1]) && IsUpperHex(r[i + 2])
    {
      if i < |a| {
        assert a[i] == '%';
        assert r[i + 1] == a[i + 1] && r[i + 2] == a[i + 2];
      } else {
        assert b[i - |a|] == '%';
      }
    }
  }

  lemma {:induction false} EscapeAllEncoded(bs: seq<Byte>)
    ensures IsEncoded(EscapeAll(bs))
    decreases |bs|
  {
    if |bs| > 0 {
      var e := Escape(bs[0]);
      assert IsEncoded(e);
      EscapeAllEncoded(bs[1..]);
      EncodedAppend(e, EscapeAll(bs[1..]));
    }
  }

  /** `encodeURIComponent(s)`. */
  function EncodeURIComponent(s: string): (r: string)
    ensures IsEncoded(r)
    decreases |s|
  {
    if |s| == 0 then []
    else
      var head := EncodeChar(s[0]);
      var tail := EncodeURIComponent(s[1..]);
      EscapeAllEncoded(Utf8(s[0]));
      EncodedAppend(head, tail);
      head + tail
  }

  /** An encoded text cannot end a query value early: it holds no `&`, `#`
      or `=`. */
  lemma EncodedIsQueryValue(r: string)
    requires IsEncoded(r)
    ensures '&' !in r && '#' !in r && '=' !in r && '+' !in r
  {
  }

  // ---------------------------------------------------------------------------
  // Decoding
  // ---------------------------------------------------------------------------

  /** The byte written by the escape at the start of `s`. */
  function ReadByte(s: string): Option<Byte> {
    if |s| >= 3 && s[0] == '%' && IsHex(s[1]) && IsHex(s[2])
    then Some(HexValue(s[1]) * 16 + HexValue(s[2]))
    else None
  }

  /** The bytes of `k` consecutive escapes at the start of `s`. */
  function ReadBytes(s: string, k: nat): (r: Option<seq<Byte>>)
    ensures r.Some? ==> |r.value| == k && 3 * k <= |s|
  {
    if k == 0 then Some([])
    else match ReadByte(s)
      case None => None
      case Some(b) =>
        match ReadBytes(s[3..], k - 1)
        case None => None
        case Some(more) => Some([b] + more)
  }

  /** The character written by the escapes at the start of `s`, and how many
      characters of `s` they take. */
  function DecodeEscape(s: string): (r: Option<(char, nat)>)
    ensures r.Some? ==> 3 <= r.value.1 <= |s|
  {
    match ReadByte(s)
    case None => None
    case Some(b0) =>
      var len := SequenceLength(b0);
      if len == 0 then None
      else match ReadBytes(s, len)
        case None => None
        case Some(bs) =>
          match Utf8Decode(bs)
          case None => None
          case Some(c) => Some((c, 3 * len))
  }

  /** `decodeURIComponent(s)`: `None` where it throws a URIError. */
  function DecodeURIComponent(s: string): Option<string>
    decreases |s|
  {
    if |s| == 0 then Some([])
    else if s[0] != '%' then
      match DecodeURIComponent(s[1..])
      case None => None
      case Some(t) => Some([s[0]] + t)
    else
      match DecodeEscape(s)
      case None => None
      case Some((c, n)) =>
        match DecodeURIComponent(s[n..])
        case None => None
        case Some(t) => Some([c] + t)
  }

  // ---------------------------------------------------------------------------
  // Round trip
  // ---------------------------------------------------------------------------

  lemma ReadEscape(b: Byte, rest: string)
    ensures ReadByte(Escape(b) + rest) == Some(b)
  {
    HexRoundTrip(b / 16);
    HexRoundTrip(b % 16);
  }

  lemma {:induction false} ReadEscapes(bs: seq<Byte>, rest: string)
    ensures ReadBytes(EscapeAll(bs) + rest, |bs|) == Some(bs)
    decreases |bs|
  {
    if |bs| > 0 {
      var s := EscapeAll(bs) + rest;
      assert s == Escape(bs[0]) + (EscapeAll(bs[1..]) + rest);
      ReadEscape(bs[0], EscapeAll(bs[1..]) + rest);
      assert s[3..] == EscapeAll(bs[1..]) + rest;
      ReadEscapes(bs[1..], rest);
      assert [bs[0]] + bs[1..] == bs;
    }
  }

  lemma DecodeEscapeOf(s: string, bs: seq<Byte>, c: char)
    requires |bs| > 0 && ReadByte(s) == Some(bs[0]) && SequenceLength(bs[0]) == |bs|
    requires ReadBytes(s, |bs|) == Some(bs) && Utf8Decode(bs) == Some(c)
    ensures DecodeEscape(s) == Some((c, 3 * |bs|))
  {
  }

  /** The escapes of a well-formed sequence decode to its character. */
  lemma DecodeEscapedBytes(bs: seq<Byte>, c: char, rest: string)
    requires |bs| > 0 && SequenceLength(bs[0]) == |bs| && Utf8Decode(bs) == Some(c)
    ensures DecodeEscape(EscapeAll(bs) + rest) == Some((c, 3 * |bs|))
  {
    var s := EscapeAll(bs) + rest;
    ReadEscapes(bs, rest);
    ReadBytesHead(s, |bs|);
    DecodeEscapeOf(s, bs, c);
  }

  lemma ReadBytesHead(s: string, k: nat)
    requires k > 0 && ReadBytes(s, k).Some?
    ensures ReadByte(s) == Some(ReadBytes(s, k).value[0])
  {
  }

  lemma Utf8Lead(c: char)
    ensures SequenceLength(Utf8(c)[0]) == |Utf8(c)|
  {
  }

  lemma DecodeEncodedChar(c: char, rest: string)
    requires !IsUnreserved(c)
    ensures DecodeEscape(EncodeChar(c) + rest) == Some((c, |EncodeChar(c)|))
  {
    Utf8RoundTrip(c);
    Utf8Lead(c);
    DecodeEscapedBytes(Utf8(c), c, rest);
  }

  lemma DecodePlainStep(s: string, t: string)
    requires |s| > 0 && s[0] != '%' && DecodeURIComponent(s[1..]) == Some(t)
    ensures DecodeURIComponent(s) == Some([s[0]] + t)
  {
  }

  lemma DecodeEscapeStep(s: string, c: char, n: nat, t: string)
    requires |s| > 0 && s[0] == '%' && DecodeEscape(s) == Some((c, n)) && DecodeURIComponent(s[n..]) == Some(t)
    ensures DecodeURIComponent(s) == Some([c] + t)
  {
  }

  /** Decoding the encoding of one character followed by text that decodes
      gives the character followed by that text's decoding. */
  lemma DecodeCharThen(c: char, tail: string, t: string)
    requires DecodeURIComponent(tail) == Some(t)
    ensures DecodeURIComponent(EncodeChar(c) + tail) == Some([c] + t)
  {
    var head := EncodeChar(c);
    var e := head + tail;
    if IsUnreserved(c) {
      assert e[0] == c && e[1..] == tail;
      DecodePlainStep(e, t);
    } else {
      DecodeEncodedChar(c, tail);
      EscapeAllStartsWithPercent(Utf8(c), tail);
      assert e[|head|..] == tail;
      DecodeEscapeStep(e, c, |head|, t);
    }
  }

  lemma EscapeAllStartsWithPercent(bs: seq<Byte>, rest: string)
    requires |bs| > 0
    ensures (EscapeAll(bs) + rest)[0] == '%'
  {
  }

  /** Decoding undoes encoding. */
  lemma {:induction false} DecodeEncode(s: string)
    ensures DecodeURIComponent(EncodeURIComponent(s)) == Some(s)
    decreases |s|
  {
    if |s| > 0 {
      var tail := EncodeURIComponent(s[1..]);
      assert EncodeURIComponent(s) == EncodeChar(s[0]) + tail;
      DecodeEncode(s[1..]);
      DecodeCharThen(s[0], tail, s[1..]);
      assert [s[0]] + s[1..] == s;
    }
  }
}
