/**
 * The signed resolution path: the article page's signing parameters, and
 * the search of the batch RPC response for the publisher URL. The response
 * is a JSON-in-string blob; it is unescaped by three global replacements and
 * then scanned for URLs, and the first URL that is not the aggregator's own
 * (or its static-asset host's) is the answer.
 */
module SignedResolver {
  import opened Wrappers
  import opened JsString
  import opened Collaborators

  // ---------------------------------------------------------------------
  // Signing parameters (the attribute check of the article-page lookup)
  // ---------------------------------------------------------------------

  /** The signing parameters read from the article page: present exactly when
      the page was fetched and both attributes are present and non-empty
      (JavaScript's truthiness of strings). */
  function DecodingParams(page: Option<PageAttributes>): (r: Option<SigningParams>)
    ensures r.Some? <==> page.Some? && page.value.signature.Some? && page.value.signature.value != "" &&
                         page.value.timestamp.Some? && page.value.timestamp.value != ""
    ensures r.Some? ==> r.value == SigningParams(page.value.signature.value, page.value.timestamp.value)
  {
    match page
    case None => None
    case Some(attrs) =>
      if attrs.signature.Some? && attrs.signature.value != "" &&
         attrs.timestamp.Some? && attrs.timestamp.value != ""
      then Some(SigningParams(attrs.signature.value, attrs.timestamp.value))
      else None
  }

  // ---------------------------------------------------------------------
  // Unescaping
  // ---------------------------------------------------------------------

  predicate IsHexDigit(c: char) {
    ('0' <= c <= '9') || ('a' <= c <= 'f') || ('A' <= c <= 'F')
  }

  function HexValue(c: char): (v: nat)
    requires IsHexDigit(c)
    ensures v < 16
  {
    if '0' <= c <= '9' then (c as int) - ('0' as int)
    else if 'a' <= c <= 'f' then (c as int) - ('a' as int) + 10
    else (c as int) - ('A' as int) + 10
  }

  /** `parseInt(h, 16)` of four hex digits. */
  function HexQuadValue(h: string): (v: nat)
    requires |h| == 4 && forall k :: 0 <= k < 4 ==> IsHexDigit(h[k])
    ensures v < 0x10000
  {
    ((HexValue(h[0]) * 16 + HexValue(h[1])) * 16 + HexValue(h[2])) * 16 + HexValue(h[3])
  }

  /** A code unit a Dafny character can hold (no lone UTF-16 surrogate). */
  predicate IsScalarCodeUnit(v: int) {
    0 <= v < 0xD800 || 0xE000 <= v < 0x10000
  }

  /** `s` opens with two backslashes, `u` and four hex digits naming a code
      unit other than a surrogate. */
  predicate StartsWithCodeUnitEscape(s: string) {
    && |s| >= 7 && s[0] == '\\' && s[1] == '\\' && s[2] == 'u'
    && IsHexDigit(s[3]) && IsHexDigit(s[4]) && IsHexDigit(s[5]) && IsHexDigit(s[6])
    && IsScalarCodeUnit(HexQuadValue(s[3..7]))
  }

  /** The first replacement: each two-backslash `u` escape, left to right and
      without rescanning what was inserted, becomes the code unit it names. */
  function ReplaceCodeUnitEscapes(s: string): (r: string)
    ensures |r| <= |s|
    decreases |s|
  {
    if s == [] then []
    else if StartsWithCodeUnitEscape(s) then
      [HexQuadValue(s[3..7]) as char] + ReplaceCodeUnitEscapes(s[7..])
    else [s[0]] + ReplaceCodeUnitEscapes(s[1..])
  }

  /** The second and third replacements: each backslash followed by `c`, left
      to right, becomes `c`. */
  function ReplaceEscaped(s: string, c: char): (r: string)
    ensures |r| <= |s|
    decreases |s|
  {
    if s == [] then []
    else if |s| >= 2 && s[0] == '\\' && s[1] == c then [c] + ReplaceEscaped(s[2..], c)
    else [s[0]] + ReplaceEscaped(s[1..], c)
  }

  /** The response text after the three replacements, in the source's order. */
  function Unescape(body: string): string {
    ReplaceEscaped(ReplaceEscaped(ReplaceCodeUnitEscapes(body), '"'), '/')
  }

  /** JSON's optional escaping of quotes and slashes: a backslash before each. */
  function EscapeQuotesAndSlashes(s: string): (r: string)
    decreases |s|
  {
    if s == [] then []
    else if s[0] == '"' || s[0] == '/' then ['\\', s[0]] + EscapeQuotesAndSlashes(s[1..])
    else [s[0]] + EscapeQuotesAndSlashes(s[1..])
  }

  /** A backslash before each occurrence of `c` only. */
  function EscapeChar(s: string, c: char): (r: string)
    decreases |s|
  {
    if s == [] then []
    else if s[0] == c then ['\\', c] + EscapeChar(s[1..], c)
    else [s[0]] + EscapeChar(s[1..], c)
  }

  /** No two backslashes stand side by side. */
  ghost predicate NoDoubleBackslash(s: string) {
    forall k :: 0 <= k < |s| - 1 ==> !(s[k] == '\\' && s[k + 1] == '\\')
  }

  lemma {:induction false} NoDoubleBackslashUnchanged(s: string)
    requires NoDoubleBackslash(s)
    ensures ReplaceCodeUnitEscapes(s) == s
    decreases |s|
  {
    if s != [] {
      assert NoDoubleBackslash(s[1..]) by {
        forall k | 0 <= k < |s[1..]| - 1 ensures !(s[1..][k] == '\\' && s[1..][k + 1] == '\\') {
          assert s[1..][k] == s[k + 1] && s[1..][k + 1] == s[k + 2];
        }
      }
      NoDoubleBackslashUnchanged(s[1..]);
    }
  }

  lemma {:induction false} EscapedTextHasNoDoubleBackslash(s: string)
    requires '\\' !in s
    ensures NoDoubleBackslash(EscapeQuotesAndSlashes(s))
    decreases |s|
  {
    if s != [] {
      EscapedTextHasNoDoubleBackslash(s[1..]);
      var e := EscapeQuotesAndSlashes(s);
      var e' := EscapeQuotesAndSlashes(s[1..]);
      var h := if s[0] == '"' || s[0] == '/' then ['\\', s[0]] else [s[0]];
      assert e == h + e';
      forall k | 0 <= k < |e| - 1 ensures !(e[k] == '\\' && e[k + 1] == '\\') {
        if k >= |h| {
          assert e[k] == e'[k - |h|] && e[k + 1] == e'[k - |h| + 1];
        } else if k == |h| - 1 {
          assert e[k] == s[0];
        }
      }
    }
  }

  lemma ReplaceEscapedPlain(x: char, rest: string, c: char)
    requires x != '\\'
    ensures ReplaceEscaped([x] + rest, c) == [x] + ReplaceEscaped(rest, c)
  {
    assert ([x] + rest)[1..] == rest;
  }

  lemma ReplaceEscapedPair(rest: string, c: char)
    ensures ReplaceEscaped(['\\', c] + rest, c) == [c] + ReplaceEscaped(rest, c)
  {
    assert (['\\', c] + rest)[2..] == rest;
  }

  lemma ReplaceEscapedOtherPair(y: char, rest: string, c: char)
    requires y != c && y != '\\'
    ensures ReplaceEscaped(['\\', y] + rest, c) == ['\\', y] + ReplaceEscaped(rest, c)
  {
    assert (['\\', y] + rest)[1..] == [y] + rest;
    ReplaceEscapedPlain(y, rest, c);
  }

  lemma {:induction false} UnescapeQuotesStep(s: string)
    requires '\\' !in s
    ensures ReplaceEscaped(EscapeQuotesAndSlashes(s), '"') == EscapeChar(s, '/')
    decreases |s|
  {
    if s != [] {
      UnescapeQuotesStep(s[1..]);
      var e' := EscapeQuotesAndSlashes(s[1..]);
      if s[0] == '"' {
        ReplaceEscapedPair(e', '"');
      } else if s[0] == '/' {
        ReplaceEscapedOtherPair('/', e', '"');
      } else {
        ReplaceEscapedPlain(s[0], e', '"');
      }
    }
  }

  /** Removing the backslashes that `EscapeChar` inserted gives the text back. */
  lemma {:induction false} ReplaceEscapedInverse(s: string, c: char)
    requires '\\' !in s && c != '\\'
    ensures ReplaceEscaped(EscapeChar(s, c), c) == s
    decreases |s|
  {
    if s != [] {
      ReplaceEscapedInverse(s[1..], c);
      var e' := EscapeChar(s[1..], c);
      if s[0] == c {
        ReplaceEscapedPair(e', c);
      } else {
        ReplaceEscapedPlain(s[0], e', c);
      }
    }
  }

  /** Unescaping undoes JSON's escaping of quotes and slashes for any text
      without backslashes. */
  lemma UnescapeInvertsEscape(s: string)
    requires '\\' !in s
    ensures Unescape(EscapeQuotesAndSlashes(s)) == s
  {
    EscapedTextHasNoDoubleBackslash(s);
    NoDoubleBackslashUnchanged(EscapeQuotesAndSlashes(s));
    UnescapeQuotesStep(s);
    ReplaceEscapedInverse(s, '/');
  }

  /** The lowercase hex digit of a value below 16. */
  function HexDigit(n: nat): (c: char)
    requires n < 16
    ensures IsHexDigit(c) && HexValue(c) == n
  {
    if n < 10 then ('0' as int + n) as char else ('a' as int + n - 10) as char
  }

  /** The double-escaped form of a code unit: two backslashes, `u`, four
      hex digits, most significant first. */
  function CodeUnitEscape(c: char): (e: string)
    requires IsScalarCodeUnit(c as int)
    ensures |e| == 7
  {
    var v := c as int;
    var w1 := v / 16;
    var w2 := w1 / 16;
    ['\\', '\\', 'u', HexDigit(w2 / 16), HexDigit(w2 % 16), HexDigit(w1 % 16), HexDigit(v % 16)]
  }

  /** A double-escaped code unit is replaced by that code unit, and the
      replacement goes on after it. */
  lemma CodeUnitEscapeReplaced(c: char, rest: string)
    requires IsScalarCodeUnit(c as int)
    ensures ReplaceCodeUnitEscapes(CodeUnitEscape(c) + rest) == [c] + ReplaceCodeUnitEscapes(rest)
  {
    var s := CodeUnitEscape(c) + rest;
    var v := c as int;
    var w1 := v / 16;
    var w2 := w1 / 16;
    assert w2 == (w2 / 16) * 16 + w2 % 16;
    assert w1 == w2 * 16 + w1 % 16;
    assert v == w1 * 16 + v % 16;
    var h := CodeUnitEscape(c)[3..7];
    assert HexQuadValue(h) == v;
    assert CodeUnitEscape(c) == ['\\', '\\', 'u'] + h;
    assert s == ['\\', '\\', 'u'] + h + rest;
    HexEscapeReplaced(h, rest);
  }

  /** Two backslashes, `u` and any four hex digits, in either case, naming a
      code unit other than a surrogate are replaced by that code unit, and the
      replacement goes on after them. */
  lemma HexEscapeReplaced(h: string, rest: string)
    requires |h| == 4 && forall j :: 0 <= j < 4 ==> IsHexDigit(h[j])
    requires IsScalarCodeUnit(HexQuadValue(h))
    ensures ReplaceCodeUnitEscapes(['\\', '\\', 'u'] + h + rest) ==
      [HexQuadValue(h) as char] + ReplaceCodeUnitEscapes(rest)
  {
    var s := ['\\', '\\', 'u'] + h + rest;
    assert s[3..7] == h;
    assert StartsWithCodeUnitEscape(s);
    assert s[7..] == rest;
  }

  // ---------------------------------------------------------------------
  // URL scanning
  // ---------------------------------------------------------------------

  /** The character class of the URL pattern: `[a-zA-Z0-9\-._~:/?#[\]@!$&'()*+,;=%]`. */
  predicate IsUrlChar(c: char) {
    ('a' <= c <= 'z') || ('A' <= c <= 'Z') || ('0' <= c <= '9') ||
    c == '-' || c == '.' || c == '_' || c == '~' || c == ':' || c == '/' ||
    c == '?' || c == '#' || c == '[' || c == ']' || c == '@' || c == '!' ||
    c == '$' || c == '&' || c == '\'' || c == '(' || c == ')' || c == '*' ||
    c == '+' || c == ',' || c == ';' || c == '=' || c == '%'
  }

  ghost predicate AllUrlChars(s: string) {
    forall k :: 0 <= k < |s| ==> IsUrlChar(s[k])
  }

  /** The length of the longest run of URL characters `s` starts with. */
  function UrlRun(s: string): (n: nat)
    ensures n <= |s| && AllUrlChars(s[..n])
    ensures n < |s| ==> !IsUrlChar(s[n])
    decreases |s|
  {
    if s != [] && IsUrlChar(s[0]) then 1 + UrlRun(s[1..]) else 0
  }

  /** What the pattern matches: `http://` or `https://` and one or more URL characters. */
  ghost predicate IsUrlToken(m: string) {
    && ((StartsWith(m, "http://") && |m| > 7) || (StartsWith(m, "https://") && |m| > 8))
    && AllUrlChars(m)
  }

  /** After a scheme of URL characters, the run of URL characters extends
      the match as far as it goes. */
  lemma RunAfterScheme(s: string, scheme: string)
    requires StartsWith(s, scheme) && AllUrlChars(scheme)
    ensures var n := |scheme| + UrlRun(s[|scheme|..]);
      && n <= |s| && StartsWith(s[..n], scheme) && AllUrlChars(s[..n])
      && (n == |s| || !IsUrlChar(s[n]))
  {
    var n := |scheme| + UrlRun(s[|scheme|..]);
    assert s[..n] == scheme + s[|scheme|..][..n - |scheme|];
    if n < |s| {
      assert s[n] == s[|scheme|..][n - |scheme|];
    }
  }

  /** The length of the pattern's (greedy) match at the start of `s`, or 0
      when the pattern does not match there. */
  function MatchLength(s: string): (n: nat)
    ensures n <= |s|
    ensures n > 0 ==> IsUrlToken(s[..n]) && (n == |s| || !IsUrlChar(s[n]))
    ensures n > 0 ==> s[0] == 'h'
    ensures n == 0 ==> forall m :: 0 < m <= |s| ==> !IsUrlToken(s[..m])
  {
    NoTokenWithoutMatch(s);
    if StartsWith(s, "https://") && |s| > 8 && IsUrlChar(s[8]) then
      RunAfterScheme(s, "https://");
      8 + UrlRun(s[8..])
    else if StartsWith(s, "http://") && |s| > 7 && IsUrlChar(s[7]) then
      RunAfterScheme(s, "http://");
      7 + UrlRun(s[7..])
    else 0
  }

  /** When the pattern's match test fails at the start of `s`, no prefix of
      `s` is a URL token. */
  lemma NoTokenWithoutMatch(s: string)
    ensures !(StartsWith(s, "https://") && |s| > 8 && IsUrlChar(s[8])) &&
            !(StartsWith(s, "http://") && |s| > 7 && IsUrlChar(s[7])) ==>
              forall m :: 0 < m <= |s| ==> !IsUrlToken(s[..m])
  {
    forall m | 0 < m <= |s| && IsUrlToken(s[..m])
      ensures (StartsWith(s, "https://") && |s| > 8 && IsUrlChar(s[8])) ||
              (StartsWith(s, "http://") && |s| > 7 && IsUrlChar(s[7]))
    {
      var t := s[..m];
      assert t <= s;
      if StartsWith(t, "https://") && |t| > 8 {
        assert IsUrlChar(t[8]);
      } else {
        assert IsUrlChar(t[7]);
      }
    }
  }

  /** `s.match(pattern)` with the global flag: the successive leftmost,
      non-overlapping matches; no match gives the empty list. */
  function UrlMatches(s: string): (ms: seq<string>)
    ensures forall k :: 0 <= k < |ms| ==> IsUrlToken(ms[k]) && Contains(s, ms[k])
    decreases |s|
  {
    if s == [] then []
    else
      var n := MatchLength(s);
      if n > 0 then
        var rest := UrlMatches(s[n..]);
        forall k | 0 <= k < |rest| ensures Contains(s, rest[k]) {
          ContainsInSuffix(s, rest[k], n);
        }
        ContainsAt(s, s[..n], 0);
        [s[..n]] + rest
      else
        var rest := UrlMatches(s[1..]);
        forall k | 0 <= k < |rest| ensures Contains(s, rest[k]) {
          ContainsInSuffix(s, rest[k], 1);
        }
        rest
  }

  /** The scan finds nothing exactly when the pattern matches at no position. */
  lemma {:induction false} UrlMatchesEmpty(s: string)
    ensures UrlMatches(s) == [] <==> forall i :: 0 <= i < |s| ==> MatchLength(s[i..]) == 0
    decreases |s|
  {
    if s != [] {
      assert s[0..] == s;
      if MatchLength(s) == 0 {
        UrlMatchesEmpty(s[1..]);
        forall i | 1 <= i < |s| ensures s[1..][i - 1..] == s[i..] {}
        assert forall j :: 0 <= j < |s[1..]| ==> s[1..][j..] == s[j + 1..];
      }
    }
  }

  /** The first match is the pattern's match at the leftmost position where
      it matches, and scanning resumes right after it. */
  lemma {:induction false} UrlMatchesLeftmost(s: string, i: nat)
    requires i < |s| && MatchLength(s[i..]) > 0
    requires forall j :: 0 <= j < i ==> MatchLength(s[j..]) == 0
    ensures var m := s[i..]; var n := MatchLength(m);
      UrlMatches(s) == [m[..n]] + UrlMatches(m[n..])
    decreases i
  {
    if i == 0 {
      assert s[0..] == s;
      UrlMatchesAtMatch(s);
    } else {
      NoMatchBeforeInTail(s, i);
      UrlMatchesLeftmost(s[1..], i - 1);
      SuffixOfTail(s, i - 1);
    }
  }

  /** Where the pattern matches, the match is taken and scanning resumes after it. */
  lemma UrlMatchesAtMatch(s: string)
    requires MatchLength(s) > 0
    ensures UrlMatches(s) == [s[..MatchLength(s)]] + UrlMatches(s[MatchLength(s)..])
  {
  }

  /** With no match in the first `i` positions, the scan skips the first
      character, and the tail has no match in its first `i - 1` positions. */
  lemma NoMatchBeforeInTail(s: string, i: nat)
    requires 0 < i < |s|
    requires forall j :: 0 <= j < i ==> MatchLength(s[j..]) == 0
    ensures UrlMatches(s) == UrlMatches(s[1..])
    ensures forall j :: 0 <= j < i - 1 ==> MatchLength(s[1..][j..]) == 0
  {
    assert MatchLength(s) == 0 by { assert s[0..] == s; }
    forall j | 0 <= j < i - 1 ensures MatchLength(s[1..][j..]) == 0 {
      SuffixOfTail(s, j);
    }
  }

  lemma SuffixOfTail(s: string, j: nat)
    requires j < |s|
    ensures s[1..][j..] == s[j + 1..]
  {
  }

  /** Text without an `h` cannot start a match, so scanning skips it. */
  lemma {:induction false} UrlMatchesSkip(p: string, s: string)
    requires 'h' !in p
    ensures UrlMatches(p + s) == UrlMatches(s)
    decreases |p|
  {
    if p != [] {
      assert (p + s)[1..] == p[1..] + s;
      UrlMatchesSkip(p[1..], s);
    } else {
      assert p + s == s;
    }
  }

  lemma {:induction false} UrlRunOfToken(u: string, q: string)
    requires AllUrlChars(u)
    requires q == [] || !IsUrlChar(q[0])
    ensures UrlRun(u + q) == |u|
    decreases |u|
  {
    if u == [] {
      assert u + q == q;
    } else {
      assert (u + q)[1..] == u[1..] + q;
      UrlRunOfToken(u[1..], q);
    }
  }

  /** The match at the start of a URL followed by a non-URL character is that URL. */
  lemma MatchLengthOfToken(u: string, q: string)
    requires IsUrlToken(u)
    requires q == [] || !IsUrlChar(q[0])
    ensures MatchLength(u + q) == |u|
  {
    var s := u + q;
    if StartsWith(u, "https://") && |u| > 8 {
      assert s[8..] == u[8..] + q;
      UrlRunOfToken(u[8..], q);
    } else {
      assert s[7..] == u[7..] + q;
      assert StartsWith(u, "http://") && u[4] == ':';
      assert !StartsWith(s, "https://");
      UrlRunOfToken(u[7..], q);
    }
  }

  /** A URL that stands in text after a stretch without `h` and before a
      character outside the URL class is the first match, and scanning
      resumes right after it. */
  lemma UrlMatchesOfEmbedded(p: string, u: string, q: string)
    requires 'h' !in p && IsUrlToken(u)
    requires q == [] || !IsUrlChar(q[0])
    ensures UrlMatches(p + u + q) == [u] + UrlMatches(q)
  {
    assert p + u + q == p + (u + q);
    UrlMatchesSkip(p, u + q);
    var s := u + q;
    MatchLengthOfToken(u, q);
    assert s[..|u|] == u && s[|u|..] == q;
  }

  // ---------------------------------------------------------------------
  // Choosing the publisher URL
  // ---------------------------------------------------------------------

  const AggregatorHost: string := "news.google.com"
  const StaticAssetHost: string := "gstatic.com"

  /** A URL naming the aggregator or its static-asset host anywhere in it. */
  predicate IsAggregatorUrl(u: string) {
    Contains(u, AggregatorHost) || Contains(u, StaticAssetHost)
  }

  /** The index of the first URL of `ms` that is not the aggregator's, or
      `|ms|` when every one is: everything before it is the aggregator's. */
  function FirstPublisherIndex(ms: seq<string>): (i: nat)
    ensures i <= |ms|
    ensures forall j :: 0 <= j < i ==> IsAggregatorUrl(ms[j])
    ensures i < |ms| ==> !IsAggregatorUrl(ms[i])
    decreases |ms|
  {
    if ms == [] || !IsAggregatorUrl(ms[0]) then 0
    else 1 + FirstPublisherIndex(ms[1..])
  }

  /** The first URL of `ms` that is not the aggregator's, if any. */
  function FirstPublisher(ms: seq<string>): (r: Option<string>)
    ensures r.None? <==> forall k :: 0 <= k < |ms| ==> IsAggregatorUrl(ms[k])
  {
    var i := FirstPublisherIndex(ms);
    if i < |ms| then Some(ms[i]) else None
  }

  /** The publisher URL the signed path finds in a batch RPC response: a
      match of the URL pattern that is not the aggregator's. */
  function PublisherUrlIn(body: string): (r: Option<string>)
    ensures r.Some? ==> IsUrlToken(r.value) && !IsAggregatorUrl(r.value)
  {
    FirstPublisher(UrlMatches(Unescape(body)))
  }

  /** The batch RPC exchange as the service runs it: post, unescape, scan,
      and return the first non-aggregator URL, looping with an early return. */
  method DecodeWithBatchExecute(web: Web, articleId: string, params: SigningParams)
    returns (url: Option<string>)
    ensures web.batchExecute(articleId, params).None? ==> url == None
    ensures web.batchExecute(articleId, params).Some? ==>
              url == PublisherUrlIn(web.batchExecute(articleId, params).value)
  {
    var response := web.batchExecute(articleId, params);
    if response.None? {
      return None;
    }
    var unescapedData := Unescape(response.value);
    var matches := UrlMatches(unescapedData);
    for i := 0 to |matches|
      invariant forall j :: 0 <= j < i ==> IsAggregatorUrl(matches[j])
    {
      if !Contains(matches[i], AggregatorHost) && !Contains(matches[i], StaticAssetHost) {
        FirstPublisherAt(matches, i);
        return Some(matches[i]);
      }
    }
    return None;
  }

  /** The first non-aggregator URL is the one after a run of aggregator URLs. */
  lemma FirstPublisherAt(ms: seq<string>, i: nat)
    requires i < |ms| && !IsAggregatorUrl(ms[i])
    requires forall j :: 0 <= j < i ==> IsAggregatorUrl(ms[j])
    ensures FirstPublisher(ms) == Some(ms[i])
  {
  }

  /** A response that is the JSON-escaped form of text whose first URL is a
      publisher URL yields that URL. */
  lemma PublisherUrlOfEscapedText(before: string, u: string, after: string)
    requires 'h' !in before && IsUrlToken(u) && !IsAggregatorUrl(u) && (after == [] || !IsUrlChar(after[0]))
    requires '\\' !in before + u + after
    ensures PublisherUrlIn(EscapeQuotesAndSlashes(before + u + after)) == Some(u)
  {
    UnescapeInvertsEscape(before + u + after);
    UrlMatchesOfEmbedded(before, u, after);
    FirstPublisherAt(UrlMatches(before + u + after), 0);
  }
}
