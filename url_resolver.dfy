/**
 * Resolution of an aggregator redirect link to the publisher URL: a fast
 * path for links that are not the aggregator's, then the offline legacy
 * decoder, then the signed batch RPC exchange, and the original link when
 * every step fails.
 */
module UrlResolver {
  import opened Wrappers
  import opened JsString
  import opened Collaborators
  import opened LegacyDecoder
  import opened SignedResolver

  const ArticlesSegment: string := "/articles/"

  /** The longest prefix of `s` without a `?`. */
  function TakeUntilQuestionMark(s: string): (r: string)
    ensures r <= s && '?' !in r
    ensures |r| < |s| ==> s[|r|] == '?'
    decreases |s|
  {
    if s == [] || s[0] == '?' then [] else [s[0]] + TakeUntilQuestionMark(s[1..])
  }

  /** The capture of `/\/articles\/([^?]+)/` at its leftmost match: the
      non-empty run of characters other than `?` after the first `/articles/`
      that is followed by such a character. */
  function ArticleId(url: string): (r: Option<string>)
    ensures r.Some? ==> r.value != [] && '?' !in r.value && Contains(url, ArticlesSegment + r.value)
    decreases |url|
  {
    if StartsWith(url, ArticlesSegment) && |url| > |ArticlesSegment| && url[|ArticlesSegment|] != '?' then
      var id := TakeUntilQuestionMark(url[|ArticlesSegment|..]);
      assert ArticlesSegment + id <= url;
      ContainsAt(url, ArticlesSegment + id, 0);
      Some(id)
    else if url == [] then None
    else
      var r := ArticleId(url[1..]);
      if r.Some? then
        ContainsInSuffix(url, ArticlesSegment + r.value, 1);
        r
      else r
  }

  /** The pattern can capture at position `i`: `/articles/` starts there and
      is followed by a character other than `?`. */
  ghost predicate CaptureAt(url: string, i: nat) {
    i + |ArticlesSegment| < |url| && StartsWith(url[i..], ArticlesSegment) && url[i + |ArticlesSegment|] != '?'
  }

  /** There is no id exactly when the pattern can capture nowhere. */
  lemma {:induction false} ArticleIdNone(url: string)
    ensures ArticleId(url).None? <==> forall i :: 0 <= i < |url| ==> !CaptureAt(url, i)
    decreases |url|
  {
    if url != [] {
      assert url[0..] == url;
      if !CaptureAt(url, 0) {
        ArticleIdNone(url[1..]);
        assert forall j :: 0 <= j < |url| - 1 ==> url[1..][j..] == url[j + 1..];
        assert forall j :: 0 <= j < |url| - 1 ==> (CaptureAt(url[1..], j) <==> CaptureAt(url, j + 1));
        forall i | 1 <= i < |url| ensures CaptureAt(url, i) <==> CaptureAt(url[1..], i - 1) {}
      }
    }
  }

  /** The id is the capture at the leftmost position where the pattern can
      capture: the longest run without `?` after that `/articles/`. */
  lemma {:induction false} ArticleIdLeftmost(url: string, i: nat)
    requires CaptureAt(url, i)
    requires forall j :: 0 <= j < i ==> !CaptureAt(url, j)
    ensures ArticleId(url) == Some(TakeUntilQuestionMark(url[i + |ArticlesSegment|..]))
    decreases i
  {
    assert url[0..] == url;
    if i > 0 {
      var t := url[1..];
      assert !CaptureAt(url, 0);
      assert ArticleId(url) == ArticleId(t);
      assert t[i - 1..] == url[i..];
      forall j | 0 <= j < i - 1 ensures !CaptureAt(t, j) {
        assert t[j..] == url[j + 1..];
        assert !CaptureAt(url, j + 1);
      }
      ArticleIdLeftmost(t, i - 1);
      assert t[i - 1 + |ArticlesSegment|..] == url[i + |ArticlesSegment|..];
    }
  }

  /** The id of an aggregator link `p + "/articles/" + id + q` is `id` when `p`
      has no `a` (so no earlier `/articles/` can match) and `q` is empty or
      starts the query. */
  lemma ArticleIdOfLink(p: string, id: string, q: string)
    requires 'a' !in p && id != [] && '?' !in id && (q == [] || q[0] == '?')
    ensures ArticleId(p + ArticlesSegment + id + q) == Some(id)
  {
    var rest := ArticlesSegment + id + q;
    assert p + ArticlesSegment + id + q == p + rest;
    ArticleIdPastPrefix(p, rest);
    ArticleIdAtStart(id, q);
  }

  /** Characters other than `a` in front of a link that starts with a `/`
      do not change its id. */
  lemma {:induction false} ArticleIdPastPrefix(p: string, rest: string)
    requires 'a' !in p && rest != [] && rest[0] == '/'
    ensures ArticleId(p + rest) == ArticleId(rest)
    decreases |p|
  {
    if p != [] {
      var url := p + rest;
      assert url[1] != 'a' by {
        if |p| > 1 { assert url[1] == p[1]; } else { assert url[1] == rest[0]; }
      }
      ArticleIdPastChar(url);
      assert url[1..] == p[1..] + rest;
      ArticleIdPastPrefix(p[1..], rest);
    } else {
      assert p + rest == rest;
    }
  }

  /** A link that starts with `/articles/` has the id that follows. */
  lemma ArticleIdAtStart(id: string, q: string)
    requires id != [] && '?' !in id && (q == [] || q[0] == '?')
    ensures ArticleId(ArticlesSegment + id + q) == Some(id)
  {
    var url := ArticlesSegment + id + q;
    assert url == ArticlesSegment + (id + q);
    assert url[|ArticlesSegment|..] == id + q;
    TakeOfIdThenQuery(id, q);
  }

  /** A link whose second character is not `a` cannot start with `/articles/`,
      so its id is that of the rest of the link. */
  lemma ArticleIdPastChar(url: string)
    requires |url| >= 2 && url[1] != 'a'
    ensures ArticleId(url) == ArticleId(url[1..])
  {
    assert !StartsWith(url, ArticlesSegment) by {
      assert ArticlesSegment[1] == 'a';
    }
  }

  lemma {:induction false} TakeOfIdThenQuery(id: string, q: string)
    requires '?' !in id && (q == [] || q[0] == '?')
    ensures TakeUntilQuestionMark(id + q) == id
    decreases |id|
  {
    if id == [] {
      assert id + q == q;
    } else {
      assert (id + q)[1..] == id[1..] + q;
      TakeOfIdThenQuery(id[1..], q);
    }
  }

  /** The signed path's answer for an article id: the signing parameters from
      the article page, then the publisher URL in the batch RPC response. */
  function SignedUrl(web: Web, articleId: string): (r: Option<string>)
    ensures r.Some? ==> IsUrlToken(r.value) && !IsAggregatorUrl(r.value)
  {
    match DecodingParams(web.articlePage(articleId))
    case None => None
    case Some(params) =>
      match web.batchExecute(articleId, params)
      case None => None
      case Some(body) => PublisherUrlIn(body)
  }

  lemma UrlTokenIsHttpUrl(u: string)
    requires IsUrlToken(u)
    ensures IsHttpUrl(u)
  {
  }

  /** The resolution chain. Whatever the link, the result is a string: the
      link itself when it does not name the aggregator, has no article id, or
      neither decoder finds a URL; otherwise an http(s) URL. When the legacy
      decoder succeeds its URL is the answer and the signed path plays no part. */
  function Resolution(web: Web, googleUrl: string): (r: string)
    ensures r == googleUrl || IsHttpUrl(r)
    ensures !Contains(googleUrl, AggregatorHost) ==> r == googleUrl
    ensures ArticleId(googleUrl).None? ==> r == googleUrl
    ensures Contains(googleUrl, AggregatorHost) && ArticleId(googleUrl).Some? &&
            LegacyUrl(web.base64Decode(ArticleId(googleUrl).value)).Some? ==>
              r == LegacyUrl(web.base64Decode(ArticleId(googleUrl).value)).value
    ensures Contains(googleUrl, AggregatorHost) && ArticleId(googleUrl).Some? &&
            LegacyUrl(web.base64Decode(ArticleId(googleUrl).value)).None? ==>
              r == SignedUrl(web, ArticleId(googleUrl).value).GetOr(googleUrl)
  {
    if !Contains(googleUrl, AggregatorHost) then googleUrl
    else match ArticleId(googleUrl)
      case None => googleUrl
      case Some(id) =>
        match LegacyUrl(web.base64Decode(id))
        case Some(u) => u
        case None =>
          match SignedUrl(web, id)
          case Some(u) => UrlTokenIsHttpUrl(u); u
          case None => googleUrl
  }

  /** The resolver as the service runs it. */
  method ResolveGoogleNewsUrl(web: Web, googleUrl: string) returns (url: string)
    ensures url == Resolution(web, googleUrl)
  {
    if !Contains(googleUrl, AggregatorHost) {
      return googleUrl;
    }
    var articleId := ArticleId(googleUrl);
    if articleId.None? {
      return googleUrl;
    }
    var legacy := DecodeLegacy(web.base64Decode(articleId.value));
    if legacy.Some? {
      return legacy.value;
    }
    var params := DecodingParams(web.articlePage(articleId.value));
    if params.Some? {
      var decodedUrl := DecodeWithBatchExecute(web, articleId.value, params.value);
      if decodedUrl.Some? {
        return decodedUrl.value;
      }
    }
    return googleUrl;
  }

  /** The start of an aggregator RSS redirect link, up to the article id. */
  const RssLinkPrefix: string := "https://news.google.com/rss"

  lemma RssLinkNamesAggregator(id: string, q: string)
    ensures Contains(RssLinkPrefix + ArticlesSegment + id + q, AggregatorHost)
  {
    assert RssLinkPrefix[8..23] == AggregatorHost;
    ContainsSlice(RssLinkPrefix, 8, 23);
    ContainsInLonger(RssLinkPrefix, AggregatorHost, ArticlesSegment + id + q);
    assert RssLinkPrefix + ArticlesSegment + id + q == RssLinkPrefix + (ArticlesSegment + id + q);
  }

  /** An RSS redirect link names the aggregator and carries its id. */
  lemma RssLinkId(id: string, q: string)
    requires id != [] && '?' !in id && (q == [] || q[0] == '?')
    ensures Contains(RssLinkPrefix + ArticlesSegment + id + q, AggregatorHost)
    ensures ArticleId(RssLinkPrefix + ArticlesSegment + id + q) == Some(id)
  {
    RssLinkNamesAggregator(id, q);
    assert 'a' !in RssLinkPrefix;
    ArticleIdOfLink(RssLinkPrefix, id, q);
  }

  /** A redirect link whose id carries a legacy-encoded URL resolves to that
      URL, whatever the article page and the batch RPC endpoint would say. */
  lemma ResolvesLegacyLink(web: Web, id: string, q: string, u: string, twoByteHeader: bool, extra: byte)
    requires id != [] && '?' !in id && (q == [] || q[0] == '?')
    requires IsLatin1Text(u) && |u| < 0x80 && IsHttpUrl(u)
    requires web.base64Decode(id) == EncodeLegacy(u, twoByteHeader, extra)
    ensures Resolution(web, RssLinkPrefix + ArticlesSegment + id + q) == u
  {
    RssLinkId(id, q);
    LegacyRoundTrip(u, twoByteHeader, extra);
  }

  /** A redirect link that the legacy decoder cannot read resolves through the
      signed path: with signing parameters on the article page and a batch
      RPC response that is the JSON-escaped form of text holding the
      publisher URL first among the URLs, the result is the publisher URL. */
  lemma ResolvesSignedLink(web: Web, id: string, q: string, signature: string, timestamp: string,
                           before: string, u: string, after: string)
    requires id != [] && '?' !in id && (q == [] || q[0] == '?')
    requires LegacyUrl(web.base64Decode(id)).None?
    requires signature != "" && timestamp != ""
    requires web.articlePage(id) == Some(PageAttributes(Some(signature), Some(timestamp)))
    requires 'h' !in before && IsUrlToken(u) && !IsAggregatorUrl(u) && (after == [] || !IsUrlChar(after[0]))
    requires '\\' !in before + u + after
    requires web.batchExecute(id, SigningParams(signature, timestamp)) ==
               Some(EscapeQuotesAndSlashes(before + u + after))
    ensures Resolution(web, RssLinkPrefix + ArticlesSegment + id + q) == u
  {
    var url := RssLinkPrefix + ArticlesSegment + id + q;
    RssLinkId(id, q);
    assert SignedUrl(web, id) == Some(u) by {
      SignedUrlOfResponse(web, id, signature, timestamp, EscapeQuotesAndSlashes(before + u + after));
      PublisherUrlOfEscapedText(before, u, after);
    }
    ResolutionBySignedPath(web, url, id, u);
  }

  /** When the link names the aggregator, its id defeats the legacy decoder
      and the signed path finds a URL, that URL is the resolution. */
  lemma ResolutionBySignedPath(web: Web, url: string, id: string, u: string)
    requires Contains(url, AggregatorHost) && ArticleId(url) == Some(id)
    requires LegacyUrl(web.base64Decode(id)).None? && SignedUrl(web, id) == Some(u)
    ensures Resolution(web, url) == u
  {
  }

  /** With both signing attributes on the article page, the signed path reads
      the batch RPC response for them. */
  lemma SignedUrlOfResponse(web: Web, id: string, signature: string, timestamp: string, body: string)
    requires signature != "" && timestamp != ""
    requires web.articlePage(id) == Some(PageAttributes(Some(signature), Some(timestamp)))
    requires web.batchExecute(id, SigningParams(signature, timestamp)) == Some(body)
    ensures SignedUrl(web, id) == PublisherUrlIn(body)
  {
  }
}
