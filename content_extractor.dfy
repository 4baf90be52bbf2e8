/**
 * Article text extraction for one feed link: resolve the link, fetch the
 * publisher page, take the reader-mode text, fall back to the generative
 * model when that text is too short, and bound the length of what is kept.
 */
module ContentExtractor {
  import opened Wrappers
  import opened JsString
  import opened Collaborators
  import opened UrlResolver

  /** Article text shorter than this counts as no article. */
  const MinContentLength: nat := 100
  /** Longer article text is cut to this many characters... */
  const MaxContentLength: nat := 3000
  /** ...and marked as cut with this. */
  const Ellipsis: string := "..."
  /** Pages shorter than this are not worth a model call. */
  const MinHtmlForModel: nat := 500
  /** Only this much of the page goes into the prompt. */
  const PromptHtmlLimit: nat := 15000
  /** The model's answer for a page without an article. */
  const NoContent: string := "NO_CONTENT"

  /** The fixed instruction that precedes the page in the prompt (in Korean:
      extract only the article body, leave out ads, menus, footers and related
      articles, answer NO_CONTENT when there is none). */
  const PromptHeader: string :=
    "아래 HTML에서 뉴스 기사 본문만 추출해주세요.\n" +
    "광고, 메뉴, 푸터, 관련 기사 등은 제외하고 순수 기사 내용만 텍스트로 반환하세요.\n" +
    "본문이 없으면 \"NO_CONTENT\"를 반환하세요.\n\nHTML:\n"

  function Min(a: nat, b: nat): nat {
    if a <= b then a else b
  }

  /** The prompt for a page: the header, then the page cut to the limit. */
  function Prompt(html: string): (p: string)
    ensures PromptHeader <= p && |p| <= |PromptHeader| + PromptHtmlLimit
    ensures p[|PromptHeader|..] <= html
    ensures |html| >= PromptHtmlLimit ==> |p| == |PromptHeader| + PromptHtmlLimit
    ensures |html| < PromptHtmlLimit ==> p == PromptHeader + html
  {
    PromptHeader + html[..Min(|html|, PromptHtmlLimit)]
  }

  /** The model fallback. It answers only when a model is configured and the
      page has at least 500 characters, and only with the model's reply,
      trimmed, when that reply is at least 100 characters; so an answer never
      has whitespace at either end and is never the no-content sentinel. */
  function ExtractContentWithAi(model: Option<string -> Option<string>>, html: string): (r: Option<string>)
    ensures r.Some? <==>
      && model.Some? && |html| >= MinHtmlForModel
      && model.value(Prompt(html)).Some?
      && |Trim(model.value(Prompt(html)).value)| >= MinContentLength
    ensures r.Some? ==> r.value == Trim(model.value(Prompt(html)).value)
    ensures r.Some? ==> |r.value| >= MinContentLength && r.value != NoContent && Trim(r.value) == r.value
  {
    if model.None? then None
    else if |html| < MinHtmlForModel then None
    else
      match model.value(Prompt(html))
      case None => None
      case Some(reply) =>
        var text := Trim(reply);
        if text == NoContent || |text| < MinContentLength then None
        else
          TrimIdempotent(reply);
          Some(text)
  }

  /** The model sees only the first 15000 characters of a page: two pages of
      at least 500 characters that agree there get the same answer. */
  lemma ModelSeesOnlyPromptPrefix(model: Option<string -> Option<string>>, html1: string, html2: string)
    requires |html1| >= MinHtmlForModel && |html2| >= MinHtmlForModel
    requires html1[..Min(|html1|, PromptHtmlLimit)] == html2[..Min(|html2|, PromptHtmlLimit)]
    ensures ExtractContentWithAi(model, html1) == ExtractContentWithAi(model, html2)
  {
  }

  /** The sentinel test never decides anything: the sentinel is shorter than
      the minimum, so dropping the test leaves the fallback unchanged. */
  lemma NoContentTestIsSubsumed(model: Option<string -> Option<string>>, html: string)
    ensures ExtractContentWithAi(model, html) ==
      if model.None? || |html| < MinHtmlForModel then None
      else match model.value(Prompt(html))
        case None => None
        case Some(reply) => if |Trim(reply)| < MinContentLength then None else Some(Trim(reply))
  {
    assert |NoContent| < MinContentLength;
  }

  /** The length rules applied to the chosen text: under 100 characters it is
      dropped, over 3000 it is cut to 3000 and marked with an ellipsis. */
  function BoundContent(c: string): (r: string)
    ensures r == [] <==> |c| < MinContentLength
    ensures r == [] || MinContentLength <= |r| <= MaxContentLength + |Ellipsis|
    ensures |c| <= MaxContentLength ==> r == [] || r == c
    ensures |c| > MaxContentLength ==> r == c[..MaxContentLength] + Ellipsis
  {
    if |c| < MinContentLength then ""
    else if |c| > MaxContentLength then c[..MaxContentLength] + Ellipsis
    else c
  }

  /** Bounding kept text again changes nothing: a cut text of 3003 characters
      is cut at the same place and gets the same ellipsis. */
  lemma BoundContentIdempotent(c: string)
    ensures BoundContent(BoundContent(c)) == BoundContent(c)
  {
    var r := BoundContent(c);
    if |c| > MaxContentLength {
      assert r[..MaxContentLength] == c[..MaxContentLength];
    }
  }

  /** The reader-mode text, trimmed; none at all counts as empty. */
  function ReaderText(textContent: Option<string>): (r: string)
    ensures textContent.None? ==> r == []
    ensures textContent.Some? ==> r == Trim(textContent.value)
  {
    match textContent
    case None => ""
    case Some(t) => Trim(t)
  }

  /** The text chosen before the length rules: the reader text, or the model's
      answer when the reader text is under 100 characters and the model answers. */
  function ChosenText(model: Option<string -> Option<string>>, html: string, readerText: string): (r: string)
    ensures |readerText| >= MinContentLength ==> r == readerText
    ensures r == readerText || r == ExtractContentWithAi(model, html).GetOr(readerText)
    ensures |readerText| < MinContentLength && ExtractContentWithAi(model, html).Some? ==>
              r == ExtractContentWithAi(model, html).value
  {
    if |readerText| < MinContentLength then ExtractContentWithAi(model, html).GetOr(readerText)
    else readerText
  }

  /** The article text kept for a feed link. It is empty or between 100 and
      3003 characters, and empty whenever the page cannot be fetched or the
      reader pass throws. */
  function ScrapedContent(web: Web, url: string): (r: string)
    ensures r == [] || MinContentLength <= |r| <= MaxContentLength + |Ellipsis|
    ensures web.fetch(Resolution(web, url)).None? ==> r == []
    ensures (web.fetch(Resolution(web, url)).Some? &&
             web.readability(web.fetch(Resolution(web, url)).value, Resolution(web, url)).ReaderThrew?) ==> r == []
  {
    var actualUrl := Resolution(web, url);
    match web.fetch(actualUrl)
    case None => ""
    case Some(html) =>
      match web.readability(html, actualUrl)
      case ReaderThrew => ""
      case Parsed(textContent) => BoundContent(ChosenText(web.model, html, ReaderText(textContent)))
  }

  /** Without a configured model the text kept is the reader text under the
      length rules. */
  lemma {:induction false} WithoutModelReaderDecides(web: Web, url: string, html: string, textContent: Option<string>)
    requires web.model.None?
    requires web.fetch(Resolution(web, url)) == Some(html)
    requires web.readability(html, Resolution(web, url)) == Parsed(textContent)
    ensures ScrapedContent(web, url) == BoundContent(ReaderText(textContent))
  {
  }

  /** Reader text of 100 characters or more is kept (bounded) and the model
      is never consulted. */
  lemma ReaderTextWins(web: Web, url: string, html: string, text: string)
    requires web.fetch(Resolution(web, url)) == Some(html)
    requires web.readability(html, Resolution(web, url)) == Parsed(Some(text))
    requires |Trim(text)| >= MinContentLength
    ensures ScrapedContent(web, url) == BoundContent(Trim(text))
  {
  }

  /** A text that survives is the chosen text itself, or its first 3000
      characters followed by the ellipsis. */
  lemma KeptTextIsChosenText(web: Web, url: string, html: string, textContent: Option<string>)
    requires web.fetch(Resolution(web, url)) == Some(html)
    requires web.readability(html, Resolution(web, url)) == Parsed(textContent)
    requires ScrapedContent(web, url) != []
    ensures var c := ChosenText(web.model, html, ReaderText(textContent));
            ScrapedContent(web, url) == c || ScrapedContent(web, url) == c[..MaxContentLength] + Ellipsis
  {
  }

  /** The reader-mode text, replaced by the model's answer when it is under
      100 characters and the model answers. */
  method ChooseText(model: Option<string -> Option<string>>, html: string, textContent: Option<string>)
    returns (content: string)
    ensures content == ChosenText(model, html, ReaderText(textContent))
  {
    ghost var readerText := ReaderText(textContent);
    content := ReaderText(textContent);
    if |content| < MinContentLength {
      var aiContent := ExtractContentWithAi(model, html);
      assert ChosenText(model, html, readerText) == aiContent.GetOr(readerText);
      if aiContent.Some? {
        content := aiContent.value;
      }
    }
  }

  /** The length rules, reassigning the text. */
  method ApplyLengthRules(text: string) returns (content: string)
    ensures content == BoundContent(text)
  {
    content := text;
    if |content| < MinContentLength {
      return "";
    }
    if |content| > MaxContentLength {
      content := content[..MaxContentLength] + Ellipsis;
    }
  }

  /** The scraper as the service runs it. */
  method ScrapeArticle(web: Web, url: string) returns (content: string)
    ensures content == ScrapedContent(web, url)
  {
    var actualUrl := ResolveGoogleNewsUrl(web, url);
    var response := web.fetch(actualUrl);
    if response.None? {
      return "";
    }
    var html := response.value;
    var article := web.readability(html, actualUrl);
    if article.ReaderThrew? {
      return "";
    }
    content := ChooseText(web.model, html, article.textContent);
    content := ApplyLengthRules(content);
  }
}
