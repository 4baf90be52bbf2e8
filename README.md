# NoCan News scraper and e-mail core, modelled in Dafny

This project models the deterministic core of the NoCan News newsletter
service and proves properties of that model. The service builds a daily
newsletter from a news feed.

**ScraperService** (`src/modules/scraper/scraper.service.ts`) turns each feed
link into article text:

- It resolves the aggregator redirect link (`news.google.com/rss/articles/<id>`)
  to the publisher URL through a chain:
  - a fast path for other links;
  - an offline decoder for legacy ids, which strips a fixed frame, reads a
    length header and slices the URL out of the id's bytes;
  - a signed path, which reads two signing attributes from the article page,
    calls the batch RPC endpoint, unescapes the response and picks the first
    URL that is not the aggregator's;
  - the original link when every step fails.
- It fetches the page and takes the reader-mode text. When that text is
  under 100 characters, it falls back to a generative model.
- It applies the length rules: text under 100 characters is dropped, and
  text over 3000 is cut to 3000 and marked with `...`.
- Over a whole feed, it keeps the items whose text survives, in feed order.

**EmailService** (`src/modules/email/email.service.ts`) does two things:

- It assembles the newsletter: it groups the processed items by category and
  emits one section per category of `business, tech, policy, world` that has
  items, in that order, with Korean headings. The editorial block appears
  when there is one.
- It reads the recipient list: it splits the configured comma-separated
  string, trims each entry, drops empty entries, and keeps the addresses that
  pass `/^[^\s@]+@[^\s@]+\.[^\s@]+$/`.

Layout, one module per file:

| file | module | what it holds |
|---|---|---|
| `wrappers.dfy` | `Wrappers` | `Option` |
| `js_string.dfy` | `JsString` | the JavaScript string and array built-ins used: `includes`, `substring`, `trim`, `split`, `filter` |
| `collaborators.dfy` | `Collaborators` | the outside world as values: the base64 decoder, the article page, the batch RPC endpoint, the page fetch, reader mode and the optional model |
| `news_types.dfy` | `NewsTypes` | feed item, scraped item, processed item, editorial, newsletter input |
| `legacy_decoder.dfy` | `LegacyDecoder` | the offline legacy-id decoder and its inverse |
| `signed_resolver.dfy` | `SignedResolver` | signing parameters, response unescaping, the URL pattern scanner, URL selection |
| `url_resolver.dfy` | `UrlResolver` | the article-id capture and the resolution chain |
| `content_extractor.dfy` | `ContentExtractor` | model gating, text choice, length rules, `scrapeArticle` |
| `batch_scraper.dfy` | `BatchScraper` | `scrapeMultipleArticles` |
| `newsletter.dfy` | `Newsletter` | category names, grouping, sections, item fields, `renderNewsletter` |
| `recipients.dfy` | `Recipients` | the address check and `getRecipients` |

Each operation that the source performs by updating variables step by step
is a method. It carries loop invariants where the source loops: the
URL-selection loop, the batch loop, the grouping dictionary, the section loop
and the recipient loop. The legacy decoder's reassignments of `str`,
`resolveGoogleNewsUrl` and `scrapeArticle` are straight-line methods. Each
method is proved equal to a specification function, and the properties are
proved about that function. The services keep no state that their methods
update, so there are no classes.

Three consequences of the code that a reader of the service might not
expect, each stated as the code has it:

- The cut at `scraper.service.ts:269-271` keeps 3000 characters and appends
  the three-character `...`. A kept text therefore has 0 characters or between
  100 and 3003, not at most 3000.
- The model's `NO_CONTENT` answer, tested at `scraper.service.ts:211`, has 10
  characters. It is therefore already rejected by the 100-character minimum
  tested next to it, and the separate test never decides anything
  (`ContentExtractor.NoContentTestIsSubsumed`).
- The legacy decoder does not fail closed when a length header declares more
  characters than the id carries. `substring` at `scraper.service.ts:147,149`
  clamps to the end of the text, so the decoder returns the shorter rest as
  long as it starts with `http://` or `https://`
  (`LegacyDecoder.OverlongHeaderKeepsRest`).

## Model

| member | source | states |
|---|---|---|
| JsString.ContainsIffOccurs | src/modules/scraper/scraper.service.ts:116 | `s.includes(t)` holds exactly when `t` occurs at some position of `s` |
| JsString.Substring | src/modules/scraper/scraper.service.ts:147-149 | `substring(a, b)` is the piece between the bounds when they are in order, the piece between them swapped when they are reversed, runs to the end when `b` is past it and starts at 0 when `a` is negative |
| JsString.Trim | src/modules/email/email.service.ts:290 | the trimmed text is no longer than the input and neither starts nor ends with whitespace |
| JsString.TrimRemovesOnlyWhitespace | src/modules/email/email.service.ts:290 | trimming keeps an infix of the input; everything before it and after it is whitespace |
| JsString.TrimIdempotent | src/modules/scraper/scraper.service.ts:209 | trimming twice is trimming once |
| JsString.Split | src/modules/email/email.service.ts:289 | `split(',')` gives at least one piece, and no piece contains the separator |
| JsString.JoinSplit | src/modules/email/email.service.ts:289 | joining the pieces with the separator gives the string back |
| JsString.SplitAppend | src/modules/email/email.service.ts:289 | splitting `a + sep + b` gives the pieces of `a` followed by the pieces of `b` |
| JsString.SplitJoin | src/modules/email/email.service.ts:289 | splitting a join of separator-free pieces gives the pieces back |
| JsString.Filter | src/modules/email/email.service.ts:291 | `filter` keeps only elements of the input that pass, and loses none that pass |
| JsString.FilterAppend | src/modules/email/email.service.ts:291 | filtering a concatenation is concatenating the filtered parts, so order is kept |
| LegacyDecoder.Latin1 | src/modules/scraper/scraper.service.ts:127 | Latin-1 decoding gives one character per byte, with that byte's code |
| LegacyDecoder.StripPrefix | src/modules/scraper/scraper.service.ts:130-134 | `08 13 22` is removed exactly when the text starts with it; otherwise the text is unchanged |
| LegacyDecoder.StripSuffix | src/modules/scraper/scraper.service.ts:136-140 | `D2 01 00` is removed exactly when the text ends with it; otherwise the text is unchanged |
| LegacyDecoder.StripFrame | src/modules/scraper/scraper.service.ts:128-140 | the two reassignments of `str` give the prefix-then-suffix stripped text |
| LegacyDecoder.PayloadSlice | src/modules/scraper/scraper.service.ts:142-150 | the candidate is the piece right after a one-byte header (byte below 0x80) or a two-byte header, is at most the declared 0..127 characters, is exactly that long when the text is long enough, is the whole rest of the text when the text is shorter, and is empty for empty text or text shorter than its header |
| LegacyDecoder.OverlongHeaderKeepsRest | src/modules/scraper/scraper.service.ts:147-149 | a one-byte header that declares more characters than follow yields everything after it |
| LegacyDecoder.SliceByHeader | src/modules/scraper/scraper.service.ts:143-150 | the header read and the `substring` reassignment give `PayloadSlice` |
| LegacyDecoder.PayloadCarried | src/modules/scraper/scraper.service.ts:127-150 | the candidate is always a piece of the decoded text |
| LegacyDecoder.LegacyUrl | src/modules/scraper/scraper.service.ts:127-156 | a legacy URL is an `http://` or `https://` URL of at most 127 characters, carried byte for byte by the id |
| LegacyDecoder.DecodeLegacy | src/modules/scraper/scraper.service.ts:127-156 | the step-by-step decoder returns `LegacyUrl` of the decoded bytes |
| LegacyDecoder.EncodeLegacy | src/modules/scraper/scraper.service.ts:130-150 | the legacy id layout (prefix, one- or two-byte length header, URL bytes, suffix) has the URL's length plus 7 or 8 bytes |
| LegacyDecoder.LegacyRoundTrip | src/modules/scraper/scraper.service.ts:127-156 | any Latin-1 `http(s)` URL under 128 characters, laid out with either header form, decodes to exactly that URL |
| SignedResolver.DecodingParams | src/modules/scraper/scraper.service.ts:29-57 | the signing parameters exist exactly when the page was read and both attributes are present and non-empty, and they are those attributes |
| SignedResolver.ReplaceCodeUnitEscapes | src/modules/scraper/scraper.service.ts:84-86 | the first replacement never lengthens the text |
| SignedResolver.HexEscapeReplaced | src/modules/scraper/scraper.service.ts:84-86 | two backslashes, `u` and any four hex digits, upper or lower case, naming a non-surrogate code unit become that code unit, and the scan goes on after them |
| SignedResolver.CodeUnitEscapeReplaced | src/modules/scraper/scraper.service.ts:84-86 | the escape written for any non-surrogate code unit is replaced by that code unit, and the scan goes on after it |
| SignedResolver.ReplaceEscaped | src/modules/scraper/scraper.service.ts:87-88 | the quote and slash replacements never lengthen the text |
| SignedResolver.UnescapeInvertsEscape | src/modules/scraper/scraper.service.ts:83-88 | the three replacements in order undo JSON's escaping of quotes and slashes for text without backslashes |
| SignedResolver.MatchLength | src/modules/scraper/scraper.service.ts:89 | a non-zero match at the start is `http(s)://` and URL characters, maximal (followed by the end or a non-URL character); a zero result means no prefix of the text is a URL token |
| SignedResolver.UrlMatches | src/modules/scraper/scraper.service.ts:89-90 | every global match of the URL pattern is a URL token that occurs in the text |
| SignedResolver.UrlMatchesEmpty | src/modules/scraper/scraper.service.ts:89-90 | `match` finds nothing exactly when the pattern matches at no position of the text |
| SignedResolver.UrlMatchesLeftmost | src/modules/scraper/scraper.service.ts:89-90 | the first match is the pattern's match at the leftmost position where it matches, and the later matches are those of the text after it |
| SignedResolver.UrlMatchesOfEmbedded | src/modules/scraper/scraper.service.ts:89-90 | a URL after text without `h` and before a non-URL character is the first match, and scanning resumes after it |
| SignedResolver.FirstPublisherIndex | src/modules/scraper/scraper.service.ts:93-100 | every match before the index names `news.google.com` or `gstatic.com`, and the one at the index does not |
| SignedResolver.FirstPublisher | src/modules/scraper/scraper.service.ts:92-102 | there is no publisher URL exactly when every match is the aggregator's |
| SignedResolver.PublisherUrlIn | src/modules/scraper/scraper.service.ts:83-102 | a selected URL matches the pattern and names neither aggregator host |
| SignedResolver.DecodeWithBatchExecute | src/modules/scraper/scraper.service.ts:70-105 | the loop with its early return gives no URL when the call fails, else the first non-aggregator match of the unescaped response |
| SignedResolver.PublisherUrlOfEscapedText | src/modules/scraper/scraper.service.ts:83-102 | a response that JSON-escapes text whose first URL is a publisher URL yields that URL |
| UrlResolver.TakeUntilQuestionMark | src/modules/scraper/scraper.service.ts:120 | `[^?]+` takes the longest prefix without `?` |
| UrlResolver.ArticleId | src/modules/scraper/scraper.service.ts:120 | a captured id is non-empty, has no `?`, and follows `/articles/` in the link |
| UrlResolver.ArticleIdNone | src/modules/scraper/scraper.service.ts:120-123 | there is no id exactly when no `/articles/` in the link is followed by a character other than `?` |
| UrlResolver.ArticleIdLeftmost | src/modules/scraper/scraper.service.ts:120 | the id is the longest run without `?` after the leftmost `/articles/` that is followed by a character other than `?` |
| UrlResolver.ArticleIdOfLink | src/modules/scraper/scraper.service.ts:120 | the id of `p + "/articles/" + id + q` is `id` when `p` has no `a` and `q` is empty or starts with `?` |
| UrlResolver.SignedUrl | src/modules/scraper/scraper.service.ts:158-173 | a URL found by the signed path matches the pattern and is not the aggregator's |
| UrlResolver.Resolution | src/modules/scraper/scraper.service.ts:114-180 | the result is the link itself or an `http(s)` URL; the link itself when it lacks `news.google.com` or has no id; the legacy URL whenever the legacy decoder finds one; otherwise the signed path's URL, or the link itself when the signed path finds none |
| UrlResolver.ResolveGoogleNewsUrl | src/modules/scraper/scraper.service.ts:114-180 | the early-return chain computes `Resolution` |
| UrlResolver.RssLinkId | src/modules/scraper/scraper.service.ts:116-123 | an RSS redirect link names the aggregator and carries its id |
| UrlResolver.ResolvesLegacyLink | src/modules/scraper/scraper.service.ts:127-156 | a link whose id decodes to a legacy layout resolves to its URL, whatever the article page and the RPC endpoint would say |
| UrlResolver.ResolvesSignedLink | src/modules/scraper/scraper.service.ts:158-173 | a link the legacy decoder cannot read, with signing attributes and an escaped response holding a publisher URL first, resolves to that URL |
| ContentExtractor.Prompt | src/modules/scraper/scraper.service.ts:200-205 | the prompt is the fixed instruction followed by the page cut to its first 15000 characters |
| ContentExtractor.ExtractContentWithAi | src/modules/scraper/scraper.service.ts:186-222 | an answer exists exactly when a model is configured, the page has at least 500 characters, the call succeeds and the trimmed reply has at least 100 characters; it is that trimmed reply, already trimmed and never `NO_CONTENT` |
| ContentExtractor.ModelSeesOnlyPromptPrefix | src/modules/scraper/scraper.service.ts:200-205 | pages that agree on their first 15000 characters get the same answer |
| ContentExtractor.NoContentTestIsSubsumed | src/modules/scraper/scraper.service.ts:211-214 | dropping the `NO_CONTENT` test leaves the fallback unchanged |
| ContentExtractor.BoundContent | src/modules/scraper/scraper.service.ts:262-273 | text is dropped exactly when under 100 characters, kept unchanged up to 3000, else cut to 3000 plus `...`; the result has 0 or 100..3003 characters |
| ContentExtractor.BoundContentIdempotent | src/modules/scraper/scraper.service.ts:262-273 | applying the length rules twice is applying them once |
| ContentExtractor.ReaderText | src/modules/scraper/scraper.service.ts:250 | missing reader text counts as empty; present text is trimmed |
| ContentExtractor.ChosenText | src/modules/scraper/scraper.service.ts:250-260 | reader text of 100 or more characters is kept; shorter text is replaced by the model's answer when there is one |
| ContentExtractor.ScrapedContent | src/modules/scraper/scraper.service.ts:227-278 | the kept text is empty or 100..3003 characters, and empty when the fetch fails or reader mode throws |
| ContentExtractor.WithoutModelReaderDecides | src/modules/scraper/scraper.service.ts:250-273 | without a model, the kept text is the reader text under the length rules |
| ContentExtractor.ReaderTextWins | src/modules/scraper/scraper.service.ts:253-260 | reader text of 100 or more characters is used and the model plays no part |
| ContentExtractor.KeptTextIsChosenText | src/modules/scraper/scraper.service.ts:262-273 | a surviving text is the chosen text or its first 3000 characters plus `...` |
| ContentExtractor.ChooseText | src/modules/scraper/scraper.service.ts:250-260 | the reassignment of `content` computes `ChosenText` |
| ContentExtractor.ApplyLengthRules | src/modules/scraper/scraper.service.ts:262-273 | the early return and the cut compute `BoundContent` |
| ContentExtractor.ScrapeArticle | src/modules/scraper/scraper.service.ts:227-278 | the scraper computes `ScrapedContent` of the link |
| BatchScraper.Scrape | src/modules/scraper/scraper.service.ts:294-297 | a result keeps the item's fields and gains its text |
| BatchScraper.Kept | src/modules/scraper/scraper.service.ts:287-304 | every result is an input item, scraped, whose text has at least 100 characters |
| BatchScraper.KeptSnoc | src/modules/scraper/scraper.service.ts:289-300 | one more item appends its result exactly when its text survives |
| BatchScraper.KeptContentInRange | src/modules/scraper/scraper.service.ts:293 | every kept text has 100..3003 characters |
| BatchScraper.KeptIsFilteredScrape | src/modules/scraper/scraper.service.ts:284-311 | the results are exactly the surviving items, in input order, each with its text |
| BatchScraper.NoSuccessfulItemLost | src/modules/scraper/scraper.service.ts:292-300 | every item whose text survives is in the results |
| BatchScraper.ScrapeMultipleArticles | src/modules/scraper/scraper.service.ts:284-311 | the push loop computes `Kept` |
| Newsletter.CategoryName | src/modules/email/email.service.ts:35-43 | the four known categories get their Korean names; any other category is its own name, and only then is the name the category |
| Newsletter.CategoryNamesDistinct | src/modules/email/email.service.ts:36-41 | the four section categories get four different headings |
| Newsletter.RenderNewsItem | src/modules/email/email.service.ts:169-209 | the struck title and source are the original's; the headline is the rewritten title when non-empty, else the original title; the insight block is shown exactly when there is an insight |
| Newsletter.OfCategory | src/modules/email/email.service.ts:53-60 | a category's list holds only items of that category and every one of them |
| Newsletter.OfCategoryAppend | src/modules/email/email.service.ts:54-59 | pushing an item extends only its own category's list, at the end |
| Newsletter.GroupByCategory | src/modules/email/email.service.ts:53-60 | the dictionary's keys are exactly the categories that occur, and each list is that category's items in input order |
| Newsletter.Sections | src/modules/email/email.service.ts:63-78 | each section belongs to a category of the order that has items, with that category's heading and its items rendered |
| Newsletter.SectionOrder | src/modules/email/email.service.ts:64-78 | the sections' categories are the categories of the order that have items, in that order |
| Newsletter.OtherCategoryNotRendered | src/modules/email/email.service.ts:64-68 | an item whose category is not one of the four is in no section |
| Newsletter.ItemRenderedInItsSection | src/modules/email/email.service.ts:66-78 | an item of one of the four categories is rendered in that category's section |
| Newsletter.RenderNewsletter | src/modules/email/email.service.ts:48-164 | the newsletter carries the date and protection log, has the sections of `Sections` in category order, and has the editorial block exactly when a synthesis is given |
| Recipients.ValidateEmailIsRegexMatch | src/modules/email/email.service.ts:273-276 | the scanning check accepts exactly the strings that match `^[^\s@]+@[^\s@]+\.[^\s@]+$` |
| Recipients.RegexMatchIffConditions | src/modules/email/email.service.ts:274 | a string matches exactly when it has no whitespace, one `@`, something before it, and a `.` strictly inside the part after it |
| Recipients.TrimKeepsAbsent | src/modules/email/email.service.ts:290 | trimming adds no character, so a trimmed entry still has no comma |
| Recipients.Entries | src/modules/email/email.service.ts:288-291 | every entry is non-empty, has no comma and is already trimmed; every entry is a trimmed piece between commas, and every such piece that is not blank is an entry |
| Recipients.EntriesAppend | src/modules/email/email.service.ts:288-291 | the entries of `a,b` are the entries of `a` followed by those of `b`, so entries keep the order of the setting |
| Recipients.EmptySettingHasNoEntries | src/modules/email/email.service.ts:283-286 | the empty setting has no entries, so its early return agrees with the general path |
| Recipients.Recipients | src/modules/email/email.service.ts:281-316 | no setting gives no recipients; otherwise the recipients are the valid entries, in list order (`filter` of `Entries`); so every recipient is a valid entry and no valid entry is lost |
| Recipients.SortByValidity | src/modules/email/email.service.ts:294-303 | the loop sends each entry to the valid or the invalid list, in order: the entries that pass and the entries that fail |
| Recipients.GetRecipients | src/modules/email/email.service.ts:281-316 | the method computes `Recipients` of the setting |

## Left out

- HTTP calls (axios): the article page, the batch RPC POST and the page fetch are functions in `Collaborators.Web`. A failed or throwing call is `None`. Timeouts, headers and the request payload built at lines 67-68 and 73 have no effect on the logic and are not modelled. The RPC function is indexed by the article id and the signing parameters.
- cheerio's `c-wiz > div` attribute lookup, JSDOM and Readability are foreign HTML libraries. Their outputs are inputs: the two attributes, and a reader result that throws, or parses with or without text.
- The Gemini call is non-deterministic and external. The model is an optional function from prompt to reply, and `None` is a failing call.
- Node's lenient base64 decoding of the article id (`Buffer.from(id, 'base64')`) is an input function. The round trip is proved from the decoded bytes.
- `Collaborators.Web` is a pure record. The model therefore assumes a repeated call with the same arguments gives the same answer. The source calls each collaborator at most once per `scrapeArticle` call.
- The general JavaScript regular-expression engine is not modelled. The three patterns the code uses (the `/articles/` capture, the URL pattern and the address pattern) are hand-written scanners.
- `delay`/`setTimeout` pacing and all logging are timing and side output only.
- `sendNewsletter`, the nodemailer transport and the ConfigService reads are I/O. The recipient setting is an `Option<string>` parameter.
- The literal HTML and CSS of the newsletter are not modelled: the header, footer, styles and the final `.trim()` of the page. Rendering produces the structure `RenderedNewsletter`, `Section` and `RenderedItem`.
- Plain-object prototype quirks are not modelled. For example, a category named `toString` would find an inherited member in the name table and in the grouping dictionary.
- UTF-16: strings are sequences of Dafny characters, and lengths count those characters. A Dafny character is a Unicode scalar value, so a character outside the Basic Multilingual Plane is one character in the model but two code units in JavaScript. On such text the 100-, 500-, 3000- and 15000-character thresholds, and the `slice(0, 3000)` cut, can fall at different places than in the service. A double-escaped `\u` escape that names a lone surrogate (D800 to DFFF) has no Dafny character, so the model leaves it as text.
- NestJS wiring (`src/app.module.ts`, `src/modules/newsletter/newsletter.module.ts`, `src/modules/report/report.module.ts`) is not part of this model. The interface declarations are mirrored as datatypes in `NewsTypes`.
- BatchScraper.ScrapeMultipleArticles: a feed that repeats a link, or two links that resolve to the same publisher URL, gets identical text for each item in the model. The source fetches the page and may call the model again for each item, and can get a different page or model reply.
