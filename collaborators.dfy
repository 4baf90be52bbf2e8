/**
 * The outside world the scraper talks to, as plain values and functions:
 * Node's base64 decoder, the aggregator's article page and batch RPC
 * endpoint, the HTTP fetch of the publisher page, the reader-mode extractor
 * and the optional generative model. `None` stands for a call that failed or
 * threw and was caught.
 */
module Collaborators {
  import opened Wrappers

  newtype byte = b: int | 0 <= b < 0x100

  /** The two data attributes read from the first `c-wiz > div` of the article page. */
  datatype PageAttributes = PageAttributes(signature: Option<string>, timestamp: Option<string>)

  /** The per-article signing parameters for the batch RPC call. */
  datatype SigningParams = SigningParams(signature: string, timestamp: string)

  /** What the reader-mode pass gives for a page: it threw while parsing, or it
      parsed and found article text (or none: a null article or text). */
  datatype ReaderResult = ReaderThrew | Parsed(textContent: Option<string>)

  datatype Web = Web(
    /** `Buffer.from(id, 'base64')`. */
    base64Decode: string -> seq<byte>,
    /** GET of the aggregator article page, reduced to the two attributes. */
    articlePage: string -> Option<PageAttributes>,
    /** POST to the batch RPC endpoint for an article id with its signing parameters: the response body. */
    batchExecute: (string, SigningParams) -> Option<string>,
    /** GET of a publisher page: the response body. */
    fetch: string -> Option<string>,
    /** The reader-mode pass over an HTML body anchored at a URL. */
    readability: (string, string) -> ReaderResult,
    /** The generative model when an API key is configured: prompt to reply. */
    model: Option<string -> Option<string>>)
}
