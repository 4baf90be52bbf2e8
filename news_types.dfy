/**
 * The records the scraper and the e-mail service exchange: a feed item, the
 * item with its scraped text, the AI-processed item and the newsletter input.
 */
module NewsTypes {
  import opened Wrappers

  /** One candidate article from a feed. */
  datatype NewsItem = NewsItem(
    title: string,
    link: string,
    source: string,
    category: string,
    pubDate: string)

  /** A feed item together with the article text scraped for it (`{...item, content}`). */
  datatype ScrapedNews = ScrapedNews(item: NewsItem, content: string)

  /** The three-line insight attached to a processed item. */
  datatype Insight = Insight(fact: string, context: string, implication: string)

  /** An item after AI processing: the original, a rewritten title and an optional insight. */
  datatype ProcessedNews = ProcessedNews(
    original: NewsItem,
    rewrittenTitle: string,
    insight: Option<Insight>)

  /** The AI's synthesis of the day's editorials. */
  datatype EditorialSynthesis = EditorialSynthesis(
    topic: string,
    conflict: string,
    argumentA: string,
    argumentB: string,
    synthesis: string)

  /** Everything the newsletter is rendered from. */
  datatype NewsletterData = NewsletterData(
    date: string,
    protectionLog: string,
    processedNews: seq<ProcessedNews>,
    editorialSynthesis: Option<EditorialSynthesis>)
}
