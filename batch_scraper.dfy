/**
 * Scraping a whole feed: every item is scraped in order and only the items
 * whose article text survived the length rules are kept.
 *
 * The list functions and their lemmas take the per-link article text as a
 * function `content`; the service's own text is `PageText(web)`.
 */
module BatchScraper {
  import opened JsString
  import opened Collaborators
  import opened NewsTypes
  import opened ContentExtractor

  /** The article text the scraper keeps for each link. */
  function PageText(web: Web): (content: string -> string)
    ensures forall url :: content(url) == ScrapedContent(web, url)
  {
    url => ScrapedContent(web, url)
  }

  /** An item together with the text scraped for its link. */
  function Scrape(content: string -> string, item: NewsItem): (s: ScrapedNews)
    ensures s.item == item && s.content == content(item.link)
  {
    ScrapedNews(item, content(item.link))
  }

  /** Whether an item's article text survives. */
  predicate Succeeds(content: string -> string, item: NewsItem) {
    |content(item.link)| >= MinContentLength
  }

  /** The kept results for the items, built from the front as the loop does:
      each is an item of the list, scraped, whose text survived. */
  function Kept(content: string -> string, items: seq<NewsItem>): (r: seq<ScrapedNews>)
    ensures |r| <= |items|
    ensures forall k :: 0 <= k < |r| ==>
      r[k].item in items && r[k] == Scrape(content, r[k].item) && Succeeds(content, r[k].item)
    decreases |items|
  {
    if items == [] then []
    else
      var init := items[..|items| - 1];
      var item := items[|items| - 1];
      var rest := Kept(content, init);
      assert forall k :: 0 <= k < |rest| ==> rest[k].item in items by {
        assert forall x :: x in init ==> x in items;
      }
      rest + (if Succeeds(content, item) then [Scrape(content, item)] else [])
  }

  lemma KeptSnoc(content: string -> string, items: seq<NewsItem>, item: NewsItem)
    ensures Kept(content, items + [item]) ==
      Kept(content, items) + (if Succeeds(content, item) then [Scrape(content, item)] else [])
  {
    assert (items + [item])[..|items|] == items;
  }

  /** One step of the loop: the next item's result is appended exactly when
      its text survives. */
  lemma KeptStep(content: string -> string, items: seq<NewsItem>, i: nat, text: string)
    requires i < |items| && text == content(items[i].link)
    ensures Kept(content, items[..i + 1]) ==
      Kept(content, items[..i]) + (if |text| >= MinContentLength then [ScrapedNews(items[i], text)] else [])
  {
    assert items[..i + 1] == items[..i] + [items[i]];
    KeptSnoc(content, items[..i], items[i]);
  }

  /** Every text the service keeps has between 100 and 3003 characters. */
  lemma KeptContentInRange(web: Web, items: seq<NewsItem>)
    ensures forall k :: 0 <= k < |Kept(PageText(web), items)| ==>
      MinContentLength <= |Kept(PageText(web), items)[k].content| <= MaxContentLength + |Ellipsis|
  {
    var r := Kept(PageText(web), items);
    forall k | 0 <= k < |r|
      ensures MinContentLength <= |r[k].content| <= MaxContentLength + |Ellipsis|
    {
      assert r[k].content == ScrapedContent(web, r[k].item.link);
    }
  }

  /** Scraping each item of a list, in order. */
  function ScrapeAll(content: string -> string, items: seq<NewsItem>): (r: seq<ScrapedNews>)
    ensures |r| == |items|
    ensures forall k :: 0 <= k < |items| ==> r[k] == Scrape(content, items[k])
  {
    seq(|items|, k requires 0 <= k < |items| => Scrape(content, items[k]))
  }

  lemma ScrapeAllAppend(content: string -> string, xs: seq<NewsItem>, ys: seq<NewsItem>)
    ensures ScrapeAll(content, xs + ys) == ScrapeAll(content, xs) + ScrapeAll(content, ys)
  {
  }

  /** The kept results are exactly the successful items, in feed order, each
      with its text: the items the filter keeps, scraped. */
  lemma {:induction false} KeptIsFilteredScrape(content: string -> string, items: seq<NewsItem>)
    ensures Kept(content, items) == ScrapeAll(content, Filter(items, item => Succeeds(content, item)))
    decreases |items|
  {
    var keep := item => Succeeds(content, item);
    if items == [] {
      assert Filter(items, keep) == [];
    } else {
      var init := items[..|items| - 1];
      var item := items[|items| - 1];
      assert items == init + [item];
      KeptSnoc(content, init, item);
      KeptIsFilteredScrape(content, init);
      FilterSnoc(init, item, keep);
      ScrapeAllAppend(content, Filter(init, keep), if keep(item) then [item] else []);
    }
  }

  /** No successful item is lost: each item whose text survives appears in the
      results with that text. */
  lemma NoSuccessfulItemLost(content: string -> string, items: seq<NewsItem>, k: nat)
    requires k < |items| && Succeeds(content, items[k])
    ensures Scrape(content, items[k]) in Kept(content, items)
  {
    var keep := item => Succeeds(content, item);
    KeptIsFilteredScrape(content, items);
    var f := Filter(items, keep);
    assert keep(items[k]);
    assert items[k] in f;
    var j :| 0 <= j < |f| && f[j] == items[k];
    assert ScrapeAll(content, f)[j] == Scrape(content, items[k]);
  }

  /** The service's loop: scrape each item in turn and push the ones whose
      text has at least 100 characters. */
  method ScrapeMultipleArticles(web: Web, newsItems: seq<NewsItem>) returns (results: seq<ScrapedNews>)
    ensures results == Kept(PageText(web), newsItems)
  {
    results := [];
    for i := 0 to |newsItems|
      invariant results == Kept(PageText(web), newsItems[..i])
    {
      var item := newsItems[i];
      var content := ScrapeArticle(web, item.link);
      KeptStep(PageText(web), newsItems, i, content);
      if |content| >= MinContentLength {
        results := results + [ScrapedNews(item, content)];
      }
    }
    assert newsItems[..|newsItems|] == newsItems;
  }
}
