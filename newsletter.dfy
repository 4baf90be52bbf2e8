/**
 * The structure of the newsletter: processed news grouped by category, one
 * section per known category in a fixed order, each item with its struck
 * original title, headline, source and optional insight, and the editorial
 * block. The HTML and CSS around these parts are not modelled.
 */
module Newsletter {
  import opened Wrappers
  import opened JsString
  import opened NewsTypes

  /** The Korean display names of the known categories. */
  const CategoryNames: map<string, string> :=
    map["business" := "경제", "tech" := "기술", "policy" := "정책", "world" := "국제"]

  /** The categories that get a section, in section order. */
  const CategoryOrder: seq<string> := ["business", "tech", "policy", "world"]

  /** A category's heading: its Korean name when it is known, else the
      category itself. A known category's heading is never the category, and
      an unknown category is its own heading. */
  function CategoryName(category: string): (name: string)
    ensures name == category <==> category !in CategoryNames
    ensures category in CategoryNames ==> name == CategoryNames[category]
  {
    if category in CategoryNames then CategoryNames[category] else category
  }

  /** Distinct section categories get distinct headings. */
  lemma CategoryNamesDistinct(c1: string, c2: string)
    requires c1 in CategoryOrder && c2 in CategoryOrder && c1 != c2
    ensures CategoryName(c1) != CategoryName(c2)
  {
  }

  /** What the template shows for one item. */
  datatype RenderedItem = RenderedItem(
    /** The original title, struck through. */
    struckTitle: string,
    /** The rewritten title, or the original when the rewrite is empty. */
    headline: string,
    source: string,
    /** The fact, context and implication lines, shown only when present. */
    insight: Option<Insight>)

  /** The field choices for one item: the headline falls back to the original
      title exactly when the rewritten title is empty, and the insight block
      is shown exactly when there is an insight. */
  function RenderNewsItem(news: ProcessedNews): (r: RenderedItem)
    ensures r.struckTitle == news.original.title && r.source == news.original.source
    ensures news.rewrittenTitle != [] ==> r.headline == news.rewrittenTitle
    ensures news.rewrittenTitle == [] ==> r.headline == news.original.title
    ensures r.headline == [] <==> news.rewrittenTitle == [] && news.original.title == []
    ensures r.insight.Some? <==> news.insight.Some?
    ensures r.insight.Some? ==> r.insight.value == news.insight.value
  {
    RenderedItem(
      news.original.title,
      if news.rewrittenTitle != [] then news.rewrittenTitle else news.original.title,
      news.original.source,
      news.insight)
  }

  function RenderAll(items: seq<ProcessedNews>): (r: seq<RenderedItem>)
    ensures |r| == |items|
    ensures forall k :: 0 <= k < |items| ==> r[k] == RenderNewsItem(items[k])
  {
    seq(|items|, k requires 0 <= k < |items| => RenderNewsItem(items[k]))
  }

  /** The items of one category, in input order. */
  function OfCategory(news: seq<ProcessedNews>, category: string): (r: seq<ProcessedNews>)
    ensures |r| <= |news|
    ensures forall k :: 0 <= k < |r| ==> r[k] in news && r[k].original.category == category
    ensures forall k :: 0 <= k < |news| && news[k].original.category == category ==> news[k] in r
  {
    Filter(news, (n: ProcessedNews) => n.original.category == category)
  }

  lemma OfCategoryAppend(news: seq<ProcessedNews>, n: ProcessedNews, category: string)
    ensures OfCategory(news + [n], category) ==
      OfCategory(news, category) + (if n.original.category == category then [n] else [])
  {
    FilterSnoc(news, n, (m: ProcessedNews) => m.original.category == category);
  }

  /** The grouping loop: each item is appended to its category's list,
      creating the list on first use. Afterwards the keys are exactly the
      categories that occur and each list holds that category's items in
      input order. */
  method GroupByCategory(processedNews: seq<ProcessedNews>) returns (newsByCategory: map<string, seq<ProcessedNews>>)
    ensures forall c :: c in newsByCategory <==> OfCategory(processedNews, c) != []
    ensures forall c :: c in newsByCategory ==> newsByCategory[c] == OfCategory(processedNews, c)
  {
    newsByCategory := map[];
    for i := 0 to |processedNews|
      invariant forall c :: c in newsByCategory <==> OfCategory(processedNews[..i], c) != []
      invariant forall c :: c in newsByCategory ==> newsByCategory[c] == OfCategory(processedNews[..i], c)
    {
      var news := processedNews[i];
      var cat := news.original.category;
      ghost var seen := processedNews[..i];
      if cat !in newsByCategory {
        newsByCategory := newsByCategory[cat := []];
      }
      assert newsByCategory[cat] == OfCategory(seen, cat);
      ghost var grouped := newsByCategory;
      newsByCategory := newsByCategory[cat := newsByCategory[cat] + [news]];
      assert processedNews[..i + 1] == seen + [news];
      forall c
        ensures c in newsByCategory <==> OfCategory(seen + [news], c) != []
        ensures c in newsByCategory ==> newsByCategory[c] == OfCategory(seen + [news], c)
      {
        OfCategoryAppend(seen, news, c);
        if c != cat {
          assert c in newsByCategory <==> c in grouped;
        }
      }
    }
    assert processedNews[..|processedNews|] == processedNews;
  }

  /** One category's section: its heading and its rendered items. */
  datatype Section = Section(category: string, heading: string, items: seq<RenderedItem>)

  /** The sections for the categories of `order`, in that order, skipping the
      categories without items. */
  function Sections(order: seq<string>, news: seq<ProcessedNews>): (r: seq<Section>)
    ensures |r| <= |order|
    ensures forall k :: 0 <= k < |r| ==>
      && r[k].category in order
      && OfCategory(news, r[k].category) != []
      && r[k].heading == CategoryName(r[k].category)
      && r[k].items == RenderAll(OfCategory(news, r[k].category))
    decreases |order|
  {
    if order == [] then []
    else
      var c := order[|order| - 1];
      var items := OfCategory(news, c);
      Sections(order[..|order| - 1], news) +
        (if items == [] then [] else [Section(c, CategoryName(c), RenderAll(items))])
  }

  /** The section a category adds, if it has items. */
  function NewSection(c: string, news: seq<ProcessedNews>): seq<Section> {
    if OfCategory(news, c) == [] then [] else [Section(c, CategoryName(c), RenderAll(OfCategory(news, c)))]
  }

  lemma SectionsSnoc(order: seq<string>, c: string, news: seq<ProcessedNews>)
    ensures Sections(order + [c], news) == Sections(order, news) + NewSection(c, news)
  {
    assert (order + [c])[..|order|] == order;
  }

  function CategoriesOf(sections: seq<Section>): (r: seq<string>)
    ensures |r| == |sections|
    ensures forall k :: 0 <= k < |r| ==> r[k] == sections[k].category
  {
    seq(|sections|, k requires 0 <= k < |sections| => sections[k].category)
  }

  /** The sections' categories are exactly the categories of `order` that have
      items, in the order of `order`. */
  lemma {:induction false} SectionOrder(order: seq<string>, news: seq<ProcessedNews>)
    ensures CategoriesOf(Sections(order, news)) == Filter(order, (c: string) => OfCategory(news, c) != [])
    decreases |order|
  {
    var keep := (c: string) => OfCategory(news, c) != [];
    if order != [] {
      var init := order[..|order| - 1];
      var c := order[|order| - 1];
      assert order == init + [c];
      SectionOrder(init, news);
      FilterSnoc(init, c, keep);
      SectionsSnoc(init, c, news);
      CategoriesOfAppend(Sections(init, news), NewSection(c, news));
    }
  }

  lemma CategoriesOfAppend(a: seq<Section>, b: seq<Section>)
    ensures CategoriesOf(a + b) == CategoriesOf(a) + CategoriesOf(b)
  {
  }

  /** An item whose category is not one of the section categories is
      rendered in no section. */
  lemma OtherCategoryNotRendered(news: seq<ProcessedNews>, n: ProcessedNews)
    requires n.original.category !in CategoryOrder
    ensures forall s :: 0 <= s < |Sections(CategoryOrder, news)| ==>
      Sections(CategoryOrder, news)[s].category != n.original.category
  {
  }

  /** An item of a section category is rendered in that category's section. */
  lemma ItemRenderedInItsSection(news: seq<ProcessedNews>, k: nat)
    requires k < |news| && news[k].original.category in CategoryOrder
    ensures exists s ::
      && 0 <= s < |Sections(CategoryOrder, news)|
      && Sections(CategoryOrder, news)[s].category == news[k].original.category
      && RenderNewsItem(news[k]) in Sections(CategoryOrder, news)[s].items
  {
    var c := news[k].original.category;
    var sections := Sections(CategoryOrder, news);
    var items := OfCategory(news, c);
    assert news[k] in items;
    var j :| 0 <= j < |items| && items[j] == news[k];
    var s := SectionOf(CategoryOrder, news, c);
    assert sections[s].items[j] == RenderNewsItem(news[k]);
  }

  /** The index of the section of a category of `order` that has items. */
  lemma SectionOf(order: seq<string>, news: seq<ProcessedNews>, c: string) returns (s: nat)
    requires c in order && OfCategory(news, c) != []
    ensures s < |Sections(order, news)| && Sections(order, news)[s].category == c
  {
    var keep := (c: string) => OfCategory(news, c) != [];
    SectionOrder(order, news);
    var f := Filter(order, keep);
    var i :| 0 <= i < |order| && order[i] == c;
    assert keep(order[i]);
    assert c in f;
    s :| 0 <= s < |f| && f[s] == c;
    assert CategoriesOf(Sections(order, news))[s] == c;
  }

  /** One step of the section loop, read off the grouping dictionary. */
  lemma SectionStep(order: seq<string>, i: nat, news: seq<ProcessedNews>, byCategory: map<string, seq<ProcessedNews>>)
    requires i < |order|
    requires forall c :: c in byCategory <==> OfCategory(news, c) != []
    requires forall c :: c in byCategory ==> byCategory[c] == OfCategory(news, c)
    ensures var c := order[i];
      Sections(order[..i + 1], news) == Sections(order[..i], news) +
        (if c !in byCategory || byCategory[c] == [] then [] else [Section(c, CategoryName(c), RenderAll(byCategory[c]))])
  {
    assert order[..i + 1] == order[..i] + [order[i]];
    SectionsSnoc(order[..i], order[i], news);
  }

  /** What the newsletter is made of: the date, the protection log, the
      sections and the editorial block when there is one. */
  datatype RenderedNewsletter = RenderedNewsletter(
    date: string,
    protectionLog: string,
    sections: seq<Section>,
    editorial: Option<EditorialSynthesis>)

  /** Renders the newsletter: groups the news, then walks the category order
      and emits a section for each category that has items. */
  method RenderNewsletter(data: NewsletterData) returns (newsletter: RenderedNewsletter)
    ensures newsletter.date == data.date && newsletter.protectionLog == data.protectionLog
    ensures newsletter.sections == Sections(CategoryOrder, data.processedNews)
    ensures newsletter.editorial.Some? <==> data.editorialSynthesis.Some?
    ensures newsletter.editorial == data.editorialSynthesis
  {
    var newsByCategory := GroupByCategory(data.processedNews);
    var sections: seq<Section> := [];
    for i := 0 to |CategoryOrder|
      invariant sections == Sections(CategoryOrder[..i], data.processedNews)
    {
      var category := CategoryOrder[i];
      SectionStep(CategoryOrder, i, data.processedNews, newsByCategory);
      if category !in newsByCategory || newsByCategory[category] == [] {
        continue;
      }
      sections := sections + [Section(category, CategoryName(category), RenderAll(newsByCategory[category]))];
    }
    assert CategoryOrder[..|CategoryOrder|] == CategoryOrder;
    var editorial := None;
    if data.editorialSynthesis.Some? {
      editorial := data.editorialSynthesis;
    }
    newsletter := RenderedNewsletter(data.date, data.protectionLog, sections, editorial);
  }
}
