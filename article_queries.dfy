/** The read handlers of the article controller: the public listing, one
    article with its related articles, and the listing by author. Each reads
    published rows ordered by `published_at` descending and cuts one page. */
module ArticleQueries {
  import opened Wrappers
  import opened Http
  import opened Schema
  import opened Pagination
  import opened Listings
  import Query

  /** Number of published articles in the table. */
  ghost function PublishedCount(articles: map<ArticleId, Article>): nat {
    |SelectedKeys(articles, Everything)|
  }

  /** `getAllArticles`: a page of the published articles that pass the
      filters, newest first; `meta.total` counts every published article,
      filtered or not, because the count is read before the filters are
      added to its query. */
  ghost function ListArticles(articles: map<ArticleId, Article>, tagPairs: set<(ArticleId, TagId)>,
                              f: ArticleFilter, p: Paging): (r: Listing)
    requires IdsMatch(articles)
    ensures r.data == Slice(NewestPublished(articles, Filtered(f, tagPairs)), p)
    ensures r.meta == MetaFor(PublishedCount(articles), p)
    ensures |r.data| <= p.limit
    ensures forall i :: 0 <= i < |r.data| ==>
              IsPublished(r.data[i]) && Matches(f, tagPairs, r.data[i]) && Stored(articles, r.data[i])
    ensures NewestFirst(r.data)
    ensures r.meta.total == PublishedCount(articles)
    ensures r.meta.page == p.page && r.meta.limit == p.limit
    ensures r.meta.totalPages == TotalPages(PublishedCount(articles), p.limit)
  {
    var sel := Filtered(f, tagPairs);
    NewestPublishedIsOrdered(articles, sel);
    NewestPublishedIsSound(articles, sel);
    PageOf(NewestPublished(articles, sel), PublishedCount(articles), p)
  }

  /** `getAllArticles` with the count taken over the filtered rows, as the
      comment beside the count query intends. */
  ghost function ListArticlesCounted(articles: map<ArticleId, Article>, tagPairs: set<(ArticleId, TagId)>,
                                     f: ArticleFilter, p: Paging): (r: Listing)
    requires IdsMatch(articles)
    ensures r.data == Slice(NewestPublished(articles, Filtered(f, tagPairs)), p)
    ensures r.meta == MetaFor(|SelectedKeys(articles, Filtered(f, tagPairs))|, p)
    ensures forall i :: 0 <= i < |r.data| ==>
              IsPublished(r.data[i]) && Matches(f, tagPairs, r.data[i]) && Stored(articles, r.data[i])
    ensures NewestFirst(r.data) && |r.data| <= p.limit
    ensures r.meta.total == |SelectedKeys(articles, Filtered(f, tagPairs))|
    ensures r.data != [] <==> p.page <= r.meta.totalPages
  {
    var sel := Filtered(f, tagPairs);
    var rows := NewestPublished(articles, sel);
    NewestPublishedIsOrdered(articles, sel);
    NewestPublishedIsSound(articles, sel);
    PageOf(rows, |rows|, p)
  }

  /** With two published articles and a search that matches neither, the
      listing as written is empty yet reports two rows over two pages of
      one; the counted listing reports none. */
  lemma ListTotalIgnoresFilters(now: Time)
    ensures var articles := map[1 := Example(1, "a", now), 2 := Example(2, "b", now)];
            var f := ArticleFilter(None, None, None, Some("zzz"));
            var p := Paging(1, 1);
            && ListArticles(articles, {}, f, p).data == []
            && ListArticles(articles, {}, f, p).meta.total == 2
            && ListArticles(articles, {}, f, p).meta.totalPages == 2
            && ListArticlesCounted(articles, {}, f, p).meta.totalPages == 0
  {
    var articles := map[1 := Example(1, "a", now), 2 := Example(2, "b", now)];
    var f := ArticleFilter(None, None, None, Some("zzz"));
    var p := Paging(1, 1);
    assert !ContainsText("a", "zzz") && !ContainsText("b", "zzz");
    assert SelectedKeys(articles, Everything) == {1, 2};
    assert SelectedKeys(articles, Filtered(f, {})) == {};
  }

  /** A published article with the given id and title. */
  function Example(id: ArticleId, title: string, now: Time): Article {
    Article(id, title, "", None, "author", None, Published, Some(now), None)
  }

  const RELATED_LIMIT: nat := 3

  /** Up to three related articles, newest first. */
  ghost function Related(articles: map<ArticleId, Article>, a: Article): (r: seq<Article>)
    requires IdsMatch(articles)
    ensures |r| <= RELATED_LIMIT
    ensures forall i :: 0 <= i < |r| ==> IsPublished(r[i]) && IsRelated(a, r[i]) && Stored(articles, r[i])
    ensures NewestFirst(r) && DistinctIds(r)
    ensures forall k :: k in articles && IsPublished(articles[k]) && IsRelated(a, articles[k]) && articles[k] !in r ==>
              |r| == RELATED_LIMIT && forall i :: 0 <= i < |r| ==> Newer(r[i], articles[k])
  {
    var rows := NewestPublished(articles, RelatedTo(a));
    NewestPublishedIsOrdered(articles, RelatedTo(a));
    NewestPublishedIsSound(articles, RelatedTo(a));
    NewestPublishedIsComplete(articles, RelatedTo(a));
    NewestPublishedIdsDistinct(articles, RelatedTo(a));
    var r := Query.Take(rows, RELATED_LIMIT);
    forall k | k in articles && IsPublished(articles[k]) && IsRelated(a, articles[k]) && articles[k] !in r
      ensures |r| == RELATED_LIMIT && forall i :: 0 <= i < |r| ==> Newer(r[i], articles[k])
    {
      assert Selected(RelatedTo(a), articles[k]);
      TopRows(rows, RELATED_LIMIT, articles[k]);
    }
    r
  }

  datatype ArticleDetail = ArticleDetail(article: Article, tags: set<TagId>, related: seq<Article>)

  const ARTICLE_NOT_FOUND: string := "Article not found"

  /** `getArticleById`: 404 when there is no such row. Otherwise the
      related query filters `category_id` on the article's own category;
      for an article without one the client sends the text "null" as that
      id, the store rejects it, and the handler's catch answers 404 as well.
      An article with a category is answered with the row, whatever its
      status, its tags and its related articles. */
  ghost function GetArticle(articles: map<ArticleId, Article>, tagPairs: set<(ArticleId, TagId)>,
                            id: ArticleId): (r: Result<ArticleDetail>)
    requires IdsMatch(articles)
    ensures id !in articles ==> r == Err(NotFound(ARTICLE_NOT_FOUND))
    ensures id in articles && articles[id].categoryId.None? ==> r == Err(NotFound(ARTICLE_NOT_FOUND))
    ensures r.Ok? <==> id in articles && articles[id].categoryId.Some?
    ensures r.Ok? ==> r.code == OK && r.value.article == articles[id]
    ensures r.Ok? ==> r.value.tags == TagsOf(tagPairs, id)
    ensures r.Ok? ==> r.value.related == Related(articles, articles[id])
    ensures r.Ok? ==> |r.value.related| <= RELATED_LIMIT
    ensures r.Ok? ==> forall i :: 0 <= i < |r.value.related| ==>
              && IsPublished(r.value.related[i]) && r.value.related[i].id != id
              && r.value.related[i].categoryId == articles[id].categoryId
  {
    if id !in articles || articles[id].categoryId.None? then Err(NotFound(ARTICLE_NOT_FOUND))
    else Ok(OK, ArticleDetail(articles[id], TagsOf(tagPairs, id), Related(articles, articles[id])))
  }

  /** `getArticleById` as evidently intended: every stored article is
      answered, one without a category with no related articles. */
  ghost function GetArticleAnyCategory(articles: map<ArticleId, Article>, tagPairs: set<(ArticleId, TagId)>,
                                       id: ArticleId): (r: Result<ArticleDetail>)
    requires IdsMatch(articles)
    ensures id !in articles ==> r == Err(NotFound(ARTICLE_NOT_FOUND))
    ensures id in articles ==> r.Ok? && r.code == OK && r.value.article == articles[id]
    ensures r.Ok? ==> r.value.tags == TagsOf(tagPairs, id)
    ensures r.Ok? && articles[id].categoryId.None? ==> r.value.related == []
    ensures r.Ok? && articles[id].categoryId.Some? ==> r == GetArticle(articles, tagPairs, id)
  {
    if id !in articles then Err(NotFound(ARTICLE_NOT_FOUND))
    else if articles[id].categoryId.None? then Ok(OK, ArticleDetail(articles[id], TagsOf(tagPairs, id), []))
    else GetArticle(articles, tagPairs, id)
  }

  /** A stored article without a category cannot be viewed as written,
      while the intended handler shows it with no related articles. */
  lemma UncategorisedArticleIsNotFound(articles: map<ArticleId, Article>, tagPairs: set<(ArticleId, TagId)>,
                                       id: ArticleId)
    requires IdsMatch(articles)
    requires id in articles && articles[id].categoryId.None?
    ensures GetArticle(articles, tagPairs, id) == Err(NotFound(ARTICLE_NOT_FOUND))
    ensures GetArticleAnyCategory(articles, tagPairs, id).Ok?
    ensures GetArticleAnyCategory(articles, tagPairs, id).value.related == []
  {
  }

  /** `getArticlesByAuthor`, for the author the route names: a page of that
      author's published articles, newest first, counted exactly. A page
      that starts past the author's last article makes the store refuse the
      range, and the handler answers 500 with the store's message. */
  ghost function ArticlesByAuthor(articles: map<ArticleId, Article>, author: ProfileId, p: Paging): (r: Result<Listing>)
    requires IdsMatch(articles)
    ensures r.Err? <==> !RangeSatisfiable(|SelectedKeys(articles, WrittenBy(author))|, p)
    ensures r.Err? ==> r.error == ServerError(RANGE_NOT_SATISFIABLE) && r.error.Code() == 500
    ensures r.Ok? ==> r.code == OK && r.value.data == Slice(NewestPublished(articles, WrittenBy(author)), p)
    ensures r.Ok? ==> r.value.meta == MetaFor(|SelectedKeys(articles, WrittenBy(author))|, p)
    ensures r.Ok? ==> forall i :: 0 <= i < |r.value.data| ==>
              IsPublished(r.value.data[i]) && r.value.data[i].authorId == author && Stored(articles, r.value.data[i])
    ensures r.Ok? ==> NewestFirst(r.value.data) && |r.value.data| <= p.limit
    ensures r.Ok? ==> (r.value.data != [] <==> p.page <= r.value.meta.totalPages)
  {
    var rows := NewestPublished(articles, WrittenBy(author));
    NewestPublishedIsOrdered(articles, WrittenBy(author));
    NewestPublishedIsSound(articles, WrittenBy(author));
    if !RangeSatisfiable(|rows|, p) then Err(ServerError(RANGE_NOT_SATISFIABLE))
    else Ok(OK, PageOf(rows, |rows|, p))
  }

  /** `getArticlesByAuthor` as written: it reads the `author_id` route
      parameter, but the route names its parameter `id`, so the filter gets
      the text "undefined" that an absent value turns into. */
  ghost function ArticlesByAuthorAsWritten(params: map<string, string>, articles: map<ArticleId, Article>,
                                           p: Paging): (r: Result<Listing>)
    requires IdsMatch(articles)
    ensures "author_id" !in params ==> r == ArticlesByAuthor(articles, "undefined", p)
  {
    ArticlesByAuthor(articles, if "author_id" in params then params["author_id"] else "undefined", p)
  }

  /** Through `/author/:id`, the handler as written never lists the named
      author's articles: when no article is written by "undefined" it
      answers page 1 with no rows and every later page with 500, while the
      intended filter lists them from page 1. */
  lemma AuthorRouteListsNobody(articles: map<ArticleId, Article>, author: ProfileId, k: ArticleId, p: Paging)
    requires author != "undefined"
    requires IdsMatch(articles)
    requires k in articles && IsPublished(articles[k]) && articles[k].authorId == author
    ensures ArticlesByAuthorAsWritten(map["id" := author], articles, p).Ok? ==>
              forall i :: 0 <= i < |ArticlesByAuthorAsWritten(map["id" := author], articles, p).value.data| ==>
                ArticlesByAuthorAsWritten(map["id" := author], articles, p).value.data[i].authorId != author
    ensures (forall k' :: k' in articles ==> articles[k'].authorId != "undefined") ==>
              (ArticlesByAuthorAsWritten(map["id" := author], articles, p).Ok? <==> p.page == 1)
    ensures ArticlesByAuthor(articles, author, Paging(1, p.limit)).Ok?
    ensures ArticlesByAuthor(articles, author, Paging(1, p.limit)).value.data != []
  {
    assert k in SelectedKeys(articles, WrittenBy(author));
    if forall k' :: k' in articles ==> articles[k'].authorId != "undefined" {
      assert SelectedKeys(articles, WrittenBy("undefined")) == {};
    }
    SatisfiablePages(|SelectedKeys(articles, WrittenBy(author))|, Paging(1, p.limit));
  }
}
