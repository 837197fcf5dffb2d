/** The published-article listings the read handlers share: which rows a
    listing selects, the `published_at` descending order, and the selected
    rows of a table in that order. */
module Listings {
  import opened Wrappers
  import opened Schema
  import opened Pagination
  import Query

  /** The optional query-string filters of the public listing. */
  datatype ArticleFilter = ArticleFilter(
    category: Option<CategoryId>,
    tag: Option<TagId>,
    author: Option<ProfileId>,
    search: Option<string>)

  /** `part` occurs in `text` (the `%search%` pattern). */
  predicate ContainsText(text: string, part: string) {
    (|part| <= |text| && text[..|part|] == part) || (text != [] && ContainsText(text[1..], part))
  }

  /** `text` holds `part` starting at position `i`. */
  predicate OccursAt(text: string, part: string, i: nat) {
    i + |part| <= |text| && text[i..i + |part|] == part
  }

  /** `part` occurs in `text` exactly when `text` holds it at some position. */
  lemma {:induction false} ContainsTextIsSubstring(text: string, part: string)
    ensures ContainsText(text, part) <==> exists i: nat :: OccursAt(text, part, i)
    decreases |text|
  {
    if |part| <= |text| && text[..|part|] == part {
      assert OccursAt(text, part, 0);
    } else if text != [] {
      ContainsTextIsSubstring(text[1..], part);
      if ContainsText(text[1..], part) {
        var j: nat :| OccursAt(text[1..], part, j);
        assert text[j + 1..j + 1 + |part|] == text[1..][j..j + |part|];
        assert OccursAt(text, part, j + 1);
      }
      if i: nat :| OccursAt(text, part, i) && i > 0 {
        assert text[1..][i - 1..i - 1 + |part|] == text[i..i + |part|];
        assert OccursAt(text[1..], part, i - 1);
      }
    }
  }

  /** An article passes every filter the request gives; a request with no
      filter keeps every article. A filter is given when its query
      parameter is truthy, so an empty `author` or `search` is no filter. */
  function Matches(f: ArticleFilter, tagPairs: set<(ArticleId, TagId)>, a: Article): (ok: bool)
    ensures ok <==>
              && (f.category.Some? ==> a.categoryId == f.category)
              && (f.tag.Some? ==> f.tag.value in TagsOf(tagPairs, a.id))
              && (f.author.Some? && f.author.value != "" ==> a.authorId == f.author.value)
              && (f.search.Some? ==> exists i: nat :: OccursAt(a.title, f.search.value, i))
    ensures f == ArticleFilter(None, None, None, None) ==> ok
    ensures ok && f.category.Some? ==> a.categoryId == f.category
    ensures ok && f.tag.Some? ==> f.tag.value in TagsOf(tagPairs, a.id)
    ensures ok && f.author.Some? && f.author.value != "" ==> a.authorId == f.author.value
    ensures ok && f.search.Some? ==> exists i: nat :: OccursAt(a.title, f.search.value, i)
  {
    ContainsTextIsSubstring(a.title, f.search.GetOr(""));
    && (f.category.Some? ==> a.categoryId == f.category)
    && (f.tag.Some? ==> (a.id, f.tag.value) in tagPairs)
    && (f.author.Some? && f.author.value != "" ==> a.authorId == f.author.value)
    && (f.search.Some? ==> ContainsText(a.title, f.search.value))
  }

  /** `?author=` and `?search=` with empty values filter nothing, as if
      they were absent, each on its own and together. */
  lemma EmptyTextFiltersAreIgnored(f: ArticleFilter, tagPairs: set<(ArticleId, TagId)>, a: Article)
    ensures Matches(f.(author := Some("")), tagPairs, a) == Matches(f.(author := None), tagPairs, a)
    ensures Matches(f.(search := Some("")), tagPairs, a) == Matches(f.(search := None), tagPairs, a)
    ensures Matches(f.(author := Some(""), search := Some("")), tagPairs, a)
         == Matches(f.(author := None, search := None), tagPairs, a)
  {
    assert OccursAt(a.title, "", 0);
  }

  /** The condition a listing adds to `status = 'published'`. */
  datatype Selection =
    | Everything
    | Filtered(filter: ArticleFilter, tagPairs: set<(ArticleId, TagId)>)
    | RelatedTo(article: Article)
    | WrittenBy(author: ProfileId)
    | InCategory(category: CategoryId)

  /** A candidate for the related articles of `a`: another article in the
      same (non-null) category. */
  predicate IsRelated(a: Article, b: Article) {
    a.categoryId.Some? && b.categoryId == a.categoryId && b.id != a.id
  }

  predicate Keeps(sel: Selection, a: Article) {
    match sel
    case Everything => true
    case Filtered(f, tagPairs) => Matches(f, tagPairs, a)
    case RelatedTo(b) => IsRelated(b, a)
    case WrittenBy(author) => a.authorId == author
    case InCategory(c) => a.categoryId == Some(c)
  }

  /** A row the listing returns. */
  predicate Selected(sel: Selection, a: Article) {
    IsPublished(a) && Keeps(sel, a)
  }

  /** The keys of the rows a listing selects; its size is what the
      listing's exact count reports. */
  ghost function SelectedKeys(articles: map<ArticleId, Article>, sel: Selection): (ks: set<ArticleId>)
    ensures ks <= articles.Keys
    ensures forall k :: k in articles ==> (k in ks <==> Selected(sel, articles[k]))
  {
    set k | k in articles && Selected(sel, articles[k])
  }

  /** `ORDER BY published_at DESC`: PostgreSQL sorts NULL first in a
      descending order, then later times before earlier ones. */
  function NoOlder(x: Option<Time>, y: Option<Time>): (ok: bool)
    ensures x.None? ==> ok
    ensures x.Some? && y.None? ==> !ok
    ensures x.Some? && y.Some? ==> (ok <==> x.value >= y.value)
  {
    match (x, y)
    case (None, _) => true
    case (Some(_), None) => false
    case (Some(p), Some(q)) => p >= q
  }

  /** `a` may come before `b` in a newest-first listing. */
  predicate Newer(a: Article, b: Article) {
    NoOlder(a.publishedAt, b.publishedAt)
  }

  /** The order is total and transitive, so a newest-first order exists. */
  lemma NewerIsTotalPreorder(a: Article, b: Article, c: Article)
    ensures Newer(a, b) || Newer(b, a)
    ensures Newer(a, b) && Newer(b, c) ==> Newer(a, c)
  {
  }

  predicate NewestFirst(s: seq<Article>) {
    forall i, j :: 0 <= i < j < |s| ==> Newer(s[i], s[j])
  }

  /** Places `x` before the first row it is newer than. */
  function InsertNewest(x: Article, s: seq<Article>): (r: seq<Article>)
    ensures |r| == |s| + 1
    ensures multiset(r) == multiset(s) + multiset{x}
    ensures forall i :: 0 <= i < |r| ==> r[i] == x || r[i] in s
  {
    if s == [] || Newer(x, s[0]) then [x] + s
    else
      assert s == [s[0]] + s[1..];
      [s[0]] + InsertNewest(x, s[1..])
  }

  lemma {:induction false} InsertKeepsOrder(x: Article, s: seq<Article>)
    requires NewestFirst(s)
    ensures NewestFirst(InsertNewest(x, s))
  {
    if s == [] || Newer(x, s[0]) {
    } else {
      InsertKeepsOrder(x, s[1..]);
      var r := InsertNewest(x, s);
      assert r == [s[0]] + InsertNewest(x, s[1..]);
      forall j | 0 < j < |r| ensures Newer(r[0], r[j]) {
        if r[j] == x {
          NewerIsTotalPreorder(x, s[0], s[0]);
        } else {
          var m :| 0 <= m < |s| - 1 && s[1..][m] == r[j];
          assert s[m + 1] == r[j];
        }
      }
    }
  }

  /** The selected rows of `articles`, newest first: the result of a
      `select` with `status = 'published'`, the selection's condition and
      `order("published_at", { ascending: false })`. Rows with equal times
      come in an order the store leaves unspecified. The count it returns
      is the exact count of the same query. */
  ghost function NewestPublished(articles: map<ArticleId, Article>, sel: Selection): (r: seq<Article>)
    ensures |r| == |SelectedKeys(articles, sel)|
    decreases |articles|
  {
    if articles == map[] then
      assert SelectedKeys(articles, sel) == {};
      []
    else
      var k := Query.Pick(articles);
      SplitKeys(articles, sel, k);
      var tail := NewestPublished(articles - {k}, sel);
      if Selected(sel, articles[k]) then InsertNewest(articles[k], tail) else tail
  }

  /** The listing is in `published_at` descending order. */
  lemma {:induction false} NewestPublishedIsOrdered(articles: map<ArticleId, Article>, sel: Selection)
    ensures NewestFirst(NewestPublished(articles, sel))
    decreases |articles|
  {
    if articles != map[] {
      var k := Query.Pick(articles);
      SplitKeys(articles, sel, k);
      NewestPublishedIsOrdered(articles - {k}, sel);
      if Selected(sel, articles[k]) {
        InsertKeepsOrder(articles[k], NewestPublished(articles - {k}, sel));
      }
    }
  }

  /** Every listed row is selected and is a stored row. */
  lemma {:induction false} NewestPublishedIsSound(articles: map<ArticleId, Article>, sel: Selection)
    requires IdsMatch(articles)
    ensures forall i :: 0 <= i < |NewestPublished(articles, sel)| ==>
              Selected(sel, NewestPublished(articles, sel)[i]) && Stored(articles, NewestPublished(articles, sel)[i])
    decreases |articles|
  {
    if articles != map[] {
      var k := Query.Pick(articles);
      var rest := articles - {k};
      SplitKeys(articles, sel, k);
      NewestPublishedIsSound(rest, sel);
      var tail := NewestPublished(rest, sel);
      StoredInRest(articles, k, tail);
    }
  }

  /** Every selected row of the table is listed. */
  lemma {:induction false} NewestPublishedIsComplete(articles: map<ArticleId, Article>, sel: Selection)
    ensures forall k :: k in articles && Selected(sel, articles[k]) ==> articles[k] in multiset(NewestPublished(articles, sel))
    decreases |articles|
  {
    if articles != map[] {
      var k := Query.Pick(articles);
      var rest := articles - {k};
      SplitKeys(articles, sel, k);
      NewestPublishedIsComplete(rest, sel);
      StoredInRest(articles, k, []);
    }
  }

  /** Removing key `k` removes at most `k` from the selected keys. */
  lemma SplitKeys(articles: map<ArticleId, Article>, sel: Selection, k: ArticleId)
    requires k in articles
    ensures (articles - {k}).Keys == articles.Keys - {k}
    ensures SelectedKeys(articles, sel)
         == SelectedKeys(articles - {k}, sel) + (if Selected(sel, articles[k]) then {k} else {})
    ensures k !in SelectedKeys(articles - {k}, sel)
  {
    var rest := articles - {k};
    assert rest.Keys == articles.Keys - {k};
    assert forall k' :: k' in rest ==> rest[k'] == articles[k'];
  }

  /** Rows stored in the table without `k` are stored in the table. */
  lemma StoredInRest(articles: map<ArticleId, Article>, k: ArticleId, tail: seq<Article>)
    requires k in articles
    requires forall i :: 0 <= i < |tail| ==> Stored(articles - {k}, tail[i])
    ensures forall i :: 0 <= i < |tail| ==> Stored(articles, tail[i])
    ensures forall k' :: k' in articles - {k} ==> (articles - {k})[k'] == articles[k']
  {
  }

  /** No row appears twice. */
  predicate DistinctIds(s: seq<Article>) {
    forall i, j :: 0 <= i < j < |s| ==> s[i].id != s[j].id
  }

  /** Inserting a row whose id is not yet listed keeps the ids distinct. */
  lemma {:induction false} InsertKeepsIdsDistinct(x: Article, s: seq<Article>)
    requires DistinctIds(s)
    requires forall i :: 0 <= i < |s| ==> s[i].id != x.id
    ensures DistinctIds(InsertNewest(x, s))
  {
    if s != [] && !Newer(x, s[0]) {
      InsertKeepsIdsDistinct(x, s[1..]);
      var r := InsertNewest(x, s);
      assert r == [s[0]] + InsertNewest(x, s[1..]);
      forall j | 0 < j < |r| ensures r[0].id != r[j].id {
        if r[j] != x {
          var m :| 0 <= m < |s| - 1 && s[1..][m] == r[j];
          assert s[m + 1] == r[j];
        }
      }
    }
  }

  /** The listing holds each selected row once. */
  lemma {:induction false} NewestPublishedIdsDistinct(articles: map<ArticleId, Article>, sel: Selection)
    requires IdsMatch(articles)
    ensures DistinctIds(NewestPublished(articles, sel))
    decreases |articles|
  {
    if articles != map[] {
      var k := Query.Pick(articles);
      var rest := articles - {k};
      SplitKeys(articles, sel, k);
      assert IdsMatch(rest);
      NewestPublishedIdsDistinct(rest, sel);
      NewestPublishedIsSound(rest, sel);
      var tail := NewestPublished(rest, sel);
      if Selected(sel, articles[k]) {
        forall i | 0 <= i < |tail| ensures tail[i].id != articles[k].id {
          assert Stored(rest, tail[i]);
        }
        InsertKeepsIdsDistinct(articles[k], tail);
      }
    }
  }

  /** A page of a newest-first listing is newest first. */
  lemma SliceKeepsOrder(rows: seq<Article>, p: Paging)
    requires NewestFirst(rows)
    ensures NewestFirst(Slice(rows, p))
  {
    var r := Slice(rows, p);
    forall i, j | 0 <= i < j < |r| ensures Newer(r[i], r[j]) {
      assert r[i] == rows[p.From() + i] && r[j] == rows[p.From() + j];
    }
  }

  /** The first `n` rows of a newest-first listing: a listed row left out
      is no newer than any row kept, and rows are left out only when `n`
      rows are kept. */
  lemma TopRows(rows: seq<Article>, n: nat, x: Article)
    requires NewestFirst(rows)
    requires x in multiset(rows) && x !in Query.Take(rows, n)
    ensures |Query.Take(rows, n)| == n
    ensures forall i :: 0 <= i < n ==> Newer(Query.Take(rows, n)[i], x)
  {
    var j :| 0 <= j < |rows| && rows[j] == x;
    assert j >= |Query.Take(rows, n)|;
  }

  /** A page of rows and its `meta`. */
  datatype Listing = Listing(data: seq<Article>, meta: Meta)

  /** A page of the given newest-first rows, with the page and row facts
      every listing shares. */
  function PageOf(rows: seq<Article>, total: nat, p: Paging): (r: Listing)
    requires NewestFirst(rows)
    ensures r.data == Slice(rows, p)
    ensures |r.data| <= p.limit
    ensures NewestFirst(r.data)
    ensures forall i :: 0 <= i < |r.data| ==> p.From() + i < |rows| && r.data[i] == rows[p.From() + i]
    ensures r.data != [] <==> p.page <= TotalPages(|rows|, p.limit)
    ensures r.meta == MetaFor(total, p)
  {
    SliceKeepsOrder(rows, p);
    PageNonEmptyIff(rows, p);
    Listing(Slice(rows, p), MetaFor(total, p))
  }
}
