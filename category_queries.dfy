/** The read handlers of the category controller: every category by name,
    one category, and a page of a category's published articles. */
module CategoryQueries {
  import opened Wrappers
  import opened Http
  import opened Schema
  import opened Pagination
  import opened Listings
  import Query

  const CATEGORY_NOT_FOUND: string := "Category not found"

  /** `ORDER BY name ASC`, comparing names character by character; a name
      comes before every longer name it is a prefix of. */
  predicate NameNotAfter(a: string, b: string)
    decreases |a|
  {
    a == [] || (b != [] && (a[0] < b[0] || (a[0] == b[0] && NameNotAfter(a[1..], b[1..]))))
  }

  lemma {:induction false} NameOrderIsTotal(a: string, b: string)
    ensures NameNotAfter(a, b) || NameNotAfter(b, a)
    decreases |a|
  {
    if a != [] && b != [] && a[0] == b[0] {
      NameOrderIsTotal(a[1..], b[1..]);
    }
  }

  lemma {:induction false} NameOrderIsTransitive(a: string, b: string, c: string)
    requires NameNotAfter(a, b) && NameNotAfter(b, c)
    ensures NameNotAfter(a, c)
    decreases |a|
  {
    if a != [] && a[0] == b[0] && b[0] == c[0] {
      NameOrderIsTransitive(a[1..], b[1..], c[1..]);
    }
  }

  predicate ByName(s: seq<Category>) {
    forall i, j :: 0 <= i < j < |s| ==> NameNotAfter(s[i].name, s[j].name)
  }

  /** Places `c` before the first category whose name does not precede it. */
  function InsertByName(c: Category, s: seq<Category>): (r: seq<Category>)
    ensures |r| == |s| + 1
    ensures multiset(r) == multiset(s) + multiset{c}
    ensures forall i :: 0 <= i < |r| ==> r[i] == c || r[i] in s
  {
    if s == [] || NameNotAfter(c.name, s[0].name) then [c] + s
    else
      assert s == [s[0]] + s[1..];
      [s[0]] + InsertByName(c, s[1..])
  }

  lemma {:induction false} InsertKeepsNameOrder(c: Category, s: seq<Category>)
    requires ByName(s)
    ensures ByName(InsertByName(c, s))
  {
    if s != [] && !NameNotAfter(c.name, s[0].name) {
      InsertKeepsNameOrder(c, s[1..]);
      NameOrderIsTotal(c.name, s[0].name);
      var r := InsertByName(c, s);
      assert r == [s[0]] + InsertByName(c, s[1..]);
      forall j | 0 < j < |r| ensures NameNotAfter(r[0].name, r[j].name) {
        if r[j] != c {
          var m :| 0 <= m < |s| - 1 && s[1..][m] == r[j];
          assert s[m + 1] == r[j];
        }
      }
    } else if s != [] {
      forall j | 0 < j < |s| ensures NameNotAfter(c.name, s[j].name) {
        NameOrderIsTransitive(c.name, s[0].name, s[j].name);
      }
    }
  }

  /** The rows of `categories` ordered by name (`select("*").order("name")`);
      equal names come in an order the store leaves unspecified. */
  ghost function SortedByName(categories: map<CategoryId, Category>): (r: seq<Category>)
    ensures |r| == |categories|
    decreases |categories|
  {
    if categories == map[] then []
    else
      var k := Query.Pick(categories);
      assert (categories - {k}).Keys == categories.Keys - {k};
      InsertByName(categories[k], SortedByName(categories - {k}))
  }

  lemma {:induction false} SortedByNameIsOrdered(categories: map<CategoryId, Category>)
    ensures ByName(SortedByName(categories))
    decreases |categories|
  {
    if categories != map[] {
      var k := Query.Pick(categories);
      assert (categories - {k}).Keys == categories.Keys - {k};
      SortedByNameIsOrdered(categories - {k});
      InsertKeepsNameOrder(categories[k], SortedByName(categories - {k}));
    }
  }

  /** Every stored category is listed. */
  lemma {:induction false} SortedByNameHoldsAll(categories: map<CategoryId, Category>)
    ensures forall k :: k in categories ==> categories[k] in multiset(SortedByName(categories))
    decreases |categories|
  {
    if categories != map[] {
      var k := Query.Pick(categories);
      var rest := categories - {k};
      assert rest.Keys == categories.Keys - {k};
      SortedByNameHoldsAll(rest);
      assert forall k' :: k' in rest ==> rest[k'] == categories[k'];
    }
  }

  /** Only stored categories are listed. */
  lemma {:induction false} SortedByNameIsSound(categories: map<CategoryId, Category>)
    requires CategoryIdsMatch(categories)
    ensures forall i :: 0 <= i < |SortedByName(categories)| ==> CategoryStored(categories, SortedByName(categories)[i])
    decreases |categories|
  {
    if categories != map[] {
      var k := Query.Pick(categories);
      var rest := categories - {k};
      assert rest.Keys == categories.Keys - {k};
      SortedByNameIsSound(rest);
      assert forall k' :: k' in rest ==> rest[k'] == categories[k'];
    }
  }

  /** `getAllCategories`: every category, ordered by name. */
  ghost function AllCategories(categories: map<CategoryId, Category>): (r: Result<seq<Category>>)
    requires CategoryIdsMatch(categories)
    ensures r.Ok? && r.code == OK
    ensures ByName(r.value) && |r.value| == |categories|
    ensures forall k :: k in categories ==> categories[k] in multiset(r.value)
    ensures forall i :: 0 <= i < |r.value| ==> CategoryStored(categories, r.value[i])
  {
    SortedByNameIsOrdered(categories);
    SortedByNameHoldsAll(categories);
    SortedByNameIsSound(categories);
    Ok(OK, SortedByName(categories))
  }

  /** `getCategoryById`: the row, or 404 whatever the store's error was. */
  function GetCategory(categories: map<CategoryId, Category>, id: CategoryId): (r: Result<Category>)
    ensures r.Ok? <==> id in categories
    ensures r.Ok? ==> r.code == OK && r.value == categories[id]
    ensures r.Err? ==> r.error == NotFound(CATEGORY_NOT_FOUND)
  {
    if id in categories then Ok(OK, categories[id]) else Err(NotFound(CATEGORY_NOT_FOUND))
  }

  /** A page of a category's articles, with the category row. */
  datatype CategoryListing = CategoryListing(data: seq<Article>, category: Category, meta: Meta)

  /** `getArticlesByCategory`: 404 with the store's "no row" message when
      the category does not exist, and 404 with the store's range message
      when the page starts past the category's last published article;
      otherwise a page of its published articles, newest first, with their
      exact count. */
  ghost function ArticlesInCategory(categories: map<CategoryId, Category>, articles: map<ArticleId, Article>,
                                    id: CategoryId, p: Paging): (r: Result<CategoryListing>)
    requires IdsMatch(articles)
    ensures id !in categories ==> r == Err(NotFound(NO_ROW))
    ensures id in categories && !RangeSatisfiable(|SelectedKeys(articles, InCategory(id))|, p) ==>
              r == Err(NotFound(RANGE_NOT_SATISFIABLE))
    ensures r.Ok? <==> id in categories && RangeSatisfiable(|SelectedKeys(articles, InCategory(id))|, p)
    ensures r.Err? ==> r.error.Code() == 404
    ensures r.Ok? ==> r.code == OK && r.value.category == categories[id]
    ensures r.Ok? ==> r.value.data == Slice(NewestPublished(articles, InCategory(id)), p)
    ensures r.Ok? ==> r.value.meta == MetaFor(|SelectedKeys(articles, InCategory(id))|, p)
    ensures r.Ok? ==> forall i :: 0 <= i < |r.value.data| ==>
              && IsPublished(r.value.data[i]) && r.value.data[i].categoryId == Some(id)
              && Stored(articles, r.value.data[i])
    ensures r.Ok? ==> NewestFirst(r.value.data) && |r.value.data| <= p.limit
    ensures r.Ok? ==> (r.value.data != [] <==> p.page <= r.value.meta.totalPages)
  {
    if id !in categories then Err(NotFound(NO_ROW))
    else
      var rows := NewestPublished(articles, InCategory(id));
      NewestPublishedIsOrdered(articles, InCategory(id));
      NewestPublishedIsSound(articles, InCategory(id));
      if !RangeSatisfiable(|rows|, p) then Err(NotFound(RANGE_NOT_SATISFIABLE))
      else
        var page := PageOf(rows, |rows|, p);
        Ok(OK, CategoryListing(page.data, categories[id], page.meta))
  }
}
