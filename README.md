# Publishing rules of the blog backend, in Dafny

This project models the Express backend of a small blogging platform. It
covers the rules the article and category controllers, the authentication
middlewares and the article router enforce. The hosted Postgres store
behind them becomes an in-memory store:

- maps from id to article, category and profile;
- a set of `(article_id, tag_id)` pairs for the `article_tags` join table;
- counters for the ids the store hands out.

The modules follow the backend's structure:

- `Wrappers`, `Http`: optional values, and the status-code/error envelope of every response.
- `Schema`: the rows of the three tables, the article status, and the ownership predicate `CanModify` (author or admin).
- `Pagination`: `page`/`limit` with their defaults, `from`/`to`, `.range(from, to)` and `totalPages = ceil(total / limit)`.
- `Query`: choosing a row of a table, and `.limit(n)`.
- `Listings`: the selections the read handlers make (published only, plus a filter, a category, an author, or the related-article condition), the `published_at` descending order (NULL first, as PostgreSQL sorts a descending column), and the selected rows of a table in that order, with their exact count.
- `ArticleQueries`, `CategoryQueries`: the read handlers, as functions of the tables.
- `Store`: the write handlers, as methods of the class `Db`. Each method first decides the outcome from the request and the current rows. A refused request leaves every table unchanged. An accepted one changes exactly the rows its contract names.
- `Auth`: `authenticate` and `authorize(roles)`. Token verification is a parameter: a partial function from a token to its claims.
- `ArticleRoutes`: the middleware chain of each article route, and the handler methods that run it before the controller.

The current time is a `now` parameter.

Three consequences of the code as written are proved about the model:

- On `GET /author/:id`, a request with an `Authorization` header is
  authenticated like a protected route. A bad token ends in `authenticate`'s
  own 401. The public fallback that the surrounding `try`/`catch` suggests
  never happens, because the asynchronous middleware does not throw.
- Behind the PUT and DELETE guards, the controllers' own 403 answers can
  never be reached. The same holds for their "no row" answers.
- A request that the role gate or a guard stops changes no row.

## Model

| member | source | states |
|---|---|---|
| Pagination.FromQuery | be/src/controllers/articleController.js:6 | an absent `page` is 1 and an absent `limit` is 10; given values are kept |
| Pagination.Paging.From | be/src/controllers/articleController.js:52 | `from = (page-1)*limit`: 0 exactly on the first page |
| Pagination.Paging.To | be/src/controllers/articleController.js:53 | `to = from + limit - 1`: the range holds `limit` positions and the next page starts right after it |
| Pagination.SatisfiablePages | be/src/controllers/articleController.js:344-363 | the first page and every page up to `totalPages` are served; a page two or more past `totalPages` is refused |
| Pagination.Slice | be/src/controllers/articleController.js:52-54 | the page holds at most `limit` rows; row `k` of the page is row `(page-1)*limit + k` of the result, at a position no later than `to`; its exact length is stated |
| Pagination.TotalPages | be/src/controllers/articleController.js:67 | `ceil(total/limit)`: the least `n` with `n*limit >= total`; it is 0 exactly when `total` is 0 |
| Pagination.MetaFor | be/src/controllers/articleController.js:63-68 | `meta` carries `total`, `page`, `limit` and the least page count covering `total` |
| Pagination.PageNonEmptyIff | be/src/controllers/articleController.js:52-67 | a page holds rows exactly when `page <= totalPages` |
| Pagination.FirstPagesArePrefix | be/src/controllers/articleController.js:52-54 | pages 1..n, cut from one ordered listing, read in turn are its first `min(n*limit, total)` rows |
| Pagination.PagesCoverRows | be/src/controllers/articleController.js:52-67 | pages 1..totalPages, cut from one ordered listing, together return every row once, in order |
| Query.Take | be/src/controllers/articleController.js:106 | `.limit(n)` keeps a prefix of at most `n` rows, all of them when there are fewer |
| Schema.ParseStatus | be/src/controllers/articleController.js:221 | exactly `draft`, `published` and `archived` name a status, and parsing inverts naming |
| Schema.CanModify | be/src/controllers/articleController.js:213 | an admin may change any article; anyone else exactly the articles whose `author_id` is theirs |
| Schema.TagsOf | be/src/controllers/articleController.js:88-90 | an article's tags are exactly the tag ids paired with it in `article_tags` |
| Listings.ContainsTextIsSubstring | be/src/controllers/articleController.js:49 | the `%search%` test holds exactly when the title holds the search text at some position |
| Listings.Matches | be/src/controllers/articleController.js:46-49 | an article is kept exactly when it passes every given filter: its category, one of its tags, its author (unless the author is empty), and the search text occurring in its title; no filter keeps every article |
| Listings.EmptyTextFiltersAreIgnored | be/src/controllers/articleController.js:48-49 | an empty `author` parameter, an empty `search` parameter, or both, filter nothing, as if absent |
| Listings.NoOlder | be/src/controllers/articleController.js:43 | NULL `published_at` sorts before every time; of two times the later comes first |
| Listings.NewerIsTotalPreorder | be/src/controllers/articleController.js:43 | any two articles are ordered one way or the other, and the order is transitive |
| Listings.SelectedKeys | be/src/controllers/articleController.js:348-361 | the rows an exact count counts: a key is in it exactly when its row is published and passes the selection |
| Listings.InsertNewest | be/src/controllers/articleController.js:43 | inserting a row adds exactly that row |
| Listings.InsertKeepsOrder | be/src/controllers/articleController.js:43 | inserting into a newest-first sequence keeps it newest first |
| Listings.NewestPublished | be/src/controllers/articleController.js:42-43 | the listing has as many rows as the exact count of the same query |
| Listings.NewestPublishedIsOrdered | be/src/controllers/articleController.js:42-43 | the listing is ordered by `published_at` descending |
| Listings.NewestPublishedIsSound | be/src/controllers/articleController.js:42-49 | every listed row is published, passes the selection, and is the row stored under its id |
| Listings.NewestPublishedIsComplete | be/src/controllers/articleController.js:42-49 | every published row that passes the selection is listed |
| Listings.InsertKeepsIdsDistinct | be/src/controllers/articleController.js:43 | inserting a row whose id is not listed yet keeps every id listed once |
| Listings.NewestPublishedIdsDistinct | be/src/controllers/articleController.js:42-49 | the listing holds each selected row once |
| Listings.SliceKeepsOrder | be/src/controllers/articleController.js:43-54 | a page of a newest-first listing is newest first |
| Listings.TopRows | be/src/controllers/articleController.js:105-106 | of a newest-first listing, `.limit(n)` leaves a row out only when it keeps `n` rows, all of them no older than the row left out |
| Listings.PageOf | be/src/controllers/articleController.js:52-68 | the rows `from ..= to` of the listing: at most `limit` rows, newest first, row `i` being row `from+i`; non-empty exactly when `page <= totalPages`; `meta` for the given total |
| ArticleQueries.ListArticles | be/src/controllers/articleController.js:4-69 | the data is rows `from ..= to` of the published rows passing every filter, newest first (so only such rows, at most `limit`); `meta` is built from the count of every published article, filtered or not |
| ArticleQueries.ListArticlesCounted | be/src/controllers/articleController.js:18-24 | the same rows as above, but `meta` is built from the count of the filtered rows, so a page is non-empty exactly when `page <= totalPages` |
| ArticleQueries.ListTotalIgnoresFilters | be/src/controllers/articleController.js:9-24 | with two published articles and a search matching neither, the listing as written reports two rows and two pages yet returns none |
| ArticleQueries.Related | be/src/controllers/articleController.js:99-106 | at most 3 related articles, each shown once: published, same category, not the article itself, newest first; any related article left out is no newer than all 3 shown |
| ArticleQueries.GetArticle | be/src/controllers/articleController.js:79-121 | 404 "Article not found" when there is no row, and also when the row has no category (the related query then fails); otherwise the stored row whatever its status, its exact tag set, and exactly the related articles `Related` gives |
| ArticleQueries.GetArticleAnyCategory | be/src/controllers/articleController.js:79-121 | every stored article is answered with its row and tags; one without a category with no related articles, one with a category as above |
| ArticleQueries.UncategorisedArticleIsNotFound | be/src/controllers/articleController.js:100-119 | a stored article without a category gets 404 as written, and is shown with no related articles as intended |
| ArticleQueries.ArticlesByAuthor | be/src/controllers/articleController.js:340-380 | 500 with the store's range message exactly when `from` is past the author's count; otherwise rows `from ..= to` of the author's published articles, newest first (only theirs, at most `limit`), with `meta` from their exact count; non-empty exactly when `page <= totalPages` |
| ArticleQueries.ArticlesByAuthorAsWritten | be/src/controllers/articleController.js:342 | with no `author_id` route parameter, the handler filters on the text "undefined" |
| ArticleQueries.AuthorRouteListsNobody | be/src/controllers/articleController.js:342-363 | through `/author/:id` the handler as written lists none of the named author's articles; reading "undefined" as a text id that no article has, it answers page 1 with no rows and every later page with 500; the intended filter lists them on page 1 |
| CategoryQueries.NameOrderIsTotal | be/src/controllers/categoriesController.js:9 | any two names are ordered one way or the other |
| CategoryQueries.NameOrderIsTransitive | be/src/controllers/categoriesController.js:9 | the name order is transitive |
| CategoryQueries.InsertByName | be/src/controllers/categoriesController.js:9 | inserting a category adds exactly that category |
| CategoryQueries.InsertKeepsNameOrder | be/src/controllers/categoriesController.js:9 | inserting into a name-ordered sequence keeps it ordered |
| CategoryQueries.SortedByName | be/src/controllers/categoriesController.js:6-9 | one row per category |
| CategoryQueries.SortedByNameIsOrdered | be/src/controllers/categoriesController.js:6-9 | the categories come in ascending name order |
| CategoryQueries.SortedByNameHoldsAll | be/src/controllers/categoriesController.js:6-9 | every stored category is listed |
| CategoryQueries.SortedByNameIsSound | be/src/controllers/categoriesController.js:6-9 | every listed category is the row stored under its id |
| CategoryQueries.AllCategories | be/src/controllers/categoriesController.js:4-23 | 200 with every category exactly once, ascending by name |
| CategoryQueries.GetCategory | be/src/controllers/categoriesController.js:26-48 | the row when it exists; otherwise 404 "Category not found" |
| CategoryQueries.ArticlesInCategory | be/src/controllers/categoriesController.js:155-213 | 404 with the store's "no row" message when the category does not exist, 404 with its range message when `from` is past the category's count; otherwise the category row, rows `from ..= to` of its published articles newest first, and `meta` from their exact count; non-empty exactly when `page <= totalPages` |
| Auth.Split | be/src/middlewares/authMidlleware.js:7 | `split(" ")` yields at least one piece; no piece holds the separator; joining the pieces gives back the text |
| Auth.SplitWithoutSeparator | be/src/middlewares/authMidlleware.js:7 | text without the separator splits into itself alone |
| Auth.SplitAfterWord | be/src/middlewares/authMidlleware.js:7 | a word, the separator, then the rest splits into the word followed by the pieces of the rest |
| Auth.ExtractToken | be/src/middlewares/authMidlleware.js:7-9 | no header, no token; a token, when there is one, is non-empty and holds no space |
| Auth.BearerTokenExtracted | be/src/middlewares/authMidlleware.js:7 | `<scheme> <token>`, optionally followed by a space and anything, yields the token, whatever the scheme word is |
| Auth.EmptySecondWordNoToken | be/src/middlewares/authMidlleware.js:7-13 | a header whose first space is followed by nothing or another space (`"Bearer "`) yields no token |
| Auth.NoSpaceNoToken | be/src/middlewares/authMidlleware.js:7-13 | a header without a space yields no token |
| Auth.Authenticate | be/src/middlewares/authMidlleware.js:4-37 | 401 "No token provided" without a token, 401 "Not authorized" when the token does not verify, 401 "Invalid token" when no profile has its id; it succeeds exactly when the token verifies and names a stored profile, and the requester is then that stored profile |
| Auth.ClaimedRoleIsIgnored | be/src/middlewares/authMidlleware.js:19-29 | the outcome depends on the token's id only, not on its claimed role or email |
| Auth.Authorize | be/src/middlewares/authMidlleware.js:39-48 | passes exactly when the requester's role is listed; otherwise 403 "Forbidden" |
| Auth.DefaultRolesRejectAll | be/src/middlewares/authMidlleware.js:39-41 | `authorize()` with its default empty list refuses everyone |
| Store.IdOrNull | be/src/controllers/articleController.js:146 | a falsy `category_id` (absent or 0) is stored as NULL; any other id as given |
| Store.TextOrNull | be/src/controllers/articleController.js:148 | a falsy `cover_image_url` (absent or empty) is stored as NULL; any other text as given |
| Store.CreateStatus | be/src/controllers/articleController.js:131-137 | creation accepts exactly `draft` and `published`; never `archived` |
| Store.NewRow | be/src/controllers/articleController.js:140-151 | the new row is owned by the requester and carries the request's title and content; `published_at` is set, to `now`, exactly when the status is `published`; the category and cover are the request's, a falsy one NULL; `updated_at` is unset |
| Store.TagRows | be/src/controllers/articleController.js:159-163 | one `article_tags` pair per listed tag id, all for this article |
| Store.ReplaceTags | be/src/controllers/articleController.js:255-268 | a supplied tag list makes the article's pairs exactly the listed tags; no list leaves the pairs alone; other articles' pairs never change |
| Store.ReplaceTagsIsExact | be/src/controllers/articleController.js:255-268 | after a supplied list, the article's tag set is exactly the listed ids (an empty list clears it); no other article's tags change |
| Store.UpdateVerdict | be/src/controllers/articleController.js:205-227 | the update proceeds exactly when the row exists, the requester is author or admin, and the status is absent or one of the three; a missing row gives the store's "no row" 400; a requester who is neither gets 403; a bad status from an allowed requester gets 400, "Invalid status" unless it is empty |
| Store.Patch | be/src/controllers/articleController.js:229-250 | id and author kept; title, content and cover are the supplied ones or the old ones; an omitted `category_id` becomes NULL; the status changes only when supplied; `published` stamps `published_at` with `now`, other statuses leave it; `updated_at` is `now` |
| Store.DeleteVerdict | be/src/controllers/articleController.js:304-317 | the delete proceeds exactly when the row exists and the requester is author or admin; otherwise 403 or the store's "no row" 400 |
| Store.NameMissing | be/src/controllers/categoriesController.js:55 | a name is accepted exactly when it is given and non-empty |
| Store.ArticlesUsing | be/src/controllers/categoriesController.js:122-125 | the ids of exactly the articles, whatever their status, whose `category_id` is the category |
| Store.CategoryInUse | be/src/controllers/categoriesController.js:130 | `articles.length > 0`: some article references the category |
| Store.Renamed | be/src/controllers/categoriesController.js:95-99 | only `name`, `description` (when given) and `updated_at` change; the id is kept |
| Store.Db.InsertTagRows | be/src/controllers/articleController.js:159-167 | the join table gains exactly the pairs for the listed tags |
| Store.Db.CreateArticle | be/src/controllers/articleController.js:124-195 | an invalid status gives 400 and writes nothing; otherwise 201 with the new row under a fresh id, its tag pairs added, the article id counter advanced, nothing else changed |
| Store.Db.UpdateArticle | be/src/controllers/articleController.js:198-296 | a refused update writes nothing; an accepted one rewrites only that row and, when tags are supplied, replaces its tag pairs |
| Store.Db.DeleteArticle | be/src/controllers/articleController.js:299-337 | a refused delete writes nothing; an accepted one removes only that row |
| Store.Db.CreateCategory | be/src/controllers/categoriesController.js:51-80 | a missing or empty name gives 400 and writes nothing; otherwise 201 and exactly `{name, description}` is inserted under a fresh id |
| Store.Db.UpdateCategory | be/src/controllers/categoriesController.js:83-114 | a missing or empty name, or a missing row, gives 400 and writes nothing; otherwise only that category is renamed |
| Store.Db.DeleteCategory | be/src/controllers/categoriesController.js:117-152 | a category any article references, whatever its status, is kept and 400 is returned; otherwise only that category is removed |
| ArticleRoutes.OwnershipGuard | be/src/routes/articleRoutes.js:52-76 | 404 with the store's message when the article does not exist; 403 when the requester is neither author nor admin; passes exactly for the author or an admin |
| ArticleRoutes.NoHeader | be/src/routes/articleRoutes.js:23-25 | an absent or empty header carries no token |
| ArticleRoutes.Pipeline | be/src/routes/articleRoutes.js:16-107 | public routes pass unauthenticated; `/author/:id` without a header passes unauthenticated, with an authenticating one as that requester; protected routes pass only for an authenticated requester; POST passes exactly for roles `user` and `admin`, another role gets 403 "Forbidden"; PUT/DELETE pass exactly for the author or an admin of an existing article, otherwise 404 or 403 |
| ArticleRoutes.AuthorRouteRejectsBadToken | be/src/routes/articleRoutes.js:31-40 | on `/author/:id`, a header that does not authenticate ends in 401 and never reaches the handler |
| ArticleRoutes.GuardedUpdateReachesStatusCheck | be/src/routes/articleRoutes.js:50-78 | behind the PUT guard, the controller can refuse only for the status (400), never with its own 403 |
| ArticleRoutes.GuardedDeleteAlwaysProceeds | be/src/routes/articleRoutes.js:79-107 | behind the DELETE guard, the controller's own checks always pass |
| ArticleRoutes.PostArticle | be/src/routes/articleRoutes.js:46-49 | a request stopped by `authenticate` or `authorize` writes nothing; behind the gate an invalid status gives 400 and writes nothing, and a valid one inserts exactly the new row of the authenticated requester and its tag pairs, advancing only the article id counter |
| ArticleRoutes.PutArticle | be/src/routes/articleRoutes.js:50-78 | a request stopped by the guard changes no row; one it admits is refused only with 400 for its status, or rewrites exactly that row and its tags, categories, profiles and id counters unchanged |
| ArticleRoutes.DeleteArticleRoute | be/src/routes/articleRoutes.js:79-107 | a request stopped by the guard changes no row; one it admits removes exactly that article, every other table and the id counters unchanged |

## Left out

- The hosted store's client, JSON responses, `res.status(...).json(...)` plumbing, and the embedded resources in each `select` (categories, profiles, tags joined into a row). Responses carry the row and the status code only.
- Upstream failures of the store (5xx) other than its refusal of a range past the exact count, and the non-atomic multi-step writes: an article insert followed by a tag insert, and a tag delete followed by a tag insert whose results are ignored. Every modelled write happens completely.
- Concurrency between requests.
- Pagination.FromQuery: `page` and `limit` are positive integers. String coercion of query parameters (`from + limit - 1` concatenating), `parseInt`, and a page or limit of 0 or below are not modelled.
- Listings.Matches: the filters of the public listing are modelled as plain conditions on the article row. The source filters embedded resources (`categories.id`, `tags.id`, `profiles.id`), and what the store's query library does with those is not modelled. An empty `author` or `search` is no filter, as the source's truthiness tests make it. The search is a case-sensitive, literal substring test, where the source uses case-insensitive `ilike`; `%` and `_` in the search text act as wildcards inside the `%${search}%` pattern, and that is not modelled either.
- Listings.NewestPublished: rows with equal `published_at` come in an unspecified order, and so does the order of rows the query library returns. Only the descending order is stated. Every request is modelled as slicing this one listing, so ties are broken the same way in every request; PostgreSQL does not promise that for queries with different `OFFSET` and `LIMIT`.
- Pagination.PagesCoverRows: "every row once, in order" holds of the program only when the selected rows have distinct `published_at` values, or when the store breaks ties the same way in every request. Otherwise two pages may repeat a tied row and never show the other.
- Pagination.FirstPagesArePrefix: the same proviso; with tied `published_at` values the pages need not make up a prefix of any one order.
- CategoryQueries.SortedByName: names are compared by character code. The database's collation is not modelled.
- ArticleQueries.GetArticle: for an article without a category, the client sends `category_id=eq.null`, and the model takes the store to reject the text "null" as an id, so the handler answers 404. The store's own error is not modelled, since the handler replaces its message.
- ArticleQueries.ArticlesByAuthorAsWritten: the "undefined" filter value is modelled as a text id that matches no author. Profile ids are the auth provider's UUIDs, so the `author_id` column more likely rejects that text; the store then errors and the handler answers 500 on every page, page 1 included. Either way no article is listed.
- ArticleQueries.AuthorRouteListsNobody: its clause that page 1 answers with no rows holds only under the text reading above; under the UUID reading page 1 answers 500 as well.
- Store.UpdateVerdict: an empty status passes the handler's check because it is falsy. The store then rejects it, and the model answers 400 with a stand-in for the store's message.
- Store.Db.DeleteArticle: the article's `article_tags` pairs are left in place. The database's cascade rules are not modelled.
- Store.Db.CreateCategory, Store.Db.UpdateCategory, Store.Db.DeleteCategory: the admin-only gate of the category routes is a precondition on the requester. The category router's wiring is not modelled. Category writes keep no invariant between `category_id` references and the categories table, because the handlers check none on article writes.
- Database constraints (NOT NULL columns, uniqueness, foreign keys, duplicate tag pairs) and explicit JSON `null` in request bodies. An absent field is `None`; a present one is its value.
- Token expiry and the signing secret: the verifier is an arbitrary partial function.
- be/src/controllers/authController.js, be/src/controllers/userController.js, their routes, the Express application wiring and the React frontend are not part of this model.

## Findings

| source | as written | input that shows it | evidently intended | confidence | as-written member | corrected member |
|---|---|---|---|---|---|---|
| be/src/controllers/articleController.js:9-24 | the count query is awaited before the filters are added to it, so `meta.total` counts every published article | two published articles titled "a" and "b", `search=zzz`, `limit=1`: no rows, yet `total` 2 and `totalPages` 2 | the count uses the same filters as the data, as the comment at line 18 says | high (not executed) | ArticleQueries.ListArticles | ArticleQueries.ListArticlesCounted |
| be/src/controllers/articleController.js:100-119 | the related query filters on `article.category_id` even when it is NULL; the store rejects `eq.null` on an id column and the catch answers 404 | `GET /<id>` of a stored article that has no category: 404 "Article not found" | the article is shown, with no related articles | medium (not executed; rests on the store rejecting the text "null" as an id) | ArticleQueries.UncategorisedArticleIsNotFound | ArticleQueries.GetArticleAnyCategory |
| be/src/controllers/articleController.js:342 | the handler reads `req.params.author_id`, but the route at be/src/routes/articleRoutes.js:20 names the parameter `id` | `GET /author/<any author with published articles>`: the filter value is "undefined" and no article is listed | filter on the route's `id` parameter | high (not executed) | ArticleQueries.AuthorRouteListsNobody | ArticleQueries.ArticlesByAuthor |
