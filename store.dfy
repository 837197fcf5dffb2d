/** The data store the controllers write to, and the write handlers of the
    article and category controllers as methods on it. Each handler first
    decides an outcome from the request and the current rows; a rejected
    request leaves every table as it was. */
module Store {
  import opened Wrappers
  import opened Http
  import opened Schema

  /** The body of a request that creates an article. */
  datatype NewArticle = NewArticle(
    title: string,
    content: string,
    categoryId: Option<CategoryId>,
    tags: Option<seq<TagId>>,
    coverImageUrl: Option<string>,
    status: Option<string>)

  /** The body of a request that updates an article; `None` is a field the
      request leaves out. */
  datatype ArticleChanges = ArticleChanges(
    title: Option<string>,
    content: Option<string>,
    categoryId: Option<CategoryId>,
    tags: Option<seq<TagId>>,
    coverImageUrl: Option<string>,
    status: Option<string>)

  const INVALID_STATUS: string := "Invalid status"
  const NOT_AUTHORIZED_UPDATE: string := "Not authorized to update this article"
  const NOT_AUTHORIZED_DELETE: string := "Not authorized to delete this article"
  /** Stands for the store's message when a row's status is none of the three. */
  const STATUS_REJECTED: string := "invalid input value for the status column"
  const ARTICLE_DELETED: string := "Article deleted successfully"
  const NAME_REQUIRED: string := "Category name is required"
  const CATEGORY_IN_USE: string := "Cannot delete category that is used in articles"
  const CATEGORY_DELETED: string := "Category deleted successfully"

  /** `id || null`: a missing or zero id is stored as NULL. */
  function IdOrNull(x: Option<CategoryId>): (r: Option<CategoryId>)
    ensures r.Some? <==> x.Some? && x.value != 0
    ensures r.Some? ==> r == x
  {
    if x.Some? && x.value != 0 then x else None
  }

  /** `text || null`: a missing or empty text is stored as NULL. */
  function TextOrNull(x: Option<string>): (r: Option<string>)
    ensures r.Some? <==> x.Some? && x.value != ""
    ensures r.Some? ==> r == x
  {
    if x.Some? && x.value != "" then x else None
  }

  /** The statuses an article may be created with: draft and published. */
  function CreateStatus(status: Option<string>): (r: Option<ArticleStatus>)
    ensures r.Some? <==> status == Some("draft") || status == Some("published")
    ensures r.Some? ==> r.value != Archived && StatusName(r.value) == status.value
  {
    match status
    case Some(s) =>
      if s == "draft" then Some(Draft)
      else if s == "published" then Some(Published)
      else None
    case None => None
  }

  /** The row inserted for a new article. */
  function NewRow(id: ArticleId, author: Profile, body: NewArticle,
                  status: ArticleStatus, now: Time): (a: Article)
    ensures a.id == id && a.authorId == author.id && a.status == status
    ensures a.title == body.title && a.content == body.content
    ensures a.categoryId == IdOrNull(body.categoryId) && a.coverImageUrl == TextOrNull(body.coverImageUrl)
    ensures a.updatedAt.None?
    ensures a.publishedAt.Some? <==> status == Published
    ensures a.publishedAt.Some? ==> a.publishedAt.value == now
    ensures a.categoryId.None? <==> body.categoryId.None? || body.categoryId.value == 0
    ensures a.coverImageUrl.None? <==> body.coverImageUrl.None? || body.coverImageUrl.value == ""
    ensures PublishedIsDated(a)
  {
    Article(id, body.title, body.content, IdOrNull(body.categoryId), author.id,
            TextOrNull(body.coverImageUrl), status,
            if status == Published then Some(now) else None, None)
  }

  /** One `article_tags` row per listed tag. */
  function TagRows(id: ArticleId, tags: seq<TagId>): (rows: set<(ArticleId, TagId)>)
    ensures forall p :: p in rows <==> p.0 == id && p.1 in tags
  {
    set t | t in tags :: (id, t)
  }

  /** The `article_tags` rows after an update: a supplied list replaces the
      article's rows (delete, then insert); an omitted one keeps them. */
  function ReplaceTags(pairs: set<(ArticleId, TagId)>, id: ArticleId,
                       tags: Option<seq<TagId>>): (r: set<(ArticleId, TagId)>)
    ensures forall p: (ArticleId, TagId) :: p.0 != id ==> (p in r <==> p in pairs)
    ensures tags.None? ==> r == pairs
    ensures tags.Some? ==> forall t :: (id, t) in r <==> t in tags.value
  {
    match tags
    case None => pairs
    case Some(ts) => (set p | p in pairs && p.0 != id) + TagRows(id, ts)
  }

  /** A supplied tag list becomes exactly the article's tag set (an empty
      list clears it); the tags of every other article stay as they were. */
  lemma ReplaceTagsIsExact(pairs: set<(ArticleId, TagId)>, id: ArticleId,
                           tags: Option<seq<TagId>>, other: ArticleId)
    requires other != id
    ensures tags.Some? ==> TagsOf(ReplaceTags(pairs, id, tags), id) == set t | t in tags.value
    ensures tags.None? ==> ReplaceTags(pairs, id, tags) == pairs
    ensures TagsOf(ReplaceTags(pairs, id, tags), other) == TagsOf(pairs, other)
  {
    var after := ReplaceTags(pairs, id, tags);
    if tags.Some? {
      forall t | t in tags.value ensures t in TagsOf(after, id) {
        assert (id, t) in after;
      }
    }
    forall t | t in TagsOf(pairs, other) ensures t in TagsOf(after, other) {
      assert (other, t) in pairs;
      assert (other, t) in after;
    }
  }

  /** A status an update accepts: none given, or one of the three. */
  predicate StatusAccepted(status: Option<string>) {
    status.None? || ParseStatus(status.value).Some?
  }

  /** The outcome `updateArticle` decides before writing: 400 when the
      article cannot be fetched, then 403 for a requester who is neither
      author nor admin, then 400 for a status outside draft, published and
      archived. An empty status slips past the check (it is falsy) and is
      rejected by the store instead. */
  function UpdateVerdict(articles: map<ArticleId, Article>, id: ArticleId, user: Profile,
                         status: Option<string>): (r: Option<HttpError>)
    ensures r.None? <==> id in articles && CanModify(user, articles[id]) && StatusAccepted(status)
    ensures id !in articles ==> r == Some(BadRequest(NO_ROW))
    ensures id in articles && !CanModify(user, articles[id]) ==>
              r == Some(Forbidden(NOT_AUTHORIZED_UPDATE))
    ensures id in articles && CanModify(user, articles[id]) && !StatusAccepted(status) ==>
              && r.Some? && r.value.Code() == 400
              && (status == Some("") ==> r == Some(BadRequest(STATUS_REJECTED)))
              && (status != Some("") ==> r == Some(BadRequest(INVALID_STATUS)))
    ensures r.Some? ==> r.value.Code() in {400, 403}
  {
    if id !in articles then Some(BadRequest(NO_ROW))
    else if !CanModify(user, articles[id]) then Some(Forbidden(NOT_AUTHORIZED_UPDATE))
    else if status.Some? && status.value != "" && ParseStatus(status.value).None? then
      Some(BadRequest(INVALID_STATUS))
    else if status == Some("") then Some(BadRequest(STATUS_REJECTED))
    else None
  }

  /** The article row after an accepted update. Omitted fields keep their
      value, except `category_id`, which becomes NULL; publishing stamps
      `published_at`, any other status leaves it alone. */
  function Patch(a: Article, changes: ArticleChanges, now: Time): (r: Article)
    requires StatusAccepted(changes.status)
    ensures r.id == a.id && r.authorId == a.authorId
    ensures r.title == changes.title.GetOr(a.title) && r.content == changes.content.GetOr(a.content)
    ensures r.coverImageUrl == if changes.coverImageUrl.Some? then changes.coverImageUrl else a.coverImageUrl
    ensures r.categoryId == IdOrNull(changes.categoryId)
    ensures changes.status.None? ==> r.status == a.status
    ensures changes.status.Some? ==> StatusName(r.status) == changes.status.value
    ensures changes.status == Some("published") ==> r.publishedAt == Some(now)
    ensures changes.status != Some("published") ==> r.publishedAt == a.publishedAt
    ensures r.updatedAt == Some(now)
    ensures PublishedIsDated(a) ==> PublishedIsDated(r)
  {
    var status := if changes.status.Some? then ParseStatus(changes.status.value).value else a.status;
    a.(title := changes.title.GetOr(a.title),
       content := changes.content.GetOr(a.content),
       categoryId := IdOrNull(changes.categoryId),
       coverImageUrl := if changes.coverImageUrl.Some? then changes.coverImageUrl else a.coverImageUrl,
       status := status,
       publishedAt := if changes.status == Some("published") then Some(now) else a.publishedAt,
       updatedAt := Some(now))
  }

  /** The outcome `deleteArticle` decides: 400 when the article cannot be
      fetched, 403 for a requester who is neither author nor admin. */
  function DeleteVerdict(articles: map<ArticleId, Article>, id: ArticleId, user: Profile): (r: Option<HttpError>)
    ensures r.None? <==> id in articles && CanModify(user, articles[id])
    ensures id !in articles ==> r == Some(BadRequest(NO_ROW))
    ensures id in articles && !CanModify(user, articles[id]) ==>
              r == Some(Forbidden(NOT_AUTHORIZED_DELETE))
  {
    if id !in articles then Some(BadRequest(NO_ROW))
    else if !CanModify(user, articles[id]) then Some(Forbidden(NOT_AUTHORIZED_DELETE))
    else None
  }

  /** `!name`: a category name that is missing or empty; any other name
      is accepted as given. */
  function NameMissing(name: Option<string>): (missing: bool)
    ensures !missing <==> name.Some? && |name.value| > 0
  {
    name.None? || name.value == ""
  }

  /** The ids of the articles, whatever their status, that reference the
      category (`select("id").eq("category_id", id)`). */
  function ArticlesUsing(articles: map<ArticleId, Article>, id: CategoryId): (ks: set<ArticleId>)
    ensures forall k :: k in ks <==> k in articles && articles[k].categoryId == Some(id)
  {
    set k | k in articles && articles[k].categoryId == Some(id)
  }

  /** `articles.length > 0`: the query for the category's articles returns
      at least one row, that is, some article belongs to the category. */
  function CategoryInUse(articles: map<ArticleId, Article>, id: CategoryId): (used: bool)
    ensures used <==> |ArticlesUsing(articles, id)| > 0
    ensures used <==> exists k :: k in articles && articles[k].categoryId == Some(id)
  {
    ArticlesUsing(articles, id) != {}
  }

  /** The category row after an accepted update: new name, the description
      if one is given, and the update time; id kept. */
  function Renamed(c: Category, name: string, description: Option<string>, now: Time): (r: Category)
    ensures r.id == c.id && r.name == name && r.updatedAt == Some(now)
    ensures r.description == if description.Some? then description else c.description
  {
    c.(name := name, description := if description.Some? then description else c.description,
       updatedAt := Some(now))
  }

  class Db {
    var articles: map<ArticleId, Article>
    var categories: map<CategoryId, Category>
    var profiles: map<ProfileId, Profile>
    /** The `article_tags` join table: (article_id, tag_id) pairs. */
    var articleTags: set<(ArticleId, TagId)>
    /** The next id the store hands out to an inserted article / category. */
    var nextArticleId: ArticleId
    var nextCategoryId: CategoryId

    ghost predicate Valid()
      reads this
    {
      && (forall id :: id in articles ==>
            id < nextArticleId && articles[id].id == id && PublishedIsDated(articles[id]))
      && (forall id :: id in categories ==> id < nextCategoryId && categories[id].id == id)
      && (forall id :: id in profiles ==> profiles[id].id == id)
    }

    constructor (profiles: map<ProfileId, Profile>)
      requires forall id :: id in profiles ==> profiles[id].id == id
      ensures Valid()
      ensures this.profiles == profiles
      ensures articles == map[] && categories == map[] && articleTags == {}
    {
      this.profiles := profiles;
      articles, categories, articleTags := map[], map[], {};
      nextArticleId, nextCategoryId := 1, 1;
    }

    /** `tags.map(tag_id => ({article_id, tag_id}))`, inserted. */
    method InsertTagRows(id: ArticleId, tags: seq<TagId>)
      modifies this`articleTags
      ensures articleTags == old(articleTags) + TagRows(id, tags)
    {
      var i := 0;
      while i < |tags|
        invariant 0 <= i <= |tags|
        invariant articleTags == old(articleTags) + TagRows(id, tags[..i])
      {
        assert tags[..i + 1] == tags[..i] + [tags[i]];
        articleTags := articleTags + {(id, tags[i])};
        i := i + 1;
      }
      assert tags[..i] == tags;
    }

    /** `createArticle`: a status other than draft or published is refused
        with 400 and nothing is written; otherwise the new row, owned by the
        requester, is inserted together with one tag row per listed tag. */
    method CreateArticle(user: Profile, body: NewArticle, now: Time) returns (r: Result<Article>)
      requires Valid()
      modifies this
      ensures Valid()
      ensures CreateStatus(body.status).None? ==>
                r == Err(BadRequest(INVALID_STATUS)) && unchanged(this)
      ensures CreateStatus(body.status).Some? ==>
                && old(nextArticleId) !in old(articles)
                && r == Ok(CREATED, NewRow(old(nextArticleId), user, body, CreateStatus(body.status).value, now))
                && articles == old(articles)[old(nextArticleId) := r.value]
                && articleTags == old(articleTags) +
                     (if body.tags.Some? then TagRows(old(nextArticleId), body.tags.value) else {})
                && categories == old(categories) && profiles == old(profiles)
                && nextArticleId == old(nextArticleId) + 1 && nextCategoryId == old(nextCategoryId)
    {
      var status := CreateStatus(body.status);
      if status.None? {
        return Err(BadRequest(INVALID_STATUS));
      }
      var id := nextArticleId;
      var row := NewRow(id, user, body, status.value, now);
      articles := articles[id := row];
      nextArticleId := nextArticleId + 1;
      if body.tags.Some? && |body.tags.value| > 0 {
        InsertTagRows(id, body.tags.value);
      }
      r := Ok(CREATED, row);
    }

    /** `updateArticle`: the verdict first; an accepted update rewrites the
        one row and, when a tag list is supplied, replaces its tag rows. */
    method UpdateArticle(user: Profile, id: ArticleId, changes: ArticleChanges, now: Time)
      returns (r: Result<Article>)
      requires Valid()
      modifies this
      ensures Valid()
      ensures UpdateVerdict(old(articles), id, user, changes.status).Some? ==>
                r == Err(UpdateVerdict(old(articles), id, user, changes.status).value) && unchanged(this)
      ensures UpdateVerdict(old(articles), id, user, changes.status).None? ==>
                && r == Ok(OK, Patch(old(articles)[id], changes, now))
                && articles == old(articles)[id := r.value]
                && articleTags == ReplaceTags(old(articleTags), id, changes.tags)
                && categories == old(categories) && profiles == old(profiles)
                && nextArticleId == old(nextArticleId) && nextCategoryId == old(nextCategoryId)
    {
      var verdict := UpdateVerdict(articles, id, user, changes.status);
      if verdict.Some? {
        return Err(verdict.value);
      }
      var row := Patch(articles[id], changes, now);
      articles := articles[id := row];
      if changes.tags.Some? {
        articleTags := set p | p in articleTags && p.0 != id;
        if |changes.tags.value| > 0 {
          InsertTagRows(id, changes.tags.value);
        }
      }
      r := Ok(OK, row);
    }

    /** `deleteArticle`: the verdict first; an accepted delete removes the
        one row. */
    method DeleteArticle(user: Profile, id: ArticleId) returns (r: Result<string>)
      requires Valid()
      modifies this
      ensures Valid()
      ensures DeleteVerdict(old(articles), id, user).Some? ==>
                r == Err(DeleteVerdict(old(articles), id, user).value) && unchanged(this)
      ensures DeleteVerdict(old(articles), id, user).None? ==>
                && r == Ok(OK, ARTICLE_DELETED)
                && articles == old(articles) - {id}
                && articleTags == old(articleTags)
                && categories == old(categories) && profiles == old(profiles)
                && nextArticleId == old(nextArticleId) && nextCategoryId == old(nextCategoryId)
    {
      var verdict := DeleteVerdict(articles, id, user);
      if verdict.Some? {
        return Err(verdict.value);
      }
      articles := articles - {id};
      r := Ok(OK, ARTICLE_DELETED);
    }

    /** `createCategory` (admins only): a missing or empty name is refused
        with 400; otherwise exactly `{name, description}` is inserted. */
    method CreateCategory(actor: Profile, name: Option<string>, description: Option<string>)
      returns (r: Result<Category>)
      requires Valid()
      requires actor.role == ROLE_ADMIN
      modifies this
      ensures Valid()
      ensures NameMissing(name) ==> r == Err(BadRequest(NAME_REQUIRED)) && unchanged(this)
      ensures !NameMissing(name) ==>
                && old(nextCategoryId) !in old(categories)
                && r == Ok(CREATED, Category(old(nextCategoryId), name.value, description, None))
                && categories == old(categories)[old(nextCategoryId) := r.value]
                && articles == old(articles) && articleTags == old(articleTags)
                && profiles == old(profiles) && nextArticleId == old(nextArticleId)
                && nextCategoryId == old(nextCategoryId) + 1
    {
      if NameMissing(name) {
        return Err(BadRequest(NAME_REQUIRED));
      }
      var c := Category(nextCategoryId, name.value, description, None);
      categories := categories[nextCategoryId := c];
      nextCategoryId := nextCategoryId + 1;
      r := Ok(CREATED, c);
    }

    /** `updateCategory` (admins only): a missing or empty name is refused
        with 400, as is an id with no row; otherwise only that category's
        name, description and update time change. */
    method UpdateCategory(actor: Profile, id: CategoryId, name: Option<string>,
                          description: Option<string>, now: Time) returns (r: Result<Category>)
      requires Valid()
      requires actor.role == ROLE_ADMIN
      modifies this
      ensures Valid()
      ensures NameMissing(name) ==> r == Err(BadRequest(NAME_REQUIRED)) && unchanged(this)
      ensures !NameMissing(name) && id !in old(categories) ==>
                r == Err(BadRequest(NO_ROW)) && unchanged(this)
      ensures !NameMissing(name) && id in old(categories) ==>
                && r == Ok(OK, Renamed(old(categories)[id], name.value, description, now))
                && categories == old(categories)[id := r.value]
                && articles == old(articles) && articleTags == old(articleTags)
                && profiles == old(profiles) && nextArticleId == old(nextArticleId)
                && nextCategoryId == old(nextCategoryId)
    {
      if NameMissing(name) {
        return Err(BadRequest(NAME_REQUIRED));
      }
      if id !in categories {
        return Err(BadRequest(NO_ROW));
      }
      var c := Renamed(categories[id], name.value, description, now);
      categories := categories[id := c];
      r := Ok(OK, c);
    }

    /** `deleteCategory` (admins only): refused with 400 while any article,
        of any status, references the category; otherwise the row is removed
        (an id with no row also reports success). */
    method DeleteCategory(actor: Profile, id: CategoryId) returns (r: Result<string>)
      requires Valid()
      requires actor.role == ROLE_ADMIN
      modifies this
      ensures Valid()
      ensures CategoryInUse(old(articles), id) ==>
                r == Err(BadRequest(CATEGORY_IN_USE)) && unchanged(this)
      ensures !CategoryInUse(old(articles), id) ==>
                && r == Ok(OK, CATEGORY_DELETED)
                && categories == old(categories) - {id}
                && articles == old(articles) && articleTags == old(articleTags)
                && profiles == old(profiles) && nextArticleId == old(nextArticleId)
                && nextCategoryId == old(nextCategoryId)
    {
      if CategoryInUse(articles, id) {
        return Err(BadRequest(CATEGORY_IN_USE));
      }
      categories := categories - {id};
      r := Ok(OK, CATEGORY_DELETED);
    }
  }
}
