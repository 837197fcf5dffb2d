/** The article router: which middlewares run before each article handler,
    and the inline guards it adds (optional authentication on the author
    listing, the role gate on creation, and the existence and ownership
    guards on update and delete). */
module ArticleRoutes {
  import opened Wrappers
  import opened Http
  import opened Schema
  import opened Auth
  import opened Store

  /** The article routes, in the order the router registers them. */
  datatype Route =
    | ListAll                    // GET /
    | GetOne(id: ArticleId)      // GET /:id
    | ByAuthor(author: ProfileId) // GET /author/:id
    | Create                     // POST /
    | Update(id: ArticleId)      // PUT /:id
    | Delete(id: ArticleId)      // DELETE /:id

  /** Routes registered after `router.use(authenticate)`. */
  predicate Protected(route: Route) {
    route.Create? || route.Update? || route.Delete?
  }

  /** What the middlewares decide: call the handler, with the requester when
      one was authenticated, or answer with an error. */
  datatype Gate = Next(user: Option<Profile>) | Halt(error: HttpError)

  /** The roles `authorize` admits on POST /. */
  const WRITER_ROLES: seq<string> := [ROLE_USER, ROLE_ADMIN]

  /** The inline guard of PUT and DELETE: 404 with the store's message when
      the article's `author_id` cannot be fetched, 403 when the requester is
      neither its author nor an admin. */
  function OwnershipGuard(articles: map<ArticleId, Article>, id: ArticleId, user: Profile,
                          denied: string): (r: Option<HttpError>)
    ensures r.None? <==> id in articles && CanModify(user, articles[id])
    ensures id !in articles ==> r == Some(NotFound(NO_ROW))
    ensures id in articles && !CanModify(user, articles[id]) ==> r == Some(Forbidden(denied))
  {
    if id !in articles then Some(NotFound(NO_ROW))
    else if !CanModify(user, articles[id]) then Some(Forbidden(denied))
    else None
  }

  /** `!authHeader`: no Authorization header, or an empty one. Such a
      header carries no token, so `authenticate` would refuse it with
      "No token provided". */
  function NoHeader(header: Option<string>): (none: bool)
    ensures none ==> ExtractToken(header).None?
  {
    header.None? || header.value == ""
  }

  /** Runs the middlewares of `route` for a request with the given
      Authorization header against the current rows. */
  function Pipeline(route: Route, header: Option<string>, verify: string -> Option<Claims>,
                    profiles: map<ProfileId, Profile>, articles: map<ArticleId, Article>): (g: Gate)
    ensures route.ListAll? || route.GetOne? ==> g == Next(None)
    ensures route.ByAuthor? && NoHeader(header) ==> g == Next(None)
    ensures route.ByAuthor? && !NoHeader(header) && Authenticate(header, verify, profiles).Authenticated? ==>
              g == Next(Some(Authenticate(header, verify, profiles).user))
    ensures g.Next? && g.user.Some? ==>
              Authenticate(header, verify, profiles) == Authenticated(g.user.value)
    ensures Protected(route) ==> (g.Next? ==> g.user.Some?)
    ensures Protected(route) || (route.ByAuthor? && !NoHeader(header)) ==>
              Authenticate(header, verify, profiles).Rejected? ==>
                g == Halt(Authenticate(header, verify, profiles).error) && g.error.Code() == 401
    ensures route == Create ==>
              (g.Next? <==> Authenticate(header, verify, profiles).Authenticated?
                            && Authenticate(header, verify, profiles).user.role in WRITER_ROLES)
    ensures route == Create && Authenticate(header, verify, profiles).Authenticated?
            && Authenticate(header, verify, profiles).user.role !in WRITER_ROLES ==>
              g == Halt(Forbidden(FORBIDDEN))
    ensures route.Update? || route.Delete? ==>
              (g.Next? <==> && Authenticate(header, verify, profiles).Authenticated?
                            && route.id in articles
                            && CanModify(Authenticate(header, verify, profiles).user, articles[route.id]))
    ensures (route.Update? || route.Delete?) && Authenticate(header, verify, profiles).Authenticated? ==>
              && (route.id !in articles ==> g == Halt(NotFound(NO_ROW)))
              && (route.id in articles && !CanModify(Authenticate(header, verify, profiles).user, articles[route.id]) ==>
                    g.Halt? && g.error.Code() == 403)
  {
    match route
    case ListAll => Next(None)
    case GetOne(_) => Next(None)
    case ByAuthor(_) =>
      if NoHeader(header) then Next(None)
      else (
        match Authenticate(header, verify, profiles)
        case Rejected(e) => Halt(e)
        case Authenticated(user) => Next(Some(user)))
    case Create => (
      match Authenticate(header, verify, profiles)
      case Rejected(e) => Halt(e)
      case Authenticated(user) => (
        match Authorize(WRITER_ROLES, user)
        case Some(e) => Halt(e)
        case None => Next(Some(user))))
    case Update(id) => (
      match Authenticate(header, verify, profiles)
      case Rejected(e) => Halt(e)
      case Authenticated(user) => (
        match OwnershipGuard(articles, id, user, NOT_AUTHORIZED_UPDATE)
        case Some(e) => Halt(e)
        case None => Next(Some(user))))
    case Delete(id) => (
      match Authenticate(header, verify, profiles)
      case Rejected(e) => Halt(e)
      case Authenticated(user) => (
        match OwnershipGuard(articles, id, user, NOT_AUTHORIZED_DELETE)
        case Some(e) => Halt(e)
        case None => Next(Some(user))))
  }

  /** On the author listing, a header that does not authenticate ends the
      request with 401; the handler never runs as a public request. */
  lemma {:induction false} AuthorRouteRejectsBadToken(author: ProfileId, header: Option<string>,
                                                      verify: string -> Option<Claims>,
                                                      profiles: map<ProfileId, Profile>,
                                                      articles: map<ArticleId, Article>)
    requires !NoHeader(header)
    requires Authenticate(header, verify, profiles).Rejected?
    ensures Pipeline(ByAuthor(author), header, verify, profiles, articles).Halt?
    ensures Pipeline(ByAuthor(author), header, verify, profiles, articles).error.Code() == 401
  {
  }

  /** Once the guard of PUT has let a request through, the update handler's
      own existence and ownership checks always pass: only the status check
      can still refuse it. */
  lemma GuardedUpdateReachesStatusCheck(id: ArticleId, header: Option<string>, verify: string -> Option<Claims>,
                                        profiles: map<ProfileId, Profile>, articles: map<ArticleId, Article>,
                                        status: Option<string>)
    requires Pipeline(Update(id), header, verify, profiles, articles).Next?
    ensures var user := Pipeline(Update(id), header, verify, profiles, articles).user.value;
            && (UpdateVerdict(articles, id, user, status).None? <==> StatusAccepted(status))
            && (UpdateVerdict(articles, id, user, status).Some? ==>
                  UpdateVerdict(articles, id, user, status).value.Code() == 400)
  {
    var user := Pipeline(Update(id), header, verify, profiles, articles).user.value;
    assert id in articles && CanModify(user, articles[id]);
  }

  /** Once the guard of DELETE has let a request through, the delete
      handler's own checks always pass. */
  lemma GuardedDeleteAlwaysProceeds(id: ArticleId, header: Option<string>, verify: string -> Option<Claims>,
                                    profiles: map<ProfileId, Profile>, articles: map<ArticleId, Article>)
    requires Pipeline(Delete(id), header, verify, profiles, articles).Next?
    ensures DeleteVerdict(articles, id, Pipeline(Delete(id), header, verify, profiles, articles).user.value).None?
  {
    var user := Pipeline(Delete(id), header, verify, profiles, articles).user.value;
    assert id in articles && CanModify(user, articles[id]);
  }

  /** POST /: the middlewares, then `createArticle` as the authenticated
      requester. A request the middlewares stop writes nothing. */
  method PostArticle(db: Db, header: Option<string>, verify: string -> Option<Claims>,
                     body: NewArticle, now: Time) returns (r: Result<Article>)
    requires db.Valid()
    modifies db
    ensures db.Valid()
    ensures Pipeline(Create, header, verify, old(db.profiles), old(db.articles)).Halt? ==>
              r == Err(Pipeline(Create, header, verify, old(db.profiles), old(db.articles)).error) && unchanged(db)
    ensures r.Ok? ==>
              && Pipeline(Create, header, verify, old(db.profiles), old(db.articles)).Next?
              && r.code == CREATED && r.value.authorId in old(db.profiles)
              && r.value.authorId == Pipeline(Create, header, verify, old(db.profiles), old(db.articles)).user.value.id
              && db.articles == old(db.articles)[r.value.id := r.value]
              && db.categories == old(db.categories) && db.profiles == old(db.profiles)
    ensures Pipeline(Create, header, verify, old(db.profiles), old(db.articles)).Next? ==>
              && (CreateStatus(body.status).None? ==> r == Err(BadRequest(INVALID_STATUS)) && unchanged(db))
              && (CreateStatus(body.status).Some? ==>
                    && r == Ok(CREATED, NewRow(old(db.nextArticleId),
                                               Pipeline(Create, header, verify, old(db.profiles), old(db.articles)).user.value,
                                               body, CreateStatus(body.status).value, now))
                    && db.articles == old(db.articles)[r.value.id := r.value]
                    && db.articleTags == old(db.articleTags) +
                         (if body.tags.Some? then TagRows(r.value.id, body.tags.value) else {})
                    && db.nextArticleId == old(db.nextArticleId) + 1
                    && db.nextCategoryId == old(db.nextCategoryId))
  {
    var gate := Pipeline(Create, header, verify, db.profiles, db.articles);
    if gate.Halt? {
      return Err(gate.error);
    }
    r := db.CreateArticle(gate.user.value, body, now);
  }

  /** PUT /:id: the middlewares, then `updateArticle`. A request the guard
      stops changes no row; one it lets through is refused only for its
      status. */
  method PutArticle(db: Db, id: ArticleId, header: Option<string>, verify: string -> Option<Claims>,
                    changes: ArticleChanges, now: Time) returns (r: Result<Article>)
    requires db.Valid()
    modifies db
    ensures db.Valid()
    ensures Pipeline(Update(id), header, verify, old(db.profiles), old(db.articles)).Halt? ==>
              r == Err(Pipeline(Update(id), header, verify, old(db.profiles), old(db.articles)).error) && unchanged(db)
    ensures Pipeline(Update(id), header, verify, old(db.profiles), old(db.articles)).Next? ==>
              && (r.Ok? <==> StatusAccepted(changes.status))
              && (r.Ok? ==> && r.value == Patch(old(db.articles)[id], changes, now)
                            && db.articles == old(db.articles)[id := r.value]
                            && db.articleTags == ReplaceTags(old(db.articleTags), id, changes.tags)
                            && db.categories == old(db.categories) && db.profiles == old(db.profiles)
                            && db.nextArticleId == old(db.nextArticleId)
                            && db.nextCategoryId == old(db.nextCategoryId))
              && (r.Err? ==> r.error.Code() == 400 && unchanged(db))
  {
    var gate := Pipeline(Update(id), header, verify, db.profiles, db.articles);
    if gate.Halt? {
      return Err(gate.error);
    }
    GuardedUpdateReachesStatusCheck(id, header, verify, db.profiles, db.articles, changes.status);
    r := db.UpdateArticle(gate.user.value, id, changes, now);
  }

  /** DELETE /:id: the middlewares, then `deleteArticle`. */
  method DeleteArticleRoute(db: Db, id: ArticleId, header: Option<string>, verify: string -> Option<Claims>)
    returns (r: Result<string>)
    requires db.Valid()
    modifies db
    ensures db.Valid()
    ensures Pipeline(Delete(id), header, verify, old(db.profiles), old(db.articles)).Halt? ==>
              r == Err(Pipeline(Delete(id), header, verify, old(db.profiles), old(db.articles)).error) && unchanged(db)
    ensures Pipeline(Delete(id), header, verify, old(db.profiles), old(db.articles)).Next? ==>
              && r == Ok(OK, ARTICLE_DELETED)
              && db.articles == old(db.articles) - {id}
              && db.categories == old(db.categories) && db.articleTags == old(db.articleTags)
              && db.profiles == old(db.profiles)
              && db.nextArticleId == old(db.nextArticleId) && db.nextCategoryId == old(db.nextCategoryId)
  {
    var gate := Pipeline(Delete(id), header, verify, db.profiles, db.articles);
    if gate.Halt? {
      return Err(gate.error);
    }
    GuardedDeleteAlwaysProceeds(id, header, verify, db.profiles, db.articles);
    r := db.DeleteArticle(gate.user.value, id);
  }
}
