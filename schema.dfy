/** The rows of the `articles`, `categories` and `profiles` tables and the
    predicates the handlers apply to them. */
module Schema {
  import opened Wrappers

  type ArticleId = nat
  type CategoryId = nat
  type TagId = nat
  /** Profile ids are the auth provider's user ids. They are modelled as
      text; the provider issues UUIDs, and a column of that type would
      reject text that is not one. */
  type ProfileId = string
  /** A point in time, as the handlers' `new Date()` would read it. */
  type Time = int

  const ROLE_ADMIN: string := "admin"
  const ROLE_USER: string := "user"

  datatype ArticleStatus = Draft | Published | Archived

  /** The text stored in the `status` column. */
  function StatusName(s: ArticleStatus): string {
    match s
    case Draft => "draft"
    case Published => "published"
    case Archived => "archived"
  }

  /** Reads a status as the `status` column would accept it. */
  function ParseStatus(name: string): (r: Option<ArticleStatus>)
    ensures r.Some? ==> StatusName(r.value) == name
    ensures forall s: ArticleStatus :: name == StatusName(s) ==> r == Some(s)
  {
    if name == "draft" then Some(Draft)
    else if name == "published" then Some(Published)
    else if name == "archived" then Some(Archived)
    else None
  }

  datatype Profile = Profile(id: ProfileId, username: string, role: string)

  datatype Article = Article(
    id: ArticleId,
    title: string,
    content: string,
    categoryId: Option<CategoryId>,
    authorId: ProfileId,
    coverImageUrl: Option<string>,
    status: ArticleStatus,
    publishedAt: Option<Time>,
    updatedAt: Option<Time>)

  datatype Category = Category(
    id: CategoryId,
    name: string,
    description: Option<string>,
    updatedAt: Option<Time>)

  /** Only the author or an admin may change or remove an article: an admin
      may change any article, anyone else only their own. */
  function CanModify(user: Profile, a: Article): (ok: bool)
    ensures user.role == ROLE_ADMIN ==> ok
    ensures user.role != ROLE_ADMIN ==> (ok <==> a.authorId == user.id)
  {
    a.authorId == user.id || user.role == ROLE_ADMIN
  }

  /** An article visible in public listings. */
  predicate IsPublished(a: Article) {
    a.status == Published
  }

  /** A published article carries its publication time. */
  predicate PublishedIsDated(a: Article) {
    a.status == Published ==> a.publishedAt.Some?
  }

  /** The tags linked to an article by the `article_tags` rows. */
  function TagsOf(pairs: set<(ArticleId, TagId)>, id: ArticleId): (tags: set<TagId>)
    ensures forall t :: t in tags <==> (id, t) in pairs
  {
    set p | p in pairs && p.0 == id :: p.1
  }

  /** Every row is stored under its own id. */
  ghost predicate IdsMatch(articles: map<ArticleId, Article>) {
    forall k :: k in articles ==> articles[k].id == k
  }

  /** `a` is the row stored under its id. */
  predicate Stored(articles: map<ArticleId, Article>, a: Article) {
    a.id in articles && articles[a.id] == a
  }

  /** Every category is stored under its own id. */
  ghost predicate CategoryIdsMatch(categories: map<CategoryId, Category>) {
    forall k :: k in categories ==> categories[k].id == k
  }

  /** `c` is the category stored under its id. */
  predicate CategoryStored(categories: map<CategoryId, Category>, c: Category) {
    c.id in categories && categories[c.id] == c
  }
}
