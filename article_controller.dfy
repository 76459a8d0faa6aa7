/** The article endpoints: creation with a unique slug, owner-only update
    and delete, reading one article (which counts a view), and the three
    read-only listings (paginated published articles, the author's drafts,
    trending articles). */
module ArticleController {
  import opened Common
  import opened JsString
  import opened ArticleHelpers
  import ArticleModel
  import opened Database
  import opened Sorting

  /** Length of the excerpt cut from the content when none is given. */
  const ExcerptLength: nat := 150

  /** The body fields `createArticle` and `updateArticle` read; `None` is a
      field absent from the request. */
  datatype ArticleRequest = ArticleRequest(
    title: Option<string>,
    content: Option<string>,
    excerpt: Option<string>,
    coverImage: Option<string>,
    tags: Option<seq<string>>,
    category: Option<string>,
    published: Option<bool>)

  // ---------------------------------------------------------------------
  // Unique slug
  // ---------------------------------------------------------------------

  /** `k` is the first probe of `base` that no stored article holds. */
  predicate FirstFree(base: string, taken: set<string>, k: nat)
  {
    Probe(base, k) !in taken && forall j: nat :: j < k ==> Probe(base, j) in taken
  }

  /** The first `n` probes are `n` different strings. */
  lemma {:induction false} ProbesCount(base: string, n: nat)
    ensures |set j: nat | j < n :: Probe(base, j)| == n
  {
    if n > 0 {
      ProbesCount(base, n - 1);
      var before := set j: nat | j < n - 1 :: Probe(base, j);
      var after := set j: nat | j < n :: Probe(base, j);
      assert after == before + {Probe(base, n - 1)};
      if Probe(base, n - 1) in before {
        var j: nat :| j < n - 1 && Probe(base, j) == Probe(base, n - 1);
        ProbeInjective(base, j, n - 1);
      }
    }
  }

  /** So a finite set of slugs can hold at most as many consecutive probes
      as it has members. */
  lemma ProbesBounded(base: string, taken: set<string>, n: nat)
    requires forall j: nat :: j < n ==> Probe(base, j) in taken
    ensures n <= |taken|
  {
    var probes := set j: nat | j < n :: Probe(base, j);
    ProbesCount(base, n);
    assert probes <= taken;
    SubsetSize(probes, taken);
  }

  lemma {:induction false} SubsetSize<T>(a: set<T>, b: set<T>)
    requires a <= b
    ensures |a| <= |b|
    decreases |b|
  {
    if a != {} {
      var x :| x in a;
      SubsetSize(a - {x}, b - {x});
    }
  }

  /** Every probe of a generated slug is left alone by the lowercase
      setter. */
  lemma SlugProbeLower(title: string, k: nat)
    ensures ToLower(Probe(GenerateSlug(title), k)) == Probe(GenerateSlug(title), k)
  {
    GenerateSlugShape(title);
    ProbeLower(GenerateSlug(title), k);
  }

  /** The probing loop of `createArticle`: the slug of the title if no
      article holds it, otherwise `slug-1`, `slug-2`, ... until one is free.
      Each lookup goes through the schema's lowercase setter. The loop
      always ends, with the first free probe. */
  method UniqueSlug(title: string, taken: set<string>) returns (slug: string, ghost k: nat)
    ensures slug == Probe(GenerateSlug(title), k)
    ensures FirstFree(GenerateSlug(title), taken, k)
    ensures ToLower(slug) == slug
  {
    var base := GenerateSlug(title);
    slug := base;
    SlugProbeLower(title, 0);
    var slugExists := ToLower(slug) in taken;
    var counter: nat := 1;
    while slugExists
      invariant counter >= 1
      invariant slug == Probe(base, counter - 1) && ToLower(slug) == slug
      invariant slugExists <==> slug in taken
      invariant forall j: nat :: j < counter - 1 ==> Probe(base, j) in taken
      decreases |taken| - (counter - 1)
    {
      ProbesBounded(base, taken, counter);
      slug := base + "-" + NatToString(counter);
      SlugProbeLower(title, counter);
      slugExists := ToLower(slug) in taken;
      counter := counter + 1;
    }
    k := counter - 1;
  }

  // ---------------------------------------------------------------------
  // Create
  // ---------------------------------------------------------------------

  /** The fields handed to `Article.create` for a request whose title and
      content are present, with the slug the probe chose. */
  function CreateFields(req: ArticleRequest, slug: string, actor: Id, now: Time): ArticleModel.ArticleFields
    requires req.title.Some? && req.content.Some?
  {
    var content := req.content.value;
    ArticleModel.ArticleFields(
      req.title.value, slug, content,
      Some(if Truthy(req.excerpt) then req.excerpt.value else Prefix(content, ExcerptLength)),
      req.coverImage, actor,
      if req.tags.Some? then req.tags.value else [],
      req.category,
      Some(ReadingTime(content)),
      Some(req.published == Some(true)),
      if req.published == Some(true) then Some(now) else None)
  }

  /** The outcome of `createArticle` once the slug is chosen: 400 without a
      title or content; 500 when the schema rejects the document (a title
      that trims to nothing or exceeds 200 characters, an empty slug, an
      excerpt over 300 characters); otherwise the new article, written by
      the acting user, with the excerpt defaulting to the first 150
      characters of the content and a publication time exactly when
      publishing was requested. */
  function CreateOutcome(req: ArticleRequest, slug: string, actor: Id, now: Time): (r: Result<Article>)
    ensures (r.Err? && r.status == BadRequest) <==> !Truthy(req.title) || !Truthy(req.content)
    ensures r.Err? ==> r.status in {BadRequest, ServerError}
    ensures r.Ok? <==>
      && Truthy(req.title) && Truthy(req.content)
      && Trim(req.title.value) != "" && |Trim(req.title.value)| <= ArticleModel.TitleMaxLength
      && slug != ""
      && (Truthy(req.excerpt) ==> |req.excerpt.value| <= ArticleModel.ExcerptMaxLength)
    ensures r.Ok? ==>
      var a := r.value;
      && StoredArticle(a)
      && a.title == Trim(req.title.value) && a.slug == ToLower(slug) && a.content == req.content.value
      && a.author == actor
      && a.excerpt == Some(if Truthy(req.excerpt) then req.excerpt.value else Prefix(req.content.value, ExcerptLength))
      && a.tags == ArticleModel.NormalizeTags(if req.tags.Some? then req.tags.value else [])
      && a.published == (req.published == Some(true))
      && (a.publishedAt.Some? <==> a.published)
      && (a.publishedAt.Some? ==> a.publishedAt.value == now)
      && a.readingTime == ReadingTime(req.content.value)
      && a.views == 0 && a.commentsCount == 0 && a.reactions == ArticleModel.NoReactions
  {
    if !Truthy(req.title) || !Truthy(req.content) then
      Err(BadRequest, "Title and content are required")
    else
      ArticleModel.Create(CreateFields(req, slug, actor, now), now)
  }

  /** `createArticle`: check the title and content, probe for a free slug,
      and store the new article under a fresh id. Nothing is stored unless
      the result is a success. */
  method CreateArticle(db: Store, actor: Id, now: Time, freshId: Id, req: ArticleRequest) returns (r: Result<Article>)
    requires db.Valid() && freshId !in db.issued
    modifies db
    ensures db.Valid()
    ensures !Truthy(req.title) || !Truthy(req.content) ==> r == Err(BadRequest, "Title and content are required")
    ensures Truthy(req.title) && Truthy(req.content) ==>
      exists k: nat ::
        && FirstFree(GenerateSlug(req.title.value), old(Slugs(db.articles)), k)
        && r == CreateOutcome(req, Probe(GenerateSlug(req.title.value), k), actor, now)
    ensures r.Ok? ==> r.value.slug !in old(Slugs(db.articles))
    ensures r.Ok? ==> db.articles == old(db.articles)[freshId := r.value] && db.issued == old(db.issued) + {freshId}
    ensures r.Ok? ==> db.comments == old(db.comments) && db.users == old(db.users)
    ensures r.Err? ==> unchanged(db)
  {
    if !Truthy(req.title) || !Truthy(req.content) {
      return Err(BadRequest, "Title and content are required");
    }
    var slug, k := UniqueSlug(req.title.value, Slugs(db.articles));
    r := CreateOutcome(req, slug, actor, now);
    if r.Ok? {
      db.InsertArticle(freshId, r.value);
    }
  }

  /** The default excerpt never breaks the 300-character bound, so a
      request without an excerpt is never rejected for it. */
  lemma DefaultExcerptFits(content: string)
    ensures |Prefix(content, ExcerptLength)| <= ArticleModel.ExcerptMaxLength
  {
  }

  // ---------------------------------------------------------------------
  // Update and delete
  // ---------------------------------------------------------------------

  /** The text assignments of `updateArticle`: title, content (with its
      reading time) and excerpt only for a non-empty value, the cover image
      for any value including the empty string. */
  function ApplyText(a: Article, req: ArticleRequest): (r: Article)
    ensures r.title == (if Truthy(req.title) then Trim(req.title.value) else a.title)
    ensures r.content == (if Truthy(req.content) then req.content.value else a.content)
    ensures r.readingTime == (if Truthy(req.content) then ReadingTime(req.content.value) else a.readingTime)
    ensures r.excerpt == (if Truthy(req.excerpt) then req.excerpt else a.excerpt)
    ensures r.coverImage == (if req.coverImage.Some? then req.coverImage.value else a.coverImage)
    ensures r.(title := a.title, content := a.content, readingTime := a.readingTime, excerpt := a.excerpt,
               coverImage := a.coverImage) == a
  {
    a.(title := if Truthy(req.title) then Trim(req.title.value) else a.title,
       content := if Truthy(req.content) then req.content.value else a.content,
       readingTime := if Truthy(req.content) then ReadingTime(req.content.value) else a.readingTime,
       excerpt := if Truthy(req.excerpt) then req.excerpt else a.excerpt,
       coverImage := if req.coverImage.Some? then req.coverImage.value else a.coverImage)
  }

  /** The remaining assignments: tags for any array, the category only for
      a non-empty value, and the published flag, which stamps
      `publishedAt` only if it was never set. */
  function ApplyMeta(a: Article, req: ArticleRequest, now: Time): (r: Article)
    ensures r.tags == (if req.tags.Some? then ArticleModel.NormalizeTags(req.tags.value) else a.tags)
    ensures r.category == (if Truthy(req.category) then req.category.value else a.category)
    ensures r.published == (if req.published.Some? then req.published.value else a.published)
    ensures r.publishedAt == (if req.published == Some(true) && a.publishedAt.None? then Some(now) else a.publishedAt)
    ensures r.(tags := a.tags, category := a.category, published := a.published, publishedAt := a.publishedAt) == a
  {
    a.(tags := if req.tags.Some? then ArticleModel.NormalizeTags(req.tags.value) else a.tags,
       category := if Truthy(req.category) then req.category.value else a.category,
       published := if req.published.Some? then req.published.value else a.published,
       publishedAt := if req.published == Some(true) && a.publishedAt.None? then Some(now) else a.publishedAt)
  }

  /** The document after the assignments of `updateArticle`, before it is
      saved. Title, content, excerpt and category are replaced only by a
      non-empty value, tags by any array, the cover image by any value
      including the empty string; a new content brings a new reading time.
      Publishing stamps `publishedAt` only if it was never set, and
      unpublishing keeps it. The slug, author, counters and reactions are
      never touched. */
  function ApplyUpdate(a: Article, req: ArticleRequest, now: Time): (r: Article)
    ensures r.slug == a.slug && r.author == a.author && r.views == a.views
    ensures r.commentsCount == a.commentsCount && r.reactions == a.reactions
    ensures r.createdAt == a.createdAt && r.updatedAt == a.updatedAt
    ensures r.title == (if Truthy(req.title) then Trim(req.title.value) else a.title)
    ensures r.content == (if Truthy(req.content) then req.content.value else a.content)
    ensures r.readingTime == (if Truthy(req.content) then ReadingTime(req.content.value) else a.readingTime)
    ensures r.excerpt == (if Truthy(req.excerpt) then req.excerpt else a.excerpt)
    ensures r.coverImage == (if req.coverImage.Some? then req.coverImage.value else a.coverImage)
    ensures r.tags == (if req.tags.Some? then ArticleModel.NormalizeTags(req.tags.value) else a.tags)
    ensures r.category == (if Truthy(req.category) then req.category.value else a.category)
    ensures r.published == (if req.published.Some? then req.published.value else a.published)
    ensures a.publishedAt.Some? ==> r.publishedAt == a.publishedAt
    ensures a.publishedAt.None? ==> (r.publishedAt.Some? <==> req.published == Some(true))
    ensures r.publishedAt.Some? && a.publishedAt.None? ==> r.publishedAt.value == now
  {
    ApplyMeta(ApplyText(a, req), req, now)
  }

  /** An update keeps a stored article's setter shape and its "published
      implies a publication time" rule, so whether it may be saved depends
      on the schema validators alone. */
  lemma UpdateKeepsShape(a: Article, req: ArticleRequest, now: Time)
    requires StoredArticle(a)
    ensures var r := ApplyUpdate(a, req, now);
      ArticleModel.Normalized(r) && (r.published ==> r.publishedAt.Some?)
  {
    var r := ApplyUpdate(a, req, now);
    if req.tags.Some? {
      var tags := ArticleModel.NormalizeTags(req.tags.value);
      assert forall i :: 0 <= i < |tags| ==> ArticleModel.NormalTag(tags[i]);
    }
  }

  /** The text assignments of `updateArticle` (lines 163-169), made one at
      a time on the loaded document. */
  method AssignText(before: Article, req: ArticleRequest) returns (article: Article)
    ensures article == ApplyText(before, req)
  {
    article := before;
    if Truthy(req.title) {
      article := article.(title := Trim(req.title.value));
    }
    if Truthy(req.content) {
      article := article.(content := req.content.value);
      article := article.(readingTime := ReadingTime(req.content.value));
    }
    if Truthy(req.excerpt) {
      article := article.(excerpt := req.excerpt);
    }
    if req.coverImage.Some? {
      article := article.(coverImage := req.coverImage.value);
    }
  }

  /** The remaining assignments (lines 170-179). */
  method AssignMeta(before: Article, req: ArticleRequest, now: Time) returns (article: Article)
    ensures article == ApplyMeta(before, req, now)
  {
    article := before;
    if req.tags.Some? {
      article := article.(tags := ArticleModel.NormalizeTags(req.tags.value));
    }
    if Truthy(req.category) {
      article := article.(category := req.category.value);
    }
    if req.published.Some? {
      article := article.(published := req.published.value);
      if req.published.value && article.publishedAt.None? {
        article := article.(publishedAt := Some(now));
      }
    }
  }

  /** The field assignments of `updateArticle` (lines 163-179), in order. */
  method AssignFields(before: Article, req: ArticleRequest, now: Time) returns (article: Article)
    ensures article == ApplyUpdate(before, req, now)
  {
    article := AssignText(before, req);
    article := AssignMeta(article, req, now);
  }

  /** `updateArticle`: 404 for an unknown id and 403 for someone else's
      article, changing nothing; otherwise the fields are assigned one by
      one and the document saved, which fails with 500 (changing nothing)
      when a validator rejects it. */
  method UpdateArticle(db: Store, actor: Id, id: Id, req: ArticleRequest, now: Time) returns (r: Result<Article>)
    requires db.Valid()
    modifies db
    ensures db.Valid()
    ensures id !in old(db.articles) ==> r == Err(NotFound, "Article not found")
    ensures id in old(db.articles) && old(db.articles[id].author) != actor ==>
      r == Err(Forbidden, "Not authorized to update this article")
    ensures id in old(db.articles) && old(db.articles[id].author) == actor ==>
      var updated := ApplyUpdate(old(db.articles[id]), req, now);
      if ArticleModel.Validates(updated) then r == Ok(ArticleModel.Saved(old(db.articles[id]), updated, now))
      else r.Err? && r.status == ServerError
    ensures r.Ok? ==> db.articles == old(db.articles)[id := r.value]
    ensures r.Ok? ==> db.comments == old(db.comments) && db.users == old(db.users) && db.issued == old(db.issued)
    ensures r.Err? ==> unchanged(db)
  {
    if id !in db.articles {
      return Err(NotFound, "Article not found");
    }
    var before := db.articles[id];
    if before.author != actor {
      return Err(Forbidden, "Not authorized to update this article");
    }
    var article := AssignFields(before, req, now);
    if !ArticleModel.Validates(article) {
      return Err(ServerError, "Article validation failed");
    }
    UpdateKeepsShape(before, req, now);
    var saved := ArticleModel.Saved(before, article, now);
    db.ReplaceArticle(id, saved);
    r := Ok(saved);
  }

  /** `deleteArticle`: 404 for an unknown id and 403 for someone else's
      article, changing nothing; otherwise only that article is removed. */
  method DeleteArticle(db: Store, actor: Id, id: Id) returns (r: Result<string>)
    requires db.Valid()
    modifies db
    ensures db.Valid()
    ensures id !in old(db.articles) ==> r == Err(NotFound, "Article not found")
    ensures id in old(db.articles) && old(db.articles[id].author) != actor ==>
      r == Err(Forbidden, "Not authorized to delete this article")
    ensures id in old(db.articles) && old(db.articles[id].author) == actor ==> r == Ok("Article deleted successfully")
    ensures r.Ok? ==> db.articles == old(db.articles) - {id}
    ensures r.Ok? ==> db.comments == old(db.comments) && db.users == old(db.users) && db.issued == old(db.issued)
    ensures r.Err? ==> unchanged(db)
  {
    if id !in db.articles {
      return Err(NotFound, "Article not found");
    }
    if db.articles[id].author != actor {
      return Err(Forbidden, "Not authorized to delete this article");
    }
    db.RemoveArticle(id);
    r := Ok("Article deleted successfully");
  }

  // ---------------------------------------------------------------------
  // Reading one article
  // ---------------------------------------------------------------------

  /** The article after `getArticle` has counted a view: one more view and
      a new `updatedAt` for a published article, nothing changed for a
      draft. */
  function Viewed(a: Article, now: Time): (r: Article)
    ensures r.views == a.views + (if a.published then 1 else 0)
    ensures a.published ==> r == a.(views := a.views + 1, updatedAt := now)
    ensures !a.published ==> r == a
  {
    if a.published then ArticleModel.Saved(a, a.(views := a.views + 1), now) else a
  }

  /** `article.views += 1; await article.save()` for a published article;
      a draft is returned as stored. */
  method CountView(db: Store, id: Id, now: Time) returns (article: Article)
    requires db.Valid() && id in db.articles
    modifies db
    ensures db.Valid()
    ensures article == Viewed(old(db.articles[id]), now)
    ensures db.articles == old(db.articles)[id := article]
    ensures db.comments == old(db.comments) && db.users == old(db.users) && db.issued == old(db.issued)
  {
    article := db.articles[id];
    if article.published {
      var before := article;
      article := article.(views := article.views + 1);
      article := ArticleModel.Saved(before, article, now);
      db.ReplaceArticle(id, article);
    }
  }

  /** `getArticle`: the slug parameter goes through the lowercase setter;
      404 when no article holds it, else that article, its view counted. */
  method GetArticle(db: Store, slugParam: string, now: Time) returns (r: Result<Article>)
    requires db.Valid()
    modifies db
    ensures db.Valid()
    ensures r.Err? <==> ToLower(slugParam) !in old(Slugs(db.articles))
    ensures r.Err? ==> r == Err(NotFound, "Article not found") && unchanged(db)
    ensures r.Ok? ==>
      exists id :: id in old(db.articles) && old(db.articles[id].slug) == ToLower(slugParam)
        && r.value == Viewed(old(db.articles[id]), now)
        && db.articles == old(db.articles)[id := r.value]
    ensures db.comments == old(db.comments) && db.users == old(db.users) && db.issued == old(db.issued)
  {
    var slug := ToLower(slugParam);
    if slug !in Slugs(db.articles) {
      return Err(NotFound, "Article not found");
    }
    var id :| id in db.articles && db.articles[id].slug == slug;
    var article := CountView(db, id, now);
    r := Ok(article);
  }

  // ---------------------------------------------------------------------
  // Listings (read-only)
  // ---------------------------------------------------------------------

  /** An article as the listings return it: every field but the content
      (`.select('-content')`), with its id. */
  datatype ArticleCard = ArticleCard(
    id: Id,
    title: string,
    slug: string,
    excerpt: Option<string>,
    coverImage: string,
    author: Id,
    tags: seq<string>,
    category: string,
    published: bool,
    publishedAt: Option<Time>,
    views: nat,
    readingTime: nat,
    reactions: ArticleModel.Reactions,
    commentsCount: nat,
    createdAt: Time,
    updatedAt: Time)

  function Card(id: Id, a: Article): ArticleCard
  {
    ArticleCard(id, a.title, a.slug, a.excerpt, a.coverImage, a.author, a.tags, a.category,
                a.published, a.publishedAt, a.views, a.readingTime, a.reactions, a.commentsCount,
                a.createdAt, a.updatedAt)
  }

  function Cards(articles: map<Id, Article>, ids: seq<Id>): (r: seq<ArticleCard>)
    requires forall i :: 0 <= i < |ids| ==> ids[i] in articles
    ensures |r| == |ids|
    ensures forall i :: 0 <= i < |ids| ==> r[i] == Card(ids[i], articles[ids[i]])
  {
    seq(|ids|, i requires 0 <= i < |ids| => Card(ids[i], articles[ids[i]]))
  }

  /** `.skip(skip).limit(limit)` on an ordered result. */
  function Window(s: seq<Id>, skip: nat, limit: nat): (r: seq<Id>)
    ensures |r| == if skip >= |s| then 0 else Min(limit, |s| - skip)
    ensures forall i :: 0 <= i < |r| ==> r[i] == s[skip + i]
  {
    if skip >= |s| then [] else s[skip..Min(skip + limit, |s|)]
  }

  /** `Math.ceil(n / d)`. */
  function CeilDiv(n: nat, d: Positive): (r: nat)
    ensures n <= r * d
    ensures r == 0 || (r - 1) * d < n
  {
    var r := (n + d - 1) / d;
    assert r * d <= n + d - 1 < (r + 1) * d;
    r
  }

  /** The query string of `getArticles`: page and limit (defaults 1 and
      10), and the optional tag, author and search filters. */
  datatype ListQuery = ListQuery(page: Positive, limit: Positive, tag: Option<string>, author: Option<Id>, search: Option<string>)

  /** The query object `getArticles` builds: only the filters given, the
      tag already through the tag setters as Mongoose casts query values. */
  datatype ArticleFilter = ArticleFilter(tag: Option<string>, author: Option<Id>, search: Option<string>)

  function FilterOf(q: ListQuery): (f: ArticleFilter)
    ensures f.tag.Some? <==> Truthy(q.tag)
    ensures f.tag.Some? ==> ArticleModel.NormalTag(f.tag.value)
    ensures f.author == q.author
    ensures f.search.Some? <==> Truthy(q.search)
  {
    ArticleFilter(if Truthy(q.tag) then Some(ArticleModel.NormalizeTag(q.tag.value)) else None,
                  q.author,
                  if Truthy(q.search) then q.search else None)
  }

  /** The filter of `getArticles`: published, carrying the tag, by the
      author, and matching the full-text search. The text index's matching
      rule is not part of this model: it is the parameter `textMatch`. */
  predicate ListMatches(a: Article, f: ArticleFilter, textMatch: (Article, string) -> bool)
  {
    && a.published
    && (f.tag.Some? ==> f.tag.value in a.tags)
    && (f.author.Some? ==> a.author == f.author.value)
    && (f.search.Some? ==> textMatch(a, f.search.value))
  }

  function Matching(articles: map<Id, Article>, f: ArticleFilter, textMatch: (Article, string) -> bool): set<Id>
  {
    set id | id in articles && ListMatches(articles[id], f, textMatch)
  }

  /** `.sort({ publishedAt: -1 })`; a missing date sorts last. */
  function PublishedKey(articles: map<Id, Article>): Id -> SortKey
  {
    id => if id in articles && articles[id].publishedAt.Some? then SortKey(articles[id].publishedAt.value, 0) else SortKey(-1, 0)
  }

  function CardIds(cards: seq<ArticleCard>): (r: seq<Id>)
    ensures |r| == |cards| && forall i :: 0 <= i < |cards| ==> r[i] == cards[i].id
  {
    seq(|cards|, i requires 0 <= i < |cards| => cards[i].id)
  }

  /** The response of `getArticles`. */
  datatype ArticlePage = ArticlePage(articles: seq<ArticleCard>, totalPages: nat, currentPage: nat, total: nat)

  /** The matching articles, newest first. */
  ghost function ListOrder(articles: map<Id, Article>, f: ArticleFilter, textMatch: (Article, string) -> bool): seq<Id>
  {
    SortDescending(Matching(articles, f, textMatch), PublishedKey(articles))
  }

  /** The number of results before page `page`. */
  function Skip(page: Positive, limit: Positive): nat
  {
    (page - 1) * limit
  }

  /** The ids on page `page`: `.skip((page - 1) * limit).limit(limit)`. */
  ghost function PageIds(articles: map<Id, Article>, f: ArticleFilter, page: Positive, limit: Positive,
                         textMatch: (Article, string) -> bool): seq<Id>
  {
    Window(ListOrder(articles, f, textMatch), Skip(page, limit), limit)
  }

  /** `getArticles` once the filter is built: page `page` of the matching
      articles, newest first, at most `limit` of them, with the total count
      and the number of pages. */
  ghost function ListArticles(articles: map<Id, Article>, f: ArticleFilter, page: Positive, limit: Positive,
                              textMatch: (Article, string) -> bool): (r: ArticlePage)
    ensures r.total == |Matching(articles, f, textMatch)| && r.currentPage == page
    ensures r.total <= r.totalPages * limit && (r.totalPages == 0 || (r.totalPages - 1) * limit < r.total)
    ensures var skip := Skip(page, limit);
      |r.articles| == if skip >= r.total then 0 else Min(limit, r.total - skip)
  {
    var matching := Matching(articles, f, textMatch);
    var ids := PageIds(articles, f, page, limit, textMatch);
    PageMatches(articles, f, page, limit, textMatch);
    ArticlePage(Cards(articles, ids), CeilDiv(|matching|, limit), page, |matching|)
  }

  lemma PageSorted(articles: map<Id, Article>, f: ArticleFilter, page: Positive, limit: Positive,
                   textMatch: (Article, string) -> bool)
    ensures var ids := PageIds(articles, f, page, limit, textMatch);
      Distinct(ids) && Descending(ids, PublishedKey(articles))
  {
    SortedWindow(Matching(articles, f, textMatch), PublishedKey(articles), Skip(page, limit), limit);
  }

  lemma PageMatches(articles: map<Id, Article>, f: ArticleFilter, page: Positive, limit: Positive,
                    textMatch: (Article, string) -> bool)
    ensures var ids := PageIds(articles, f, page, limit, textMatch);
      forall i :: 0 <= i < |ids| ==> ids[i] in Matching(articles, f, textMatch) && ids[i] in articles
  {
    SortedWindow(Matching(articles, f, textMatch), PublishedKey(articles), Skip(page, limit), limit);
  }

  /** Every article on a page matches the filter and is shown with its
      stored fields, and no article is shown twice. */
  lemma ListedArticles(articles: map<Id, Article>, f: ArticleFilter, page: Positive, limit: Positive,
                       textMatch: (Article, string) -> bool)
    ensures var r := ListArticles(articles, f, page, limit, textMatch).articles;
      && (forall i :: 0 <= i < |r| ==>
            r[i].id in Matching(articles, f, textMatch) && r[i] == Card(r[i].id, articles[r[i].id]))
      && (forall i, j :: 0 <= i < j < |r| ==> r[i].id != r[j].id)
  {
    PageSorted(articles, f, page, limit, textMatch);
    PageMatches(articles, f, page, limit, textMatch);
    ListedIds(articles, f, page, limit, textMatch);
    var r := ListArticles(articles, f, page, limit, textMatch).articles;
    var ids := PageIds(articles, f, page, limit, textMatch);
    assert forall i :: 0 <= i < |r| ==> r[i].id == ids[i];
  }

  /** A page lists its articles newest first. */
  lemma ListedNewestFirst(articles: map<Id, Article>, f: ArticleFilter, page: Positive, limit: Positive,
                          textMatch: (Article, string) -> bool)
    ensures var r := ListArticles(articles, f, page, limit, textMatch).articles;
      forall i, j :: 0 <= i < j < |r| ==>
        AtLeast(PublishedKey(articles)(r[i].id), PublishedKey(articles)(r[j].id))
  {
    PageSorted(articles, f, page, limit, textMatch);
    ListedIds(articles, f, page, limit, textMatch);
    var r := ListArticles(articles, f, page, limit, textMatch).articles;
    var ids := PageIds(articles, f, page, limit, textMatch);
    assert forall i :: 0 <= i < |r| ==> r[i].id == ids[i];
  }

  /** The ids of the articles a page shows. */
  lemma ListedIds(articles: map<Id, Article>, f: ArticleFilter, page: Positive, limit: Positive,
                  textMatch: (Article, string) -> bool)
    ensures CardIds(ListArticles(articles, f, page, limit, textMatch).articles) == PageIds(articles, f, page, limit, textMatch)
  {
    PageMatches(articles, f, page, limit, textMatch);
    var ids := PageIds(articles, f, page, limit, textMatch);
    var shown := CardIds(ListArticles(articles, f, page, limit, textMatch).articles);
    assert forall i :: 0 <= i < |shown| ==> shown[i] == ids[i];
  }

  /** Paging through the results shows every matching article on exactly
      one page between 1 and `totalPages`, given that every page query
      orders articles with equal `publishedAt` the same way, as the one
      fixed order of `SortDescending` does. */
  lemma EveryMatchOnOnePage(articles: map<Id, Article>, f: ArticleFilter, limit: Positive,
                            textMatch: (Article, string) -> bool, id: Id)
    requires id in Matching(articles, f, textMatch)
    ensures exists p: Positive :: p <= ListArticles(articles, f, 1, limit, textMatch).totalPages
                         && id in CardIds(ListArticles(articles, f, p, limit, textMatch).articles)
    ensures forall p: Positive, p': Positive ::
      (id in CardIds(ListArticles(articles, f, p, limit, textMatch).articles) &&
       id in CardIds(ListArticles(articles, f, p', limit, textMatch).articles)) ==> p == p'
  {
    var order := ListOrder(articles, f, textMatch);
    var n := IndexOf(order, id);
    WindowPartition(order, limit, n);
    var p: Positive := n / limit + 1;
    ListedIds(articles, f, p, limit, textMatch);
    var totalPages := ListArticles(articles, f, 1, limit, textMatch).totalPages;
    DivBounds(n, limit);
    MulCancel(totalPages, n / limit, limit);
    forall p: Positive, p': Positive |
      id in CardIds(ListArticles(articles, f, p, limit, textMatch).articles) &&
      id in CardIds(ListArticles(articles, f, p', limit, textMatch).articles)
      ensures p == p'
    {
      ListedIds(articles, f, p, limit, textMatch);
      ListedIds(articles, f, p', limit, textMatch);
    }
  }

  /** A window of the sorted ids is itself sorted and without repeats, and
      holds only members of the set. */
  lemma SortedWindow(ids: set<Id>, key: Id -> SortKey, skip: nat, limit: nat)
    ensures var w := Window(SortDescending(ids, key), skip, limit);
      Distinct(w) && Descending(w, key) && forall i :: 0 <= i < |w| ==> w[i] in ids
  {
    var s := SortDescending(ids, key);
    var w := Window(s, skip, limit);
    assert forall i, j :: 0 <= i < j < |w| ==> w[i] == s[skip + i] && w[j] == s[skip + j];
  }

  /** Consecutive windows of a sequence without repeats hold each of its
      members exactly once: the member at index `n` is in window `n / limit`
      and no other. */
  lemma WindowPartition(s: seq<Id>, limit: Positive, n: nat)
    requires n < |s| && Distinct(s)
    ensures s[n] in Window(s, (n / limit) * limit, limit)
    ensures forall pg: nat :: s[n] in Window(s, pg * limit, limit) ==> pg == n / limit
  {
    DivBounds(n, limit);
    var w := Window(s, (n / limit) * limit, limit);
    assert w[n - (n / limit) * limit] == s[n];
    forall pg: nat | s[n] in Window(s, pg * limit, limit) ensures pg == n / limit {
      var w' := Window(s, pg * limit, limit);
      var i :| 0 <= i < |w'| && w'[i] == s[n];
      assert s[pg * limit + i] == s[n];
      SameBlock(pg, n / limit, limit, n);
    }
  }

  /** The position of a member of a sequence. */
  function IndexOf(s: seq<Id>, x: Id): (n: nat)
    requires x in s
    ensures n < |s| && s[n] == x
  {
    if s[0] == x then 0 else 1 + IndexOf(s[1..], x)
  }

  lemma DivBounds(n: nat, d: Positive)
    ensures (n / d) * d <= n < (n / d) * d + d
  {
  }

  lemma {:induction false} MulNext(a: nat, b: nat, d: nat)
    requires a < b
    ensures a * d + d <= b * d
    decreases b - a
  {
    assert b * d == (b - 1) * d + d;
    if a < b - 1 {
      MulNext(a, b - 1, d);
    }
  }

  lemma MulCancel(a: nat, b: nat, d: nat)
    requires b * d < a * d
    ensures b < a
  {
    if a <= b {
      if a < b {
        MulNext(a, b, d);
      }
    }
  }

  /** A number lies in only one block `[p * d, p * d + d)`. */
  lemma SameBlock(p: nat, p': nat, d: Positive, n: nat)
    requires p * d <= n < p * d + d && p' * d <= n < p' * d + d
    ensures p == p'
  {
    if p < p' {
      MulNext(p, p', d);
    } else if p' < p {
      MulNext(p', p, d);
    }
  }

  /** The articles of `getTrendingArticles`: at most ten. */
  const TrendingLimit: nat := 10

  function PublishedIds(articles: map<Id, Article>): set<Id>
  {
    set id | id in articles && articles[id].published
  }

  /** `.sort({ views: -1, 'reactions.likes': -1 })`. */
  function TrendingKey(articles: map<Id, Article>): Id -> SortKey
  {
    id => if id in articles then SortKey(articles[id].views, articles[id].reactions.likes) else SortKey(0, 0)
  }

  ghost function TrendingOrder(articles: map<Id, Article>): seq<Id>
  {
    SortDescending(PublishedIds(articles), TrendingKey(articles))
  }

  /** `getTrendingArticles`: the first ten published articles by views,
      then likes. */
  ghost function Trending(articles: map<Id, Article>): (r: seq<ArticleCard>)
    ensures |r| == Min(TrendingLimit, |PublishedIds(articles)|)
    ensures forall i :: 0 <= i < |r| ==> r[i].id in PublishedIds(articles) && r[i] == Card(r[i].id, articles[r[i].id])
  {
    var order := TrendingOrder(articles);
    Cards(articles, Window(order, 0, TrendingLimit))
  }

  /** The trending list is best first, without repeats, and no published
      article left out ranks above one listed. */
  lemma TrendingRanked(articles: map<Id, Article>)
    ensures var r := Trending(articles);
      && (forall i, j :: 0 <= i < j < |r| ==> r[i].id != r[j].id)
      && (forall i, j :: 0 <= i < j < |r| ==> AtLeast(TrendingKey(articles)(r[i].id), TrendingKey(articles)(r[j].id)))
      && (forall id :: id in PublishedIds(articles) && id !in CardIds(r) ==>
            forall i :: 0 <= i < |r| ==> AtLeast(TrendingKey(articles)(r[i].id), TrendingKey(articles)(id)))
  {
    var order := TrendingOrder(articles);
    var r := Trending(articles);
    assert forall k :: 0 <= k < |r| ==> r[k].id == order[k];
    forall id | id in PublishedIds(articles) && id !in CardIds(r)
      ensures forall i :: 0 <= i < |r| ==> AtLeast(TrendingKey(articles)(r[i].id), TrendingKey(articles)(id))
    {
      var n :| 0 <= n < |order| && order[n] == id;
      assert n >= |r|;
    }
  }

  /** `.sort({ updatedAt: -1 })`. */
  function UpdatedKey(articles: map<Id, Article>): Id -> SortKey
  {
    id => if id in articles then SortKey(articles[id].updatedAt, 0) else SortKey(0, 0)
  }

  function DraftIds(articles: map<Id, Article>, actor: Id): set<Id>
  {
    set id | id in articles && articles[id].author == actor && !articles[id].published
  }

  /** The acting user's drafts, most recently updated first. */
  ghost function DraftOrder(articles: map<Id, Article>, actor: Id): seq<Id>
  {
    SortDescending(DraftIds(articles, actor), UpdatedKey(articles))
  }

  /** `getUserDrafts`: the acting user's unpublished articles, most
      recently updated first, with their content. */
  /** Each id with its stored article. */
  function WithDocs(articles: map<Id, Article>, ids: seq<Id>): (r: seq<(Id, Article)>)
    requires forall i :: 0 <= i < |ids| ==> ids[i] in articles
    ensures |r| == |ids|
    ensures forall i :: 0 <= i < |ids| ==> r[i] == (ids[i], articles[ids[i]])
  {
    seq(|ids|, i requires 0 <= i < |ids| => (ids[i], articles[ids[i]]))
  }

  ghost function UserDrafts(articles: map<Id, Article>, actor: Id): (r: seq<(Id, Article)>)
    ensures |r| == |DraftIds(articles, actor)|
    ensures forall i :: 0 <= i < |r| ==> r[i].0 in DraftIds(articles, actor) && r[i].1 == articles[r[i].0]
  {
    WithDocs(articles, DraftOrder(articles, actor))
  }

  /** Every draft of the acting user is listed. */
  lemma DraftsCovered(articles: map<Id, Article>, actor: Id)
    ensures var r := UserDrafts(articles, actor);
      forall id :: id in DraftIds(articles, actor) ==> exists i :: 0 <= i < |r| && r[i].0 == id
  {
    var order := DraftOrder(articles, actor);
    var r := UserDrafts(articles, actor);
    forall id | id in DraftIds(articles, actor) ensures exists i :: 0 <= i < |r| && r[i].0 == id {
      var i :| 0 <= i < |order| && order[i] == id;
      assert r[i].0 == id;
    }
  }

  /** Drafts come most recently updated first, each once. */
  lemma DraftsNewestFirst(articles: map<Id, Article>, actor: Id)
    ensures var r := UserDrafts(articles, actor);
      forall i, j :: 0 <= i < j < |r| ==> r[i].0 != r[j].0 && r[i].1.updatedAt >= r[j].1.updatedAt
  {
    var order := DraftOrder(articles, actor);
    var r := UserDrafts(articles, actor);
    forall i, j | 0 <= i < j < |r| ensures r[i].0 != r[j].0 && r[i].1.updatedAt >= r[j].1.updatedAt {
      assert AtLeast(UpdatedKey(articles)(order[i]), UpdatedKey(articles)(order[j]));
    }
  }

  /** Every draft is listed, once, and the list is ordered by `updatedAt`,
      newest first. */
  lemma DraftsListed(articles: map<Id, Article>, actor: Id)
    ensures var r := UserDrafts(articles, actor);
      && (forall id :: id in DraftIds(articles, actor) ==> exists i :: 0 <= i < |r| && r[i].0 == id)
      && (forall i, j :: 0 <= i < j < |r| ==> r[i].0 != r[j].0 && r[i].1.updatedAt >= r[j].1.updatedAt)
  {
    DraftsCovered(articles, actor);
    DraftsNewestFirst(articles, actor);
  }
}
