/** The article schema: its fields, the setters applied on assignment
    (trim, lowercase), the validators run on save (required, maxlength) and
    the defaults of a new document. */
module ArticleModel {
  import opened Common
  import opened JsString

  const TitleMaxLength: nat := 200
  const ExcerptMaxLength: nat := 300
  const DefaultCategory: string := "General"

  /** Four independent reaction counters. */
  datatype Reactions = Reactions(likes: nat, hearts: nat, unicorns: nat, bookmarks: nat)

  const NoReactions := Reactions(0, 0, 0, 0)

  datatype Article = Article(
    title: string,
    slug: string,
    content: string,
    excerpt: Option<string>,
    coverImage: string,
    author: Id,
    tags: seq<string>,
    category: string,
    published: bool,
    publishedAt: Option<Time>,
    views: nat,
    readingTime: nat,
    reactions: Reactions,
    commentsCount: nat,
    createdAt: Time,
    updatedAt: Time)

  /** The setter of one tag: trimmed, then lowercased. */
  function NormalizeTag(t: string): (r: string)
    ensures NormalTag(r)
  {
    ToLowerTrimmed(Trim(t));
    ToLower(Trim(t))
  }

  /** A tag as the setter leaves it: trimmed and lowercase. */
  predicate NormalTag(t: string)
  {
    Trimmed(t) && Lowercase(t)
  }

  /** The setter leaves a normal tag unchanged. */
  lemma NormalTagFixed(t: string)
    requires NormalTag(t)
    ensures NormalizeTag(t) == t
  {
    TrimFixes(t);
    ToLowerFixes(t);
  }

  /** Normalising a tag twice is normalising it once. */
  lemma NormalizeTagIdempotent(t: string)
    ensures NormalizeTag(NormalizeTag(t)) == NormalizeTag(t)
  {
    NormalTagFixed(NormalizeTag(t));
  }

  function NormalizeTags(tags: seq<string>): (r: seq<string>)
    ensures |r| == |tags|
    ensures forall i :: 0 <= i < |r| ==> r[i] == NormalizeTag(tags[i])
  {
    seq(|tags|, i requires 0 <= i < |tags| => NormalizeTag(tags[i]))
  }

  /** What the setters guarantee of every stored article: the title is
      trimmed, the slug lowercase, each tag trimmed and lowercase. */
  predicate Normalized(a: Article)
  {
    && Trimmed(a.title)
    && Lowercase(a.slug)
    && forall i :: 0 <= i < |a.tags| ==> NormalTag(a.tags[i])
  }

  /** A normalized article is a fixpoint of its setters: assigning its own
      title, slug or tags back changes nothing. */
  lemma NormalizedFixed(a: Article)
    requires Normalized(a)
    ensures Trim(a.title) == a.title && ToLower(a.slug) == a.slug && NormalizeTags(a.tags) == a.tags
  {
    TrimFixes(a.title);
    ToLowerFixes(a.slug);
    forall i | 0 <= i < |a.tags| ensures NormalizeTag(a.tags[i]) == a.tags[i] {
      NormalTagFixed(a.tags[i]);
    }
  }

  /** The schema validators run on save: title, slug and content required
      (present and non-empty), title at most 200 characters, excerpt at most
      300. (The author is required too; an `Id` is always present.) */
  predicate Validates(a: Article)
  {
    && a.title != "" && |a.title| <= TitleMaxLength
    && a.slug != ""
    && a.content != ""
    && (a.excerpt.Some? ==> |a.excerpt.value| <= ExcerptMaxLength)
  }

  /** The fields handed to `Article.create`; `None` is an absent field. */
  datatype ArticleFields = ArticleFields(
    title: string,
    slug: string,
    content: string,
    excerpt: Option<string>,
    coverImage: Option<string>,
    author: Id,
    tags: seq<string>,
    category: Option<string>,
    readingTime: Option<nat>,
    published: Option<bool>,
    publishedAt: Option<Time>)

  /** A new document: setters applied to the given fields, schema defaults
      for the absent ones, both timestamps set to `now`. */
  function Construct(f: ArticleFields, now: Time): (a: Article)
    ensures Normalized(a)
    ensures a.title == Trim(f.title) && a.slug == ToLower(f.slug) && a.content == f.content
    ensures a.excerpt == f.excerpt && a.author == f.author && a.publishedAt == f.publishedAt
    ensures a.tags == NormalizeTags(f.tags)
    ensures a.coverImage == (if f.coverImage.Some? then f.coverImage.value else "")
    ensures a.category == (if f.category.Some? then f.category.value else DefaultCategory)
    ensures a.published == (f.published == Some(true))
    ensures a.readingTime == (if f.readingTime.Some? then f.readingTime.value else 0)
    ensures a.views == 0 && a.commentsCount == 0 && a.reactions == NoReactions
    ensures a.createdAt == now && a.updatedAt == now
  {
    var a := Article(
      Trim(f.title), ToLower(f.slug), f.content, f.excerpt,
      if f.coverImage.Some? then f.coverImage.value else "",
      f.author, NormalizeTags(f.tags),
      if f.category.Some? then f.category.value else DefaultCategory,
      f.published == Some(true), f.publishedAt,
      0, if f.readingTime.Some? then f.readingTime.value else 0,
      NoReactions, 0, now, now);
    a
  }

  /** `Article.create(fields)`: the new document if it passes validation,
      else the validation error, which the controller reports as 500. */
  function Create(f: ArticleFields, now: Time): (r: Result<Article>)
    ensures r.Ok? <==> Validates(Construct(f, now))
    ensures r.Ok? ==> r.value == Construct(f, now)
    ensures r.Err? ==> r.status == ServerError
  {
    var a := Construct(f, now);
    if Validates(a) then Ok(a) else Err(ServerError, "Article validation failed")
  }

  /** `article.save()` on a document changed from `before` to `after`: the
      timestamps plugin moves `updatedAt` to `now` only when some field
      actually changed. */
  function Saved(before: Article, after: Article, now: Time): (r: Article)
    ensures r.(updatedAt := after.updatedAt) == after
    ensures r.updatedAt == (if after.(updatedAt := before.updatedAt) == before then before.updatedAt else now)
  {
    if after.(updatedAt := before.updatedAt) == before then before else after.(updatedAt := now)
  }

  /** A new article given only its required fields defaults to no cover
      image, category "General", no tags, a draft never published, and
      every counter at 0. */
  function NewArticle(title: string, slug: string, content: string, author: Id, now: Time): (a: Article)
    ensures a.coverImage == "" && a.category == DefaultCategory && a.tags == []
    ensures !a.published && a.publishedAt == None && a.excerpt == None
    ensures a.views == 0 && a.readingTime == 0 && a.commentsCount == 0
    ensures a.reactions == Reactions(0, 0, 0, 0)
  {
    Construct(ArticleFields(title, slug, content, None, None, author, [], None, None, None, None), now)
  }
}
