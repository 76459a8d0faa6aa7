/** The public profile route `GET /api/users/:username`: a user, without
    the password, and that user's published articles, newest first, in a
    reduced form without their content. */
module UsersRoute {
  import opened Common
  import opened JsString
  import opened UserModel
  import ArticleModel
  import opened Sorting
  import ArticleController

  type Article = ArticleModel.Article

  /** The projection `'title slug excerpt publishedAt views reactions tags
      readingTime'`, with the id that is always selected. */
  datatype ArticleSummary = ArticleSummary(id: Id, title: string, slug: string, excerpt: Option<string>,
                                           publishedAt: Option<Time>, views: nat,
                                           reactions: ArticleModel.Reactions, tags: seq<string>, readingTime: nat)

  function Summary(id: Id, a: Article): ArticleSummary
  {
    ArticleSummary(id, a.title, a.slug, a.excerpt, a.publishedAt, a.views, a.reactions, a.tags, a.readingTime)
  }

  /** The response body. */
  datatype Profile = Profile(user: PublicUser, articles: seq<ArticleSummary>)

  /** `Article.find({ author, published: true })`. */
  function AuthoredPublished(articles: map<Id, Article>, author: Id): set<Id>
  {
    set id | id in articles && articles[id].author == author && articles[id].published
  }

  /** The author's published articles, newest `publishedAt` first. */
  ghost function AuthorOrder(articles: map<Id, Article>, author: Id): seq<Id>
  {
    SortDescending(AuthoredPublished(articles, author), ArticleController.PublishedKey(articles))
  }

  function Summaries(articles: map<Id, Article>, ids: seq<Id>): (r: seq<ArticleSummary>)
    requires forall i :: 0 <= i < |ids| ==> ids[i] in articles
    ensures |r| == |ids|
    ensures forall i :: 0 <= i < |ids| ==> r[i].id == ids[i] && r[i] == Summary(ids[i], articles[ids[i]])
  {
    seq(|ids|, i requires 0 <= i < |ids| => Summary(ids[i], articles[ids[i]]))
  }

  ghost function ProfileArticles(articles: map<Id, Article>, author: Id): (r: seq<ArticleSummary>)
    ensures |r| == |AuthoredPublished(articles, author)|
    ensures forall i :: 0 <= i < |r| ==>
      r[i].id in AuthoredPublished(articles, author) && r[i] == Summary(r[i].id, articles[r[i].id])
  {
    Summaries(articles, AuthorOrder(articles, author))
  }

  /** Every published article of the author is listed, once, newest
      first; drafts and other authors' articles never are. */
  lemma ProfileArticlesListed(articles: map<Id, Article>, author: Id)
    ensures var r := ProfileArticles(articles, author);
      && (forall id :: id in articles && articles[id].author == author && articles[id].published ==>
            exists i :: 0 <= i < |r| && r[i].id == id)
      && (forall i :: 0 <= i < |r| ==> articles[r[i].id].author == author && articles[r[i].id].published)
      && (forall i, j :: 0 <= i < j < |r| ==>
            && r[i].id != r[j].id
            && AtLeast(ArticleController.PublishedKey(articles)(r[i].id),
                       ArticleController.PublishedKey(articles)(r[j].id)))
  {
    var order := AuthorOrder(articles, author);
    var r := ProfileArticles(articles, author);
    assert forall i :: 0 <= i < |r| ==> r[i].id == order[i];
    forall id | id in articles && articles[id].author == author && articles[id].published
      ensures exists i :: 0 <= i < |r| && r[i].id == id
    {
      assert id in AuthoredPublished(articles, author);
      var i :| 0 <= i < |order| && order[i] == id;
      assert r[i].id == id;
    }
  }

  /** The route: the username goes through the username setter as a query
      value; 404 when no user has it, otherwise the user without the
      password and the published articles. */
  ghost function GetUserProfile(users: map<Id, User>, articles: map<Id, Article>, username: string): (r: Result<Profile>)
    ensures r.Err? <==> !exists id :: id in users && users[id].username == Trim(username)
    ensures r.Err? ==> r == Err(NotFound, "User not found")
    ensures r.Ok? ==> exists id :: id in users && users[id].username == Trim(username)
                                 && r.value.user == ToJson(users[id])
                                 && r.value.articles == ProfileArticles(articles, id)
  {
    var name := NormalizeUsername(username);
    if exists id :: id in users && users[id].username == name then
      var id :| id in users && users[id].username == name;
      Ok(Profile(ToJson(users[id]), ProfileArticles(articles, id)))
    else
      Err(NotFound, "User not found")
  }
}
