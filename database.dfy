/** The three collections the controllers read and write, held by one
    `Store`, and the consistency the controllers keep between them. */
module Database {
  import opened Common
  import ArticleModel
  import CommentModel
  import UserModel

  type Article = ArticleModel.Article
  type Comment = CommentModel.Comment
  type User = UserModel.User

  /** The stored comments that belong to the article `articleId`. */
  function CommentsOf(comments: map<Id, Comment>, articleId: Id): set<Id>
  {
    set c | c in comments && comments[c].articleId == articleId
  }

  /** The slugs in use. */
  function Slugs(articles: map<Id, Article>): set<string>
  {
    set id | id in articles :: articles[id].slug
  }

  /** Every stored article passed validation, went through the setters,
      and carries a publication time if it is published. */
  predicate StoredArticle(a: Article)
  {
    ArticleModel.Normalized(a) && ArticleModel.Validates(a) && (a.published ==> a.publishedAt.Some?)
  }

  predicate SlugsUnique(articles: map<Id, Article>)
  {
    forall i, j :: i in articles && j in articles && i != j ==> articles[i].slug != articles[j].slug
  }

  /** The denormalised counter: each article's `commentsCount` is the
      number of stored comments that belong to it. */
  predicate CountsMatch(articles: map<Id, Article>, comments: map<Id, Comment>)
  {
    forall i :: i in articles ==> articles[i].commentsCount == |CommentsOf(comments, i)|
  }

  /** A stored user passed the setters and every validator; the stored
      password is the hash, which `save()` validates like any loaded path. */
  predicate StoredUser(u: User)
  {
    UserModel.Normalized(u) && UserModel.Validates(u)
  }

  /** The unique indexes on username and email. */
  predicate UsersUnique(users: map<Id, User>)
  {
    forall i, j :: i in users && j in users && i != j ==>
      users[i].username != users[j].username && users[i].email != users[j].email
  }

  /** Every id in use, including the article each comment points to, was
      issued before; a fresh id is one never issued. */
  predicate IdsIssued(articles: map<Id, Article>, comments: map<Id, Comment>, users: map<Id, User>, issued: set<Id>)
  {
    && articles.Keys <= issued && comments.Keys <= issued && users.Keys <= issued
    && forall c :: c in comments ==> comments[c].articleId in issued
  }

  predicate ArticlesStored(articles: map<Id, Article>)
  {
    forall i :: i in articles ==> StoredArticle(articles[i])
  }

  predicate CommentsStored(comments: map<Id, Comment>)
  {
    forall c :: c in comments ==> CommentModel.Validates(comments[c])
  }

  predicate UsersStored(users: map<Id, User>)
  {
    forall u :: u in users ==> StoredUser(users[u])
  }

  predicate Consistent(articles: map<Id, Article>, comments: map<Id, Comment>, users: map<Id, User>, issued: set<Id>)
  {
    && ArticlesStored(articles)
    && SlugsUnique(articles)
    && CountsMatch(articles, comments)
    && CommentsStored(comments)
    && UsersStored(users)
    && UsersUnique(users)
    && IdsIssued(articles, comments, users, issued)
  }

  /** The database: one map per collection, keyed by document id. */
  class Store {
    var articles: map<Id, Article>
    var comments: map<Id, Comment>
    var users: map<Id, User>
    ghost var issued: set<Id>

    ghost predicate Valid()
      reads this
    {
      Consistent(articles, comments, users, issued)
    }

    constructor ()
      ensures Valid()
      ensures articles == map[] && comments == map[] && users == map[] && issued == {}
    {
      articles, comments, users := map[], map[], map[];
      issued := {};
    }

    /** `Article.create`: a new, valid article with an unused slug and no
        comments, under a fresh id. */
    method InsertArticle(id: Id, a: Article)
      requires Valid() && id !in issued
      requires StoredArticle(a) && a.slug !in Slugs(articles) && a.commentsCount == 0
      modifies this
      ensures Valid()
      ensures articles == old(articles)[id := a] && issued == old(issued) + {id}
      ensures comments == old(comments) && users == old(users)
    {
      InsertArticleConsistent(articles, comments, users, issued, id, a);
      articles := articles[id := a];
      issued := issued + {id};
    }

    /** `article.save()` on an existing article that keeps its slug and its
        comment count. */
    method ReplaceArticle(id: Id, a: Article)
      requires Valid() && id in articles && StoredArticle(a)
      requires a.slug == articles[id].slug && a.commentsCount == articles[id].commentsCount
      modifies this
      ensures Valid()
      ensures articles == old(articles)[id := a]
      ensures comments == old(comments) && users == old(users) && issued == old(issued)
    {
      ReplaceArticleConsistent(articles, comments, users, issued, id, a);
      articles := articles[id := a];
    }

    /** `article.deleteOne()`: its comments are not deleted with it. */
    method RemoveArticle(id: Id)
      requires Valid()
      modifies this
      ensures Valid()
      ensures articles == old(articles) - {id}
      ensures comments == old(comments) && users == old(users) && issued == old(issued)
    {
      RemoveArticleConsistent(articles, comments, users, issued, id);
      articles := articles - {id};
    }

    /** `Comment.create` followed by saving the article with its counter
        raised by one. */
    method InsertComment(id: Id, c: Comment, a: Article)
      requires Valid() && id !in issued && CommentModel.Validates(c) && c.articleId in articles
      requires StoredArticle(a) && a.slug == articles[c.articleId].slug
      requires a.commentsCount == articles[c.articleId].commentsCount + 1
      modifies this
      ensures Valid()
      ensures comments == old(comments)[id := c] && articles == old(articles)[c.articleId := a]
      ensures users == old(users) && issued == old(issued) + {id}
    {
      InsertCommentConsistent(articles, comments, users, issued, id, c, a);
      comments := comments[id := c];
      articles := articles[c.articleId := a];
      issued := issued + {id};
    }

    /** `comment.save()` on a comment that stays on its article. */
    method ReplaceComment(id: Id, c: Comment)
      requires Valid() && id in comments && CommentModel.Validates(c)
      requires c.articleId == comments[id].articleId
      modifies this
      ensures Valid()
      ensures comments == old(comments)[id := c]
      ensures articles == old(articles) && users == old(users) && issued == old(issued)
    {
      ReplaceCommentConsistent(articles, comments, users, issued, id, c);
      comments := comments[id := c];
    }

    /** `comment.deleteOne()`, with the article, when it still exists,
        saved as `a` with its counter lowered by one; `None` when the
        article is gone. */
    method RemoveComment(id: Id, a: Option<Article>)
      requires Valid() && id in comments
      requires a.Some? <==> comments[id].articleId in articles
      requires a.Some? ==>
        && StoredArticle(a.value) && a.value.slug == articles[comments[id].articleId].slug
        && a.value.commentsCount + 1 == articles[comments[id].articleId].commentsCount
      modifies this
      ensures Valid()
      ensures comments == old(comments) - {id}
      ensures articles == (if a.Some? then old(articles)[old(comments[id].articleId) := a.value] else old(articles))
      ensures users == old(users) && issued == old(issued)
    {
      var aid := comments[id].articleId;
      RemoveCommentConsistent(articles, comments, users, issued, id, a);
      if a.Some? {
        articles := articles[aid := a.value];
      }
      comments := comments - {id};
    }

    /** `User.create`: a new, valid user whose username and email are both
        unused, under a fresh id. */
    method InsertUser(id: Id, u: User)
      requires Valid() && id !in issued && StoredUser(u)
      requires forall k :: k in users ==> users[k].username != u.username && users[k].email != u.email
      modifies this
      ensures Valid()
      ensures users == old(users)[id := u] && issued == old(issued) + {id}
      ensures articles == old(articles) && comments == old(comments)
    {
      InsertUserConsistent(articles, comments, users, issued, id, u);
      users := users[id := u];
      issued := issued + {id};
    }

    /** `user.save()` on a user that keeps its username and email. */
    method ReplaceUser(id: Id, u: User)
      requires Valid() && id in users && StoredUser(u)
      requires u.username == users[id].username && u.email == users[id].email
      modifies this
      ensures Valid()
      ensures users == old(users)[id := u]
      ensures articles == old(articles) && comments == old(comments) && issued == old(issued)
    {
      ReplaceUserConsistent(articles, comments, users, issued, id, u);
      users := users[id := u];
    }
  }

  // ---------------------------------------------------------------------
  // How the comment counts move when one comment is added, removed or
  // rewritten.
  // ---------------------------------------------------------------------

  lemma CommentsOfInsert(comments: map<Id, Comment>, id: Id, c: Comment, articleId: Id)
    requires id !in comments
    ensures CommentsOf(comments[id := c], articleId)
         == if c.articleId == articleId then CommentsOf(comments, articleId) + {id} else CommentsOf(comments, articleId)
    ensures |CommentsOf(comments[id := c], articleId)|
         == |CommentsOf(comments, articleId)| + (if c.articleId == articleId then 1 else 0)
  {
    var before, after := CommentsOf(comments, articleId), CommentsOf(comments[id := c], articleId);
    if c.articleId == articleId {
      assert after == before + {id};
    } else {
      assert after == before;
    }
  }

  lemma CommentsOfRemove(comments: map<Id, Comment>, id: Id, articleId: Id)
    requires id in comments
    ensures CommentsOf(comments - {id}, articleId)
         == if comments[id].articleId == articleId then CommentsOf(comments, articleId) - {id} else CommentsOf(comments, articleId)
    ensures |CommentsOf(comments - {id}, articleId)|
         == |CommentsOf(comments, articleId)| - (if comments[id].articleId == articleId then 1 else 0)
  {
    var before, after := CommentsOf(comments, articleId), CommentsOf(comments - {id}, articleId);
    if comments[id].articleId == articleId {
      assert after == before - {id};
    } else {
      assert after == before;
    }
  }

  lemma CommentsOfReplace(comments: map<Id, Comment>, id: Id, c: Comment, articleId: Id)
    requires id in comments && comments[id].articleId == c.articleId
    ensures CommentsOf(comments[id := c], articleId) == CommentsOf(comments, articleId)
  {
  }

  // ---------------------------------------------------------------------
  // Each kind of write keeps the store consistent.
  // ---------------------------------------------------------------------

  /** Inserting a new, valid article under a fresh id with an unused slug
      and a zero comment count. */
  lemma InsertArticleConsistent(articles: map<Id, Article>, comments: map<Id, Comment>, users: map<Id, User>,
                                issued: set<Id>, id: Id, a: Article)
    requires Consistent(articles, comments, users, issued)
    requires id !in issued && StoredArticle(a) && a.slug !in Slugs(articles) && a.commentsCount == 0
    ensures Consistent(articles[id := a], comments, users, issued + {id})
  {
    var articles' := articles[id := a];
    assert CommentsOf(comments, id) == {};
    forall i, j | i in articles' && j in articles' && i != j
      ensures articles'[i].slug != articles'[j].slug
    {
      if i == id {
        assert articles'[j].slug in Slugs(articles);
      } else if j == id {
        assert articles'[i].slug in Slugs(articles);
      }
    }
  }

  /** Replacing an article by a valid one with the same slug and count. */
  lemma ReplaceArticleConsistent(articles: map<Id, Article>, comments: map<Id, Comment>, users: map<Id, User>,
                                 issued: set<Id>, id: Id, a: Article)
    requires Consistent(articles, comments, users, issued)
    requires id in articles && StoredArticle(a)
    requires a.slug == articles[id].slug && a.commentsCount == articles[id].commentsCount
    ensures Consistent(articles[id := a], comments, users, issued)
  {
  }

  /** Removing an article: its comments stay behind and are no longer
      counted anywhere. */
  lemma RemoveArticleConsistent(articles: map<Id, Article>, comments: map<Id, Comment>, users: map<Id, User>,
                                issued: set<Id>, id: Id)
    requires Consistent(articles, comments, users, issued)
    ensures Consistent(articles - {id}, comments, users, issued)
  {
  }

  /** Inserting a new, valid comment on an existing article under a fresh
      id, together with that article's counter raised by one. */
  lemma InsertCommentConsistent(articles: map<Id, Article>, comments: map<Id, Comment>, users: map<Id, User>,
                                issued: set<Id>, id: Id, c: Comment, a: Article)
    requires Consistent(articles, comments, users, issued)
    requires id !in issued && CommentModel.Validates(c) && c.articleId in articles
    requires StoredArticle(a) && a.slug == articles[c.articleId].slug
    requires a.commentsCount == articles[c.articleId].commentsCount + 1
    ensures Consistent(articles[c.articleId := a], comments[id := c], users, issued + {id})
  {
    CountsInsert(articles, comments, id, c, a);
    CommentsStoredUpdate(comments, id, c);
    ArticlesStoredUpdate(articles, c.articleId, a);
    SlugsUniqueReplace(articles, c.articleId, a);
  }

  lemma CountsInsert(articles: map<Id, Article>, comments: map<Id, Comment>, id: Id, c: Comment, a: Article)
    requires CountsMatch(articles, comments) && id !in comments && c.articleId in articles
    requires a.commentsCount == articles[c.articleId].commentsCount + 1
    ensures CountsMatch(articles[c.articleId := a], comments[id := c])
  {
    var articles', comments' := articles[c.articleId := a], comments[id := c];
    forall i | i in articles' ensures articles'[i].commentsCount == |CommentsOf(comments', i)| {
      CommentsOfInsert(comments, id, c, i);
    }
  }

  lemma CommentsStoredUpdate(comments: map<Id, Comment>, id: Id, c: Comment)
    requires CommentsStored(comments) && CommentModel.Validates(c)
    ensures CommentsStored(comments[id := c])
  {
  }

  lemma ArticlesStoredUpdate(articles: map<Id, Article>, id: Id, a: Article)
    requires ArticlesStored(articles) && StoredArticle(a)
    ensures ArticlesStored(articles[id := a])
  {
    var articles' := articles[id := a];
    forall k | k in articles' ensures StoredArticle(articles'[k]) {
      if k != id {
        assert articles'[k] == articles[k];
      }
    }
  }

  lemma SlugsUniqueReplace(articles: map<Id, Article>, id: Id, a: Article)
    requires SlugsUnique(articles) && id in articles && a.slug == articles[id].slug
    ensures SlugsUnique(articles[id := a])
  {
    var articles' := articles[id := a];
    forall i, j | i in articles' && j in articles' && i != j ensures articles'[i].slug != articles'[j].slug {
      assert articles'[i].slug == articles[i].slug && articles'[j].slug == articles[j].slug;
    }
  }

  /** Rewriting a comment without moving it to another article. */
  lemma ReplaceCommentConsistent(articles: map<Id, Article>, comments: map<Id, Comment>, users: map<Id, User>,
                                 issued: set<Id>, id: Id, c: Comment)
    requires Consistent(articles, comments, users, issued)
    requires id in comments && CommentModel.Validates(c) && c.articleId == comments[id].articleId
    ensures Consistent(articles, comments[id := c], users, issued)
  {
    forall i | i in articles ensures articles[i].commentsCount == |CommentsOf(comments[id := c], i)| {
      CommentsOfReplace(comments, id, c, i);
    }
    CommentsStoredUpdate(comments, id, c);
  }

  /** Removing a comment, with the counter of its article (if that article
      still exists) lowered by one. */
  lemma RemoveCommentConsistent(articles: map<Id, Article>, comments: map<Id, Comment>, users: map<Id, User>,
                                issued: set<Id>, id: Id, a: Option<Article>)
    requires Consistent(articles, comments, users, issued)
    requires id in comments
    requires var aid := comments[id].articleId;
      && (a.Some? <==> aid in articles)
      && (a.Some? ==>
            && StoredArticle(a.value) && a.value.slug == articles[aid].slug
            && a.value.commentsCount + 1 == articles[aid].commentsCount)
    ensures var aid := comments[id].articleId;
      Consistent(if a.Some? then articles[aid := a.value] else articles, comments - {id}, users, issued)
  {
    var aid := comments[id].articleId;
    if a.Some? {
      CountsRemove(articles, comments, id, a.value);
      ArticlesStoredUpdate(articles, aid, a.value);
      SlugsUniqueReplace(articles, aid, a.value);
    } else {
      CountsRemoveOrphan(articles, comments, id);
    }
  }

  lemma CountsRemove(articles: map<Id, Article>, comments: map<Id, Comment>, id: Id, a: Article)
    requires CountsMatch(articles, comments) && id in comments && comments[id].articleId in articles
    requires a.commentsCount + 1 == articles[comments[id].articleId].commentsCount
    ensures CountsMatch(articles[comments[id].articleId := a], comments - {id})
  {
    var articles', comments' := articles[comments[id].articleId := a], comments - {id};
    forall i | i in articles' ensures articles'[i].commentsCount == |CommentsOf(comments', i)| {
      CommentsOfRemove(comments, id, i);
    }
  }

  lemma CountsRemoveOrphan(articles: map<Id, Article>, comments: map<Id, Comment>, id: Id)
    requires CountsMatch(articles, comments) && id in comments && comments[id].articleId !in articles
    ensures CountsMatch(articles, comments - {id})
  {
    forall i | i in articles ensures articles[i].commentsCount == |CommentsOf(comments - {id}, i)| {
      CommentsOfRemove(comments, id, i);
    }
  }

  /** Changing only an article's comment counter, and saving it, keeps it
      storable with the same slug. */
  lemma CounterKeepsStored(a: Article, n: nat, now: Time)
    requires StoredArticle(a)
    ensures var a' := ArticleModel.Saved(a, a.(commentsCount := n), now);
      StoredArticle(a') && a'.slug == a.slug && a'.commentsCount == n
  {
    var a' := ArticleModel.Saved(a, a.(commentsCount := n), now);
    assert a'.(commentsCount := a.commentsCount, updatedAt := a.updatedAt) == a;
  }

  /** A stored comment is counted by its article, so that article's
      counter is at least one: the floor at 0 in `deleteComment` never
      applies to a consistent store. */
  lemma CountedCommentPositive(articles: map<Id, Article>, comments: map<Id, Comment>, id: Id)
    requires CountsMatch(articles, comments)
    requires id in comments && comments[id].articleId in articles
    ensures articles[comments[id].articleId].commentsCount >= 1
  {
    assert id in CommentsOf(comments, comments[id].articleId);
  }

  /** Inserting a valid new user whose username and email are both unused. */
  lemma InsertUserConsistent(articles: map<Id, Article>, comments: map<Id, Comment>, users: map<Id, User>,
                             issued: set<Id>, id: Id, u: User)
    requires Consistent(articles, comments, users, issued)
    requires id !in issued && StoredUser(u)
    requires forall k :: k in users ==> users[k].username != u.username && users[k].email != u.email
    ensures Consistent(articles, comments, users[id := u], issued + {id})
  {
    UsersStoredUpdate(users, id, u);
    UsersUniqueInsert(users, id, u);
  }

  /** Replacing a user by a valid one with the same username and email. */
  lemma ReplaceUserConsistent(articles: map<Id, Article>, comments: map<Id, Comment>, users: map<Id, User>,
                              issued: set<Id>, id: Id, u: User)
    requires Consistent(articles, comments, users, issued)
    requires id in users && StoredUser(u)
    requires u.username == users[id].username && u.email == users[id].email
    ensures Consistent(articles, comments, users[id := u], issued)
  {
    UsersStoredUpdate(users, id, u);
    UsersUniqueReplace(users, id, u);
  }

  lemma UsersStoredUpdate(users: map<Id, User>, id: Id, u: User)
    requires UsersStored(users) && StoredUser(u)
    ensures UsersStored(users[id := u])
  {
    var users' := users[id := u];
    forall k | k in users' ensures StoredUser(users'[k]) {
      if k != id {
        assert users'[k] == users[k];
      }
    }
  }

  lemma UsersUniqueInsert(users: map<Id, User>, id: Id, u: User)
    requires UsersUnique(users) && id !in users
    requires forall k :: k in users ==> users[k].username != u.username && users[k].email != u.email
    ensures UsersUnique(users[id := u])
  {
  }

  lemma UsersUniqueReplace(users: map<Id, User>, id: Id, u: User)
    requires UsersUnique(users) && id in users
    requires u.username == users[id].username && u.email == users[id].email
    ensures UsersUnique(users[id := u])
  {
    var users' := users[id := u];
    forall i, j | i in users' && j in users' && i != j
      ensures users'[i].username != users'[j].username && users'[i].email != users'[j].email
    {
      assert users'[i].username == users[i].username && users'[i].email == users[i].email;
      assert users'[j].username == users[j].username && users'[j].email == users[j].email;
    }
  }
}
