/** The comment endpoints: the threaded listing of an article's comments,
    and creating, editing and deleting a comment, each of which keeps the
    article's `commentsCount` equal to the number of its stored comments. */
module CommentController {
  import opened Common
  import CommentModel
  import ArticleModel
  import opened Database
  import opened Sorting

  // ---------------------------------------------------------------------
  // getComments
  // ---------------------------------------------------------------------

  /** The top-level comments of an article: `{ articleId, parentComment: null }`. */
  function TopLevel(comments: map<Id, Comment>, articleId: Id): set<Id>
  {
    set id | id in comments && comments[id].articleId == articleId && comments[id].parentComment == None
  }

  /** The replies to a comment: `{ parentComment: id }`, whatever article
      they name. */
  function RepliesTo(comments: map<Id, Comment>, parent: Id): set<Id>
  {
    set id | id in comments && comments[id].parentComment == Some(parent)
  }

  /** `.sort({ createdAt: -1 })`: newest first. */
  function NewestFirst(comments: map<Id, Comment>): Id -> SortKey
  {
    id => if id in comments then SortKey(comments[id].createdAt, 0) else SortKey(0, 0)
  }

  /** `.sort({ createdAt: 1 })`: oldest first, as a descending sort on the
      negated time. */
  function OldestFirst(comments: map<Id, Comment>): Id -> SortKey
  {
    id => if id in comments then SortKey(-(comments[id].createdAt as int), 0) else SortKey(0, 0)
  }

  /** One entry of the response: a top-level comment with its replies. */
  datatype Thread = Thread(id: Id, comment: Comment, replies: seq<Id>)

  ghost function ReplyOrder(comments: map<Id, Comment>, parent: Id): seq<Id>
  {
    SortDescending(RepliesTo(comments, parent), OldestFirst(comments))
  }

  ghost function TopOrder(comments: map<Id, Comment>, articleId: Id): seq<Id>
  {
    SortDescending(TopLevel(comments, articleId), NewestFirst(comments))
  }

  /** Each top-level comment with its sorted replies. */
  ghost function Threads(comments: map<Id, Comment>, ids: seq<Id>): (r: seq<Thread>)
    requires forall i :: 0 <= i < |ids| ==> ids[i] in comments
    ensures |r| == |ids|
    ensures forall i :: 0 <= i < |ids| ==> r[i] == Thread(ids[i], comments[ids[i]], ReplyOrder(comments, ids[i]))
  {
    seq(|ids|, i requires 0 <= i < |ids| => Thread(ids[i], comments[ids[i]], ReplyOrder(comments, ids[i])))
  }

  /** `getComments`: the article's top-level comments, newest first, each
      with its direct replies, oldest first. */
  ghost function GetComments(comments: map<Id, Comment>, articleId: Id): (r: seq<Thread>)
    ensures |r| == |TopLevel(comments, articleId)|
    ensures forall i :: 0 <= i < |r| ==>
      && r[i].id in TopLevel(comments, articleId)
      && r[i].comment == comments[r[i].id]
      && r[i].replies == ReplyOrder(comments, r[i].id)
  {
    Threads(comments, TopOrder(comments, articleId))
  }

  /** The threads follow the sorted top-level comments. */
  lemma ThreadIds(comments: map<Id, Comment>, articleId: Id)
    ensures var r := GetComments(comments, articleId);
      forall i :: 0 <= i < |r| ==> r[i].id == TopOrder(comments, articleId)[i]
  {
  }

  /** Every top-level comment of the article has a thread. */
  lemma ThreadsCovered(comments: map<Id, Comment>, articleId: Id)
    ensures var r := GetComments(comments, articleId);
      forall id :: id in TopLevel(comments, articleId) ==> exists i :: 0 <= i < |r| && r[i].id == id
  {
    var top := TopOrder(comments, articleId);
    var r := GetComments(comments, articleId);
    ThreadIds(comments, articleId);
    forall id | id in TopLevel(comments, articleId) ensures exists i :: 0 <= i < |r| && r[i].id == id {
      var i :| 0 <= i < |top| && top[i] == id;
      assert r[i].id == id;
    }
  }

  /** Threads come newest first, each comment once. */
  lemma ThreadsNewestFirst(comments: map<Id, Comment>, articleId: Id)
    ensures var r := GetComments(comments, articleId);
      forall i, j :: 0 <= i < j < |r| ==> r[i].id != r[j].id && r[i].comment.createdAt >= r[j].comment.createdAt
  {
    var top := TopOrder(comments, articleId);
    var r := GetComments(comments, articleId);
    ThreadIds(comments, articleId);
    forall i, j | 0 <= i < j < |r| ensures r[i].id != r[j].id && r[i].comment.createdAt >= r[j].comment.createdAt {
      assert AtLeast(NewestFirst(comments)(top[i]), NewestFirst(comments)(top[j]));
    }
  }

  /** Every top-level comment of the article is listed once, newest first. */
  lemma ThreadsListed(comments: map<Id, Comment>, articleId: Id)
    ensures var r := GetComments(comments, articleId);
      && (forall id :: id in TopLevel(comments, articleId) ==> exists i :: 0 <= i < |r| && r[i].id == id)
      && (forall i, j :: 0 <= i < j < |r| ==>
            r[i].id != r[j].id && r[i].comment.createdAt >= r[j].comment.createdAt)
  {
    ThreadsCovered(comments, articleId);
    ThreadsNewestFirst(comments, articleId);
  }

  /** The replies of a thread are exactly the comments naming it as their
      parent, each once, oldest first. */
  lemma RepliesListed(comments: map<Id, Comment>, parent: Id)
    ensures var s := ReplyOrder(comments, parent);
      && (forall i :: 0 <= i < |s| ==> s[i] in comments && comments[s[i]].parentComment == Some(parent))
      && (forall id :: id in comments && comments[id].parentComment == Some(parent) ==> id in s)
      && (forall i, j :: 0 <= i < j < |s| ==>
            s[i] != s[j] && comments[s[i]].createdAt <= comments[s[j]].createdAt)
  {
    var s := ReplyOrder(comments, parent);
    forall i, j | 0 <= i < j < |s|
      ensures s[i] != s[j] && comments[s[i]].createdAt <= comments[s[j]].createdAt
    {
      assert AtLeast(OldestFirst(comments)(s[i]), OldestFirst(comments)(s[j]));
    }
  }

  /** Threads are one level deep: a reply to a reply is neither a thread
      nor among the replies of any thread. */
  lemma ReplyToReplyHidden(comments: map<Id, Comment>, articleId: Id, id: Id)
    requires id in comments && comments[id].parentComment.Some?
    requires var p := comments[id].parentComment.value;
      p in comments && comments[p].parentComment.Some?
    ensures var r := GetComments(comments, articleId);
      forall i :: 0 <= i < |r| ==> r[i].id != id && id !in r[i].replies
  {
    var r := GetComments(comments, articleId);
    forall i | 0 <= i < |r| ensures r[i].id != id && id !in r[i].replies {
      RepliesListed(comments, r[i].id);
    }
  }

  // ---------------------------------------------------------------------
  // createComment
  // ---------------------------------------------------------------------

  /** `createComment`: 400 without content, 404 for a missing article, 500
      when the content is too long; otherwise the comment is stored and the
      article's counter goes up by one. */
  method CreateComment(db: Store, actor: Id, articleId: Id, content: Option<string>, parentComment: Option<Id>,
                       freshId: Id, now: Time) returns (r: Result<Comment>)
    requires db.Valid() && freshId !in db.issued
    modifies db
    ensures db.Valid()
    ensures !Truthy(content) ==> r == Err(BadRequest, "Comment content is required")
    ensures Truthy(content) && articleId !in old(db.articles) ==> r == Err(NotFound, "Article not found")
    ensures Truthy(content) && articleId in old(db.articles) ==>
      if |content.value| <= CommentModel.ContentMaxLength
      then r == Ok(CommentModel.Construct(articleId, actor, content.value, parentComment, now))
      else r.Err? && r.status == ServerError
    ensures r.Ok? ==>
      && db.comments == old(db.comments)[freshId := r.value]
      && db.articles == old(db.articles)[articleId := ArticleModel.Saved(old(db.articles[articleId]),
                                                                         old(db.articles[articleId]).(commentsCount := old(db.articles[articleId].commentsCount) + 1), now)]
      && db.articles[articleId].commentsCount == old(db.articles[articleId].commentsCount) + 1
      && db.users == old(db.users) && db.issued == old(db.issued) + {freshId}
    ensures r.Err? ==> unchanged(db)
  {
    if !Truthy(content) {
      return Err(BadRequest, "Comment content is required");
    }
    if articleId !in db.articles {
      return Err(NotFound, "Article not found");
    }
    r := CommentModel.Create(articleId, actor, content.value, parentComment, now);
    if r.Ok? {
      var before := db.articles[articleId];
      var after := ArticleModel.Saved(before, before.(commentsCount := before.commentsCount + 1), now);
      CounterKeepsStored(before, before.commentsCount + 1, now);
      db.InsertComment(freshId, r.value, after);
    }
  }

  // ---------------------------------------------------------------------
  // updateComment
  // ---------------------------------------------------------------------

  /** The comment after `comment.content = content; comment.edited = true`,
      before saving. */
  function Edited(c: Comment, content: string): (r: Comment)
    ensures r.content == content && r.edited
    ensures r.(content := c.content, edited := c.edited) == c
  {
    c.(content := content, edited := true)
  }

  /** `updateComment`: 404 for a missing comment, 403 for someone else's;
      otherwise the new content replaces the old and the comment is marked
      edited. An absent or empty content fails the `required` validator and
      one over 1000 characters the length validator, both as 500. */
  method UpdateComment(db: Store, actor: Id, id: Id, content: Option<string>, now: Time) returns (r: Result<Comment>)
    requires db.Valid()
    modifies db
    ensures db.Valid()
    ensures id !in old(db.comments) ==> r == Err(NotFound, "Comment not found")
    ensures id in old(db.comments) && old(db.comments[id].author) != actor ==> r == Err(Forbidden, "Not authorized")
    ensures id in old(db.comments) && old(db.comments[id].author) == actor ==>
      if Truthy(content) && |content.value| <= CommentModel.ContentMaxLength
      then r == Ok(CommentModel.Saved(old(db.comments[id]), Edited(old(db.comments[id]), content.value), now))
      else r.Err? && r.status == ServerError
    ensures r.Ok? ==> db.comments == old(db.comments)[id := r.value]
    ensures r.Ok? ==> db.articles == old(db.articles) && db.users == old(db.users) && db.issued == old(db.issued)
    ensures r.Err? ==> unchanged(db)
  {
    if id !in db.comments {
      return Err(NotFound, "Comment not found");
    }
    var before := db.comments[id];
    if before.author != actor {
      return Err(Forbidden, "Not authorized");
    }
    if content.None? {
      return Err(ServerError, "Comment content is required");
    }
    var after := Edited(before, content.value);
    if !CommentModel.Validates(after) {
      return Err(ServerError, "Comment validation failed");
    }
    var saved := CommentModel.Saved(before, after, now);
    db.ReplaceComment(id, saved);
    r := Ok(saved);
  }

  // ---------------------------------------------------------------------
  // deleteComment
  // ---------------------------------------------------------------------

  /** `Math.max(0, count - 1)`. */
  function Decrement(count: nat): (r: nat)
    ensures count >= 1 ==> r + 1 == count
    ensures count == 0 ==> r == 0
  {
    if count >= 1 then count - 1 else 0
  }

  /** `deleteComment`: 404 for a missing comment, 403 for someone else's;
      otherwise the comment is removed (its replies stay) and, when its
      article still exists, the article's counter goes down by one. */
  method DeleteComment(db: Store, actor: Id, id: Id, now: Time) returns (r: Result<string>)
    requires db.Valid()
    modifies db
    ensures db.Valid()
    ensures id !in old(db.comments) ==> r == Err(NotFound, "Comment not found")
    ensures id in old(db.comments) && old(db.comments[id].author) != actor ==> r == Err(Forbidden, "Not authorized")
    ensures id in old(db.comments) && old(db.comments[id].author) == actor ==> r == Ok("Comment deleted successfully")
    ensures r.Ok? ==> db.comments == old(db.comments) - {id}
    ensures r.Ok? ==>
      var aid := old(db.comments[id].articleId);
      if aid in old(db.articles) then
        && db.articles == old(db.articles)[aid := ArticleModel.Saved(old(db.articles[aid]),
                                                                   old(db.articles[aid]).(commentsCount := Decrement(old(db.articles[aid].commentsCount))), now)]
        && db.articles[aid].commentsCount + 1 == old(db.articles[aid].commentsCount)
      else db.articles == old(db.articles)
    ensures r.Ok? ==> db.users == old(db.users) && db.issued == old(db.issued)
    ensures r.Err? ==> unchanged(db)
  {
    if id !in db.comments {
      return Err(NotFound, "Comment not found");
    }
    if db.comments[id].author != actor {
      return Err(Forbidden, "Not authorized");
    }
    var aid := db.comments[id].articleId;
    var after: Option<Article> := None;
    if aid in db.articles {
      var before := db.articles[aid];
      CountedCommentPositive(db.articles, db.comments, id);
      after := Some(ArticleModel.Saved(before, before.(commentsCount := Decrement(before.commentsCount)), now));
      CounterKeepsStored(before, Decrement(before.commentsCount), now);
    }
    db.RemoveComment(id, after);
    r := Ok("Comment deleted successfully");
  }
}
