/** The comment schema: fields, validators and defaults. */
module CommentModel {
  import opened Common

  const ContentMaxLength: nat := 1000

  /** A comment on an article; `parentComment` is the comment it replies
      to, or `None` (null) for a top-level comment. */
  datatype Comment = Comment(
    articleId: Id,
    author: Id,
    content: string,
    parentComment: Option<Id>,
    likes: nat,
    edited: bool,
    createdAt: Time,
    updatedAt: Time)

  /** The validators run on save: content required (non-empty) and at most
      1000 characters. (Article and author are required too; an `Id` is
      always present.) */
  predicate Validates(c: Comment)
  {
    c.content != "" && |c.content| <= ContentMaxLength
  }

  /** A new comment: the given fields, no likes, not edited, both
      timestamps `now`. An absent parent is stored as null. */
  function Construct(articleId: Id, author: Id, content: string, parentComment: Option<Id>, now: Time): (c: Comment)
    ensures c.articleId == articleId && c.author == author && c.content == content
    ensures c.parentComment == parentComment
    ensures c.likes == 0 && !c.edited
    ensures c.createdAt == now && c.updatedAt == now
  {
    Comment(articleId, author, content, parentComment, 0, false, now, now)
  }

  /** `Comment.create(...)`: the new document if it passes validation, else
      the validation error, reported as 500. */
  function Create(articleId: Id, author: Id, content: string, parentComment: Option<Id>, now: Time): (r: Result<Comment>)
    ensures r.Ok? <==> content != "" && |content| <= ContentMaxLength
    ensures r.Ok? ==> r.value == Construct(articleId, author, content, parentComment, now)
    ensures r.Err? ==> r.status == ServerError
  {
    var c := Construct(articleId, author, content, parentComment, now);
    if Validates(c) then Ok(c) else Err(ServerError, "Comment validation failed")
  }

  /** `comment.save()` on a document changed from `before` to `after`:
      `updatedAt` moves to `now` only when some field changed. This is the
      rule of `ArticleModel.Saved`; every schema enables the same
      `timestamps` option, and each is written out for its own record type. */
  function Saved(before: Comment, after: Comment, now: Time): (r: Comment)
    ensures r.(updatedAt := after.updatedAt) == after
    ensures r.updatedAt == (if after.(updatedAt := before.updatedAt) == before then before.updatedAt else now)
  {
    if after.(updatedAt := before.updatedAt) == before then before else after.(updatedAt := now)
  }
}
