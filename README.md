# devnest backend — a Dafny model

This project models the server side of devnest, a blogging platform written for Node.js with Express and Mongoose. It covers:

- the article, comment and account endpoints;
- the three Mongoose schemas they store;
- the public profile route;
- the decisions `server.js` takes itself: the CORS allow-list, the 404 reply and the error handler.

The database is a `class Store` (module `Database`). It holds one map per collection (`articles`, `comments`, `users`) and a ghost set of the ids issued so far. Its invariant `Valid()` says:

- every stored document passed its schema's setters and validators;
- slugs are unique;
- usernames and emails are unique;
- every article's `commentsCount` equals the number of stored comments naming it.

Each endpoint that writes is a method on the store. It takes the acting user's id, the current time and a fresh id as parameters, and returns a `Result`: either the response body or an HTTP status with its message. Each such method keeps `Valid()` and states the whole new state. The read-only endpoints are functions over the maps.

Requests are handled one at a time. The wall clock, bcrypt, the JWT signer and the text index are parameters:

- time is a `Time` argument;
- the password hash and token are string arguments;
- `bcrypt.compare` is a `(string, string) -> bool` argument;
- `$text` matching is a `(Article, string) -> bool` argument.

Modules, one per source file plus shared helpers:

- `Common` — ids, times, `Option`, `Result` and JavaScript truthiness of an optional string.
- `JsString` — the string built-ins the code relies on:
  - the regular-expression classes `\s` and `\w`;
  - `toLowerCase` over ASCII, `trim` and `split`/`join` on one character;
  - `substring(0, n)` and the decimal rendering of a counter.
- `Sorting` — a Mongo `.sort()` on a descending key. Documents with equal keys may come in any order, as in the database.
- `ArticleHelpers` — `generateSlug`, the slug probes `base-k`, and `calculateReadingTime`.
- `ArticleModel`, `CommentModel`, `UserModel` — the schemas: a datatype, the setters, the validators, the defaults and `save()` timestamps. `UserModel` also has the pre-save password hook and `toJSON`.
- `Database` — the store and its invariant. Every write is one small method, each with a lemma proving the invariant is kept.
- `ArticleController`, `CommentController`, `AuthController`, `UsersRoute`, `Server` — the endpoints.

Mongoose applies a field's setters (`trim`, `lowercase`) to query values as well as to stored values, so the model does the same:

- the slug looked up by `getArticle`;
- the tag filter of `getArticles`;
- the email and username of `register`;
- the email of `login`;
- the username of the profile route.

A validation error thrown by `create` or `save` is caught by the handler's `catch` and answered with 500, and the model says so.

## Model

| member | source | states |
|---|---|---|
| JsString.ToLower | backend/controllers/articleController.js:6 | the result has no upper-case letter, has the input's length, and lowers each character in place |
| JsString.Trim | backend/models/Article.js:7 | the result is an infix of the input that neither starts nor ends with whitespace; only whitespace is dropped on either side |
| JsString.TrimFixes | backend/models/Article.js:7 | a string that is already trimmed is unchanged by trim, so trim is idempotent |
| JsString.Split | backend/server.js:19 | `split(',')` gives at least one piece, and no piece contains the separator |
| JsString.JoinSplit | backend/server.js:19 | splitting loses nothing: joining the pieces with the separator gives back the string |
| JsString.SplitJoin | backend/server.js:19 | separator-free pieces are exactly what splitting their join returns |
| JsString.Prefix | backend/controllers/articleController.js:122 | `substring(0, n)` is a prefix of length `min(n, length)` |
| JsString.ParseNatToString | backend/controllers/articleController.js:109 | parsing the decimal rendering of a counter gives the counter back |
| JsString.NatToStringInjective | backend/controllers/articleController.js:109 | distinct counters render as distinct strings |
| ArticleHelpers.StripSpecial | backend/controllers/articleController.js:7 | removing `[^\w\s-]` keeps only word characters, whitespace and hyphens, and never lengthens |
| ArticleHelpers.StripSpecialAppend | backend/controllers/articleController.js:7 | the global replace works character by character: stripping `a + b` gives the stripped `a` followed by the stripped `b` |
| ArticleHelpers.StripSpecialChar | backend/controllers/articleController.js:7 | one character survives exactly when `[\w\s-]` matches it, so with the line above the result is the kept characters in order |
| ArticleHelpers.GenerateSlugShape | backend/controllers/articleController.js:4-11 | every slug holds only `a-z`, `0-9`, `_` and `-`, and never two hyphens in a row |
| ArticleHelpers.GenerateSlugIdempotent | backend/controllers/articleController.js:4-11 | slugifying a slug changes nothing |
| ArticleHelpers.LeadingSpaceKeepsHyphen | backend/controllers/articleController.js:8-10 | a title starting with whitespace gives a slug starting with `-`, because the final `trim()` removes only whitespace |
| ArticleHelpers.HyphenateEndsWithHyphen | backend/controllers/articleController.js:8 | a final run of whitespace becomes a final hyphen |
| ArticleHelpers.CollapseEndsWithHyphen | backend/controllers/articleController.js:9 | a final run of hyphens stays one final hyphen |
| ArticleHelpers.StripKeepsLastSpace | backend/controllers/articleController.js:7 | stripping keeps a final whitespace character |
| ArticleHelpers.UntrimmedEndsWithHyphen | backend/controllers/articleController.js:7-9 | before `trim()`, lowered text ending in whitespace ends in a hyphen |
| ArticleHelpers.TrailingSpaceKeepsHyphen | backend/controllers/articleController.js:4-11 | a title ending with whitespace gives a slug ending with `-`, because the final `trim()` removes only whitespace |
| ArticleHelpers.SpacedTitleKeepsHyphens | backend/controllers/articleController.js:4-11 | `generateSlug(" Hi ")` is `"-hi-"` |
| ArticleHelpers.NoKeptCharsEmptySlug | backend/controllers/articleController.js:7 | a title made only of removed characters gives the empty slug |
| ArticleHelpers.ProbeInjective | backend/controllers/articleController.js:109 | the probes `base`, `base-1`, `base-2`, ... are pairwise distinct |
| ArticleHelpers.ProbeLower | backend/controllers/articleController.js:109-110 | every probe of a slug is a slug, so the lowercase setter leaves the looked-up value unchanged |
| ArticleHelpers.SplitOnSpaces | backend/controllers/articleController.js:16 | `split(/\s+/)` gives at least one piece, none containing whitespace |
| ArticleHelpers.WordCountIsRunsPlusOne | backend/controllers/articleController.js:16 | the word count is the number of maximal whitespace runs plus one |
| ArticleHelpers.ReadingTime | backend/controllers/articleController.js:14-18 | the reading time is the ceiling of word count / 200, so it is at least 1 even for empty or blank content |
| ArticleHelpers.ReadingTimeFromRuns | backend/controllers/articleController.js:14-18 | reading time = ceil((whitespace runs + 1) / 200) |
| ArticleModel.NormalizeTag | backend/models/Article.js:33-37 | a stored tag is trimmed and has no upper-case letter |
| ArticleModel.NormalizeTagIdempotent | backend/models/Article.js:33-37 | applying the tag setters twice is applying them once |
| ArticleModel.NormalizedFixed | backend/models/Article.js:4-15 | a stored article is a fixpoint of the title, slug and tag setters |
| ArticleModel.Construct | backend/models/Article.js:3-69 | a new article has its setters applied, and defaults for the fields not given: cover `''`, category `General`, unpublished, no views, reading time 0, no comments, four zero reaction counters, both timestamps now |
| ArticleModel.Create | backend/models/Article.js:4-23 | `create` succeeds exactly when the validators hold (title present and at most 200 characters, slug and content present, excerpt at most 300); otherwise 500 |
| ArticleModel.Saved | backend/models/Article.js:67-69 | saving changes only `updatedAt`, and only when some field changed |
| ArticleModel.NewArticle | backend/models/Article.js:24-66 | an article given only its required fields has every schema default |
| CommentModel.Construct | backend/models/Comment.js:3-34 | a new comment has the given article, author, content and parent (null when absent), no likes, not edited, both timestamps now |
| CommentModel.Create | backend/models/Comment.js:14-18 | `create` succeeds exactly when the content is present and at most 1000 characters; otherwise 500 |
| CommentModel.Saved | backend/models/Comment.js:32-34 | saving changes only `updatedAt`, and only when some field changed |
| UserModel.NormalizeEmail | backend/models/User.js:13-18 | a stored email is trimmed and has no upper-case letter |
| UserModel.NormalizeEmailIdempotent | backend/models/User.js:13-18 | applying the email setters twice is applying them once |
| UserModel.MatchIsPattern | backend/models/User.js:19 | a string the positional email check accepts splits as `\S+`, `@`, `\S+`, `.`, `\S+` |
| UserModel.PatternIsMatch | backend/models/User.js:19 | a string of the shape `\S+@\S+\.\S+` passes the positional email check |
| UserModel.EmailMatchesPattern | backend/models/User.js:19 | the positional email check (no whitespace, `@` at i >= 1, `.` at j with i+1 < j < length-1) accepts exactly the strings `^\S+@\S+\.\S+$` matches |
| UserModel.NormalizedFixed | backend/models/User.js:5-20 | a stored user is a fixpoint of the username and email setters |
| UserModel.Construct | backend/models/User.js:4-75 | a new user has its setters applied, display name = username, bio `''`, the default picture, empty social links, no skills or followers, email unverified |
| UserModel.PreSave | backend/models/User.js:78-85 | the pre-save hook replaces the password by its hash exactly when the password was modified, and changes nothing else |
| UserModel.Saved | backend/models/User.js:73-75 | saving changes only `updatedAt`, and only when some field changed |
| UserModel.ToJsonIsRecordMinusPassword | backend/models/User.js:93-97 | `toJSON` does not depend on the password, and adding the password back gives the record |
| Sorting.SortDescending | backend/controllers/articleController.js:45 | the sorted ids are the set's members, each once, with keys non-increasing |
| Database.Store.InsertArticle | backend/controllers/articleController.js:118-130 | storing a new valid article under a fresh id with an unused slug keeps the invariant; only the articles change |
| Database.Store.ReplaceArticle | backend/controllers/articleController.js:181 | saving an article that keeps its slug and comment count keeps the invariant |
| Database.Store.RemoveArticle | backend/controllers/articleController.js:211 | removing an article keeps the invariant; its comments stay |
| Database.Store.InsertComment | backend/controllers/commentController.js:53-61 | storing a comment with its article's counter one higher keeps every counter equal to its comment count |
| Database.Store.ReplaceComment | backend/controllers/commentController.js:88-90 | saving a comment on the same article keeps the invariant |
| Database.Store.RemoveComment | backend/controllers/commentController.js:117-123 | removing a comment, with its article's counter one lower when the article exists, keeps the invariant |
| Database.Store.InsertUser | backend/controllers/authController.js:37-41 | storing a valid user whose username and email are unused keeps both unique |
| Database.Store.ReplaceUser | backend/controllers/authController.js:139 | saving a user with the same username and email keeps the invariant |
| Database.InsertCommentConsistent | backend/controllers/commentController.js:53-61 | creating a comment with its counter raised by one preserves "counter = number of comments" for every article |
| Database.RemoveCommentConsistent | backend/controllers/commentController.js:117-123 | deleting a comment with its counter lowered by one (or with no article left) preserves the same invariant |
| Database.CountedCommentPositive | backend/controllers/commentController.js:119 | under the invariant a commented article's counter is at least 1, so `Math.max(0, …)` never takes the floor |
| Database.InsertUserConsistent | backend/controllers/authController.js:26-41 | inserting a user with unused username and email keeps the unique indexes |
| Database.CounterKeepsStored | backend/controllers/commentController.js:60-61 | changing only the comment counter and saving keeps the article valid with the same slug |
| ArticleController.ProbesBounded | backend/controllers/articleController.js:108-112 | a finite set of slugs holds at most as many consecutive probes as it has members, which bounds the loop |
| ArticleController.UniqueSlug | backend/controllers/articleController.js:104-112 | the loop ends with the first probe no article holds: the base slug if free, else `base-k` for the least free k |
| ArticleController.CreateOutcome | backend/controllers/articleController.js:97-130 | 400 exactly without a title or content; success exactly when the validators accept. On success: author = actor, excerpt = given or first 150 characters, tags given or empty, published only if requested, publication time set exactly when published, counters at 0 |
| ArticleController.CreateArticle | backend/controllers/articleController.js:92-140 | the outcome above with the first free probe as slug; the new article's slug is held by no other article; nothing is stored on failure |
| ArticleController.DefaultExcerptFits | backend/controllers/articleController.js:122 | the default excerpt (150 characters at most) always meets the 300-character bound |
| ArticleController.ApplyUpdate | backend/controllers/articleController.js:160-179 | title, content, excerpt and category are replaced only when truthy; cover image whenever given; reading time recomputed only with new content; slug, author, views, comment count and reactions never change; `publishedAt` is stamped only when unset and publishing, and never cleared or overwritten |
| ArticleController.UpdateKeepsShape | backend/controllers/articleController.js:163-181 | an update keeps a stored article's setter shape and "published implies a publication time" |
| ArticleController.ApplyText | backend/controllers/articleController.js:163-169 | title, content with its reading time, and excerpt change only for a truthy value; the cover image for any given value; no other field changes |
| ArticleController.ApplyMeta | backend/controllers/articleController.js:170-179 | tags change for any given array, the category only when truthy, the published flag when given; `publishedAt` is stamped with now only when publishing an article that never had one; no other field changes |
| ArticleController.AssignText | backend/controllers/articleController.js:163-169 | the text assignments made one at a time give exactly the text update above |
| ArticleController.AssignMeta | backend/controllers/articleController.js:170-179 | the remaining assignments made one at a time give exactly the metadata update above |
| ArticleController.AssignFields | backend/controllers/articleController.js:163-179 | the assignments made one at a time give exactly the update above |
| ArticleController.UpdateArticle | backend/controllers/articleController.js:145-191 | 404 for an unknown id, 403 for another author, both changing nothing; else the updated article saved, or 500 when a validator rejects it |
| ArticleController.DeleteArticle | backend/controllers/articleController.js:196-218 | 404 and 403 as for update, changing nothing; else only that article is removed and its comments stay |
| ArticleController.Viewed | backend/controllers/articleController.js:77-80 | a published article gains exactly one view; a draft is unchanged |
| ArticleController.CountView | backend/controllers/articleController.js:76-80 | a published article gets one more view and a new `updatedAt`, stored back; a draft is returned as stored; the rest of the store is unchanged |
| ArticleController.GetArticle | backend/controllers/articleController.js:67-87 | 404 exactly when no article has the lowercased slug; else that article with its view counted, stored back |
| ArticleController.FilterOf | backend/controllers/articleController.js:25-40 | the filter holds a tag exactly when one was given, in normal tag form; the author as given; a search exactly when one was given |
| ArticleController.Window | backend/controllers/articleController.js:46-47 | `.skip(s).limit(l)` keeps the elements from index s on, at most l of them |
| ArticleController.CeilDiv | backend/controllers/articleController.js:54 | `Math.ceil(n / d)` is the least r with n <= r * d |
| ArticleController.ListArticles | backend/controllers/articleController.js:23-57 | `total` is the number of matching published articles; `totalPages` is its ceiling over the limit; the page holds min(limit, total - skip) articles |
| ArticleController.ListedArticles | backend/controllers/articleController.js:43-48 | every article on a page matches the filter and shows its stored fields without content; none appears twice |
| ArticleController.ListedNewestFirst | backend/controllers/articleController.js:45 | a page is ordered by `publishedAt`, newest first |
| ArticleController.EveryMatchOnOnePage | backend/controllers/articleController.js:46-54 | every matching article appears on exactly one page, between 1 and `totalPages` |
| ArticleController.WindowPartition | backend/controllers/articleController.js:46-47 | consecutive windows of a list without repeats hold each member in exactly one window |
| ArticleController.Trending | backend/controllers/articleController.js:240-253 | ten published articles, or all of them when there are fewer, each shown with its stored fields |
| ArticleController.TrendingRanked | backend/controllers/articleController.js:240-253 | the trending list has no repeats and is ordered by views then likes; any published article left out ranks no higher than every listed one |
| ArticleController.UserDrafts | backend/controllers/articleController.js:223-235 | as many entries as the actor's unpublished articles, each one of them with its content |
| ArticleController.DraftsCovered | backend/controllers/articleController.js:225-228 | every unpublished article of the actor is listed |
| ArticleController.DraftsNewestFirst | backend/controllers/articleController.js:225-228 | drafts are listed each once, most recently updated first |
| ArticleController.DraftsListed | backend/controllers/articleController.js:225-228 | every draft of the actor is listed once, most recently updated first |
| CommentController.GetComments | backend/controllers/commentController.js:7-35 | one thread per top-level comment of the article, each with its stored comment and its replies |
| CommentController.ThreadsCovered | backend/controllers/commentController.js:9-14 | every comment of the article without a parent has a thread |
| CommentController.ThreadsNewestFirst | backend/controllers/commentController.js:9-14 | threads are listed each once, newest first |
| CommentController.ThreadsListed | backend/controllers/commentController.js:9-14 | the threads are exactly the article's comments without a parent, each once, newest first |
| CommentController.RepliesListed | backend/controllers/commentController.js:19-21 | a thread's replies are exactly the comments naming it as parent, whatever their article, each once, oldest first |
| CommentController.ReplyToReplyHidden | backend/controllers/commentController.js:9-28 | a reply to a reply appears neither as a thread nor among any thread's replies |
| CommentController.CreateComment | backend/controllers/commentController.js:40-71 | 400 without content, 404 for a missing article, 500 for content over 1000 characters, all changing nothing. Else the comment is stored with its parent unchecked, and the article's counter rises by exactly 1 |
| CommentController.Edited | backend/controllers/commentController.js:88-89 | editing sets the new content and `edited`, and nothing else |
| CommentController.UpdateComment | backend/controllers/commentController.js:76-100 | 404 and 403 changing nothing; otherwise the content replaced and marked edited, or 500 for missing, empty or over-long content; no counter moves |
| CommentController.Decrement | backend/controllers/commentController.js:119 | `Math.max(0, c - 1)`: one less, floored at 0 |
| CommentController.DeleteComment | backend/controllers/commentController.js:105-130 | 404 and 403 changing nothing; otherwise only that comment is removed (replies stay), and an existing article's counter drops by exactly 1 |
| AuthController.Response | backend/controllers/authController.js:44-51 | the response carries id, username, email, display name, picture and token, and has no password field |
| AuthController.RegisterOutcome | backend/controllers/authController.js:19-41 | 400 for any missing field; 400 when a user has the normalised username or email; else success exactly when the validators accept, with the pre-save hook applied to the new user |
| AuthController.RegisteredIsNew | backend/controllers/authController.js:26-41 | a registered user passed every setter and validator, carries the hash (at least 6 characters, as bcrypt output is) instead of the password, and clashes with no stored user |
| AuthController.Register | backend/controllers/authController.js:14-56 | the outcome above, stored under a fresh id on success, nothing changed otherwise |
| AuthController.RegisterKeepsUnique | backend/controllers/authController.js:26-34 | a successful registration keeps usernames and emails unique |
| AuthController.Login | backend/controllers/authController.js:61-103 | 400 for a missing field; success exactly when a user has the normalised email and the password matches; an unknown email and a wrong password give the same 401 |
| AuthController.GetMe | backend/controllers/authController.js:108-117 | the acting user without the password, or null when that user is gone |
| AuthController.MergeLinks | backend/controllers/authController.js:137 | keys present in the request win, even empty; every other stored key keeps its value |
| AuthController.ApplyProfile | backend/controllers/authController.js:133-137 | display name, bio and location change only for a truthy value, skills for any array, links by merging; no other field changes |
| AuthController.ApplyProfileIdempotent | backend/controllers/authController.js:133-137 | applying the same profile update twice equals applying it once |
| AuthController.EmptyNeverClears | backend/controllers/authController.js:133-136 | empty strings never clear the stored display name, bio or location |
| AuthController.ProfileKeepsStored | backend/models/User.js:21-35 | a stored user with the profile fields applied keeps its normalised form, and passes every validator, the stored hash's `minlength` included, exactly when the bio is at most 200 characters |
| AuthController.UpdateProfile | backend/controllers/authController.js:122-146 | 404 for a missing user; 500 when a validator fails, which on a stored user happens exactly when the bio exceeds 200 characters; else the user saved without re-hashing and returned without its password |
| UsersRoute.ProfileArticles | backend/routes/users.js:18-23 | one summary per published article of the user, each with the projected fields |
| UsersRoute.ProfileArticlesListed | backend/routes/users.js:18-23 | exactly the user's published articles, each once, newest `publishedAt` first |
| UsersRoute.GetUserProfile | backend/routes/users.js:9-30 | 404 exactly when no user has the trimmed username; else that user without password and their published articles |
| Server.AllowedOrigins | backend/server.js:18-20 | an unset or empty setting gives no origins; else one trimmed entry per comma-separated piece |
| Server.AllowedOriginsOfList | backend/server.js:18-20 | a list of origins written comma-separated, with any padding, reads back as that list |
| Server.CheckOrigin | backend/server.js:23-32 | a request without an origin is allowed, one whose origin is listed is allowed, any other is refused with an error naming the origin |
| Server.UnsetOriginsRejectAll | backend/server.js:18-31 | without a setting every request carrying an origin is refused |
| Server.AllowedIffListed | backend/server.js:19-29 | an origin is allowed exactly when it equals some trimmed entry of the setting |
| Server.NotFoundHandler | backend/server.js:76-81 | an unmatched route gets 404 and its own path |
| Server.ErrorHandler | backend/server.js:86-93 | status is `err.status` or else 500; message is `err.message` or else `Something went wrong`; stack only in development |

## Left out

- Concurrency. Requests run one at a time, so the race between slug probing and `create`, and between two counter updates, is not modelled.
- `createComment` writes twice (the comment, then the article). The model makes one write, because the second cannot fail on a valid store.
- Real time, bcrypt hashing and comparison, and JWT signing are not modelled. Each becomes a parameter (`now`, `hash`, `passwordMatches`, `token`/`tokenFor`).
- MongoDB mechanics are not modelled:
  - `populate` of authors;
  - the index definitions at backend/models/Article.js:72-76, except that the unique indexes become part of the store invariant;
  - the cast of malformed ObjectIds, which would answer 500;
  - the wording of Mongoose's validation messages; the model gives each 500 a fixed message.
- Full-text search. The `$text` matching rule lives in the database and is the parameter `textMatch`.
- ArticleController.ListArticles: page and limit are positive integers. Query-string coercion (`parseInt`, `limit * 1`), `limit(0)` meaning "no limit" and negative or non-numeric values are not modelled.
- Sorting.SortDescending: documents with equal keys come in an unspecified order, as in the database. So the listings are ghost functions, specified up to that order.
- Character handling. `toLowerCase` is over ASCII only, and `\s` is the ECMAScript whitespace set.
- ArticleModel.Validates: the `maxlength` bounds on title (200) and excerpt (300) count code points (Dafny characters), where Mongoose counts UTF-16 code units, so a string with characters outside the Basic Multilingual Plane can pass a bound the source rejects.
- CommentModel.Validates: the 1000-character bound on content counts code points, not UTF-16 code units, for the same reason.
- UserModel.ValidatesProfile: the bio bound (200) counts code points, not UTF-16 code units, for the same reason.
- UserModel.Validates: the username bounds (3 to 30) and the password `minlength` (6) count code points, not UTF-16 code units, for the same reason.
- JsString.Prefix: the default excerpt's `substring(0, 150)` is taken in code points, not UTF-16 code units, so the model never splits a surrogate pair where the source can.
- ArticleController.EveryMatchOnOnePage: the lemma takes every page query to see articles with equal `publishedAt` in the same order, because the model's sort is one fixed order per set and key. MongoDB does not promise that order across queries, so with ties an article can appear on two pages or on none.
- The health-check route at backend/server.js:51-63 is a constant JSON body and is not modelled. So are the `cors` library itself, the body parsers and the route registration.
- The `protect` middleware is not modelled: each protected endpoint takes the acting user's id.
- The frontend is not part of this model.
