# Community board content store, modelled in Dafny

This project models the content store behind a community board backend. It covers:

- the article handlers: create, owner-checked update and delete, like and unlike, and the paginated listing with its per-viewer projection;
- the comment handlers: comments, replies, the tombstone-or-remove delete, and update;
- the registration rules: schema validation, the userNum and nick uniqueness checks, and the nickname check.

The database is a class, `Store.Database`, with four fields:

- `posts`: a map from post id to `Post`;
- `comments`: a map from comment id to `Comment`;
- `users`: the sequence of `User`s;
- `clock`: a counter that hands out post and comment ids and stamps each post's creation time, so "newest first" can be stated.

Each handler is a method that changes the database in place and returns an `Outcome`. The outcomes stand for the source's HTTP statuses:

- `Ok`: 200 or 201;
- `NotFound`: 404;
- `Forbidden`: 403;
- `AlreadyLiked` and `NotLiked`: the two 400s of like and unlike;
- `Duplicate(field)`: 409, naming the unique field that collided;
- `Invalid`: a 400 from the schema;
- `ServerError`: a 500, or any path that ends in a `catch` block.

The listing, the nickname check and everything they use are functions.

The object invariant `Database.Valid()` holds that:

- every stored record passed its document schema (`required`, `enum`, `min`, `maxlength`);
- stored titles are trimmed;
- every like list has at most one entry per user;
- ids are below the clock, and a post's creation stamp is its id;
- `userNum` and `nick` are unique across users.

Every mutating method requires `Valid()` and keeps it. Each one states the exact new database state as an update of the old `State()`, and that nothing at all changes when it refuses.

Behaviour the model follows from the code:

- `validate` (src/controller/common/errorhandle.js:10-16) returns `{message}` and never `{error}`. So the request-schema gates of the article and comment handlers never reject, and they are absent here. Empty titles, contents and author fields are still refused, but by the document schema on save. That gives `ServerError` with nothing written, not a validation error. Registration and the nickname check call the schema directly, so their checks are real and give `Invalid`.
- The post schema trims `title` (src/models/post.js:6). A title is stored trimmed, and a whitespace-only title fails the save. JavaScript's white space set is written out in full in `Models.IsJsWhitespace`.
- Two handlers dereference the post without a null check: `deleteArticle` (src/controller/articles.js:194-196) and `unlikeArticle` (src/controller/articles.js:284-286). A missing article therefore gives `ServerError`, not `NotFound`.
- `likeArticle` with an empty `userNum` passes the duplicate check. The pushed `{userNum}` then fails the like schema on save, which gives `ServerError`.
- Removing a comment does not unlink its id from `post.comments` or from a parent's `replies`. A reply is never added to `post.comments`. Deleting an article leaves its comments in place.
- `updateComment` keeps the old content when the new one is empty, and it does not refuse a tombstoned comment. An empty content is therefore not a validation error: the old content stays.
- The listing populates references. A reference to a comment that no longer exists drops out of the view.
- A page below 1 gives a negative `skip`, which the database refuses, so the model's outcome is `ServerError`; such a page is not treated as page 1. The route for the listing (src/routes/articles.js:10) has no `:page` parameter, so in the deployed wiring `page` is always absent and defaults to 1. Its value is modelled as `Option<int>`.
- A second like and an unlike without a like are answered with two distinct 400 responses, not with a conflict status. They are modelled as `AlreadyLiked` and `NotLiked`.

## Model

| member | source | states |
|---|---|---|
| `Models.Trim` | src/models/post.js:6 | the trim setter's result is the input with a run of white space cut off at the start and at the end (`CutsWhitespace`), has no white space left at either end, and is empty exactly when the input is all white space |
| `Models.CutIsTrim` | src/models/post.js:6 | any string cut out of the input that way and trimmed at both ends is the trim result: the contract of `Trim` determines its value |
| `Models.TrimOfTrimmed` | src/models/post.js:6 | trimming a stored (already trimmed) title gives it back, so reassigning `post.title` to itself changes nothing |
| `Models.TrimIdempotent` | src/models/post.js:6 | trimming twice is trimming once |
| `Models.PostStorable` | src/models/post.js:6-20 | the post schema's `required` fields: title, content, both author fields, and the userNum of every like |
| `Models.CommentStorable` | src/models/comment.js:5-24 | the comment schema's `required` fields: content and both author fields (the post id is always present in the model) |
| `Models.UserStorable` | src/models/user.js:5-14 | the user schema: required userNum and nick, gender and job from their enums, every favourite 1 to 30 characters (`min: 0` on age is the type `nat`) |
| `Models.UsersUnique` | src/models/user.js:5-6 | the two `unique: true` indexes: no two users share a userNum or a nick |
| `Likes.HasLiked` | src/controller/articles.js:243 | `likes.some(...)` is true exactly when some entry of the list carries the user's userNum |
| `Likes.FindIndex` | src/controller/articles.js:286 | `findIndex` gives -1 exactly when the user has no like, and otherwise the first position holding the user |
| `Likes.RemoveFirstLike` | src/controller/articles.js:286-295 | `splice(findIndex(...), 1)` on a list holding the user: the list without its entry at the user's first position; what that leaves is stated by the two lemmas that follow |
| `Likes.RemoveFirstLikeKeepsOrder` | src/controller/articles.js:295 | the splice drops one entry, the user's first like: the entries before it stay where they were and the entries after it move up by one |
| `Likes.RemoveFirstLikeDropsOne` | src/controller/articles.js:295 | as a multiset, unlike takes away exactly one `Like(userNum)` and nothing else |
| `Likes.AddLikeKeepsNoDuplicates` | src/controller/articles.js:243-253 | appending a like for a user who has none keeps the list free of duplicates, and the user is then present |
| `Likes.RemoveLikeKeepsNoDuplicates` | src/controller/articles.js:286-295 | on a duplicate-free list, unlike keeps it duplicate-free and no like of the user remains |
| `Likes.RemoveLikeKeepsOthers` | src/controller/articles.js:286-295 | unlike leaves every other user's like in place: another user has liked afterwards exactly when they had before |
| `Likes.LikeThenUnlike` | src/controller/articles.js:243-295 | for a user with no like, like followed by unlike restores the list exactly |
| `Likes.UnlikeThenLike` | src/controller/articles.js:243-295 | unlike followed by like restores the same likes as a multiset, with the user's entry moved to the end |
| `Articles.CreateArticle` | src/controller/articles.js:24-33 | succeeds exactly when the trimmed title, the content and both author fields are non-empty; it then adds one post at a fresh id with the trimmed title, empty likes and comments, the next creation stamp, and nothing else changes; otherwise `ServerError` and nothing changes |
| `Articles.UpdateArticle` | src/controller/articles.js:57-90 | NotFound exactly when the post is missing, Forbidden exactly when it exists and the user is not its author, and in both cases nothing changes; for the author, the title becomes the trimmed new title if one is given and stays otherwise, and the content likewise; a title that trims to nothing fails the save, which is the only path to ServerError, and nothing changes |
| `Articles.PatchIsWellFormed` | src/controller/articles.js:78-81 | the merged post passes the schema exactly when the new title is absent or does not trim to nothing, and it is then again well formed (trimmed title, duplicate-free likes) |
| `Articles.DeleteArticle` | src/controller/articles.js:191-204 | missing post gives ServerError and a non-author Forbidden, with nothing changed; for the author, exactly that post is removed and every comment record is untouched |
| `Articles.LikeArticle` | src/controller/articles.js:231-259 | NotFound exactly when the post is missing and AlreadyLiked exactly when it exists and the user has liked it, both with nothing changed; an empty userNum on an existing post without that like fails the save, giving ServerError; on success exactly one `Like(userNum)` is appended at the end of that post's likes and nothing else changes |
| `Articles.UnlikeArticle` | src/controller/articles.js:282-296 | missing post gives ServerError; NotLiked exactly when the user has no like, with nothing changed; Ok whenever the post exists and the user has liked it, and then the user's like is removed (`RemoveFirstLike`), the user is no longer present, and nothing else changes |
| `Articles.TotalPages` | src/controller/articles.js:166 | `Math.ceil(total / 10)`: the smallest number of pages of ten that holds all posts, zero only for no posts |
| `Articles.NewestFirst` | src/controller/articles.js:113-114 | the ordering lists stored posts only, each id below the clock, in strictly decreasing id order |
| `Articles.NewestFirstCovers` | src/controller/articles.js:113-114 | every stored post below the clock appears in the ordering |
| `Articles.NewestFirstListsAll` | src/controller/articles.js:113-126 | when all ids are below the clock, the ordering lists each post exactly once, so its length is the `countDocuments` total |
| `Articles.Populate` | src/controller/articles.js:117-123 | population keeps only references whose document exists, and leaves a list of existing references unchanged |
| `Articles.PopulateOne` | src/controller/articles.js:117-123 | a single reference is kept exactly when its document exists |
| `Articles.PopulateAppend` | src/controller/articles.js:117-123 | population of a concatenation is the concatenation of the populations, so it keeps list order and repeated references and only drops the missing ones |
| `Articles.PopulateKeepsExisting` | src/controller/articles.js:117-123 | every reference whose document exists survives population |
| `Articles.PageWindow` | src/controller/articles.js:115-116 | `skip(offset).limit(10)`: at most ten ids, the ones from position `offset` on |
| `Articles.SanitizeReply` | src/controller/articles.js:147-152 | a reply as listed: its id, postId, content and replies, the author's nick only, and `isMyReply` when its author snapshot names the viewer; stated by `ProjectionShows` |
| `Articles.SanitizeComment` | src/controller/articles.js:140-153 | a comment as listed, with its populated replies; stated by `ProjectionShows` |
| `Articles.SanitizePost` | src/controller/articles.js:128-157 | a post as listed, with like count, `isLikedByUser`, populated comments and `isMyArticle`; stated by `ProjectionShows` |
| `Articles.SanitizeAll` | src/controller/articles.js:128-158 | `posts.map(sanitize)`: one view per id of the page, in page order, each the projection of that id's post and carrying its id and creation stamp |
| `Articles.ProjectionShows` | src/controller/articles.js:128-157 | the projection shows `likes = \|post.likes\|`, `isLikedByUser` iff the viewer is among the likes, `isMyArticle`, `isMyComment` and `isMyReply` iff the author snapshot names the viewer, the author only by nick at every level, and the existing comments and replies in list order with their post id, content and (for replies) their own reply ids |
| `Articles.GetArticles` | src/controller/articles.js:93-167 | page 1 when absent; a page below 1 fails with ServerError; otherwise the page holds the posts of the window `skip((page-1)*10).limit(10)` over the newest-first order, in window order, each projected for the viewer, with `totalPage = ceil(total/10)` and `currentPage = page` |
| `Articles.ListingIsNewestFirst` | src/controller/articles.js:113-124 | on a valid store a page always succeeds for page 1 and up, it is strictly newest first by id and by creation stamp, and its length is `min(10, total - offset)` (zero past the end) |
| `Articles.TwentyFivePosts` | src/controller/articles.js:113-166 | with 25 posts, page 1 holds 10, page 3 holds 5, and there are 3 pages |
| `Comments.CreateComment` | src/controller/comments.js:25-57 | NotFound exactly when the post is missing; an existing post with an empty content or author field fails the save, giving ServerError; both with nothing changed; on success one comment with the given post, author, content and empty replies is stored at a fresh id, that id is appended to the end of that post's comments, and no other post or comment changes |
| `Comments.CreateReply` | src/controller/comments.js:78-118 | NotFound exactly when the parent is missing; an existing parent with an empty content or author field fails the save, giving ServerError; both with nothing changed; on success the reply is stored with the parent's postId and empty replies, its id is appended to the parent's replies, and no post's comment list changes |
| `Comments.AfterDelete` | src/controller/comments.js:154-165 | a comment with replies keeps its record with the placeholder content and the same author, post and replies; one without is removed; every other record is untouched |
| `Comments.DeleteIsIdempotent` | src/controller/comments.js:154-156 | for a comment with replies, deleting it twice is deleting it once, and deleting one that already shows the placeholder changes nothing |
| `Comments.DeleteComment` | src/controller/comments.js:137-173 | missing comment gives NotFound and a non-author Forbidden, with nothing changed; for the author the comments collection becomes `AfterDelete` of the old one and nothing else changes, so no list that referenced it is touched |
| `Comments.UpdateComment` | src/controller/comments.js:202-220 | missing comment gives NotFound and a non-author Forbidden, with nothing changed; for the author a non-empty content replaces the old one, an empty one keeps it, tombstones included |
| `Store.IsAuthor` | src/controller/articles.js:70 | the ownership gate `post.author.userNum !== userNum`: exact comparison of the acting user with the author snapshot, used by update and delete of articles and comments |
| `Auth.AcceptedFormIsStorable` | src/controller/auth.js:7-16 | a form the registration schema accepts yields a user the users collection's schema accepts |
| `Auth.RegisterSchemaAccepts` | src/controller/auth.js:7-16 | the request schema of `register`: required userNum, nick of 1 to 10 characters, an integer age from 0 up to `Number.MAX_SAFE_INTEGER`, gender and job from their enums, at most three favourites of 1 to 30 characters |
| `Auth.NewUser` | src/controller/auth.js:36 | the user document built from the form's six fields |
| `Auth.UserNumTaken` | src/controller/auth.js:26 | `findOne({ userNum })` finds a user exactly when some user has that userNum |
| `Auth.NickTaken` | src/controller/auth.js:31 | `findOne({ nick })` finds a user exactly when some user has that nick |
| `Auth.AppendKeepsUnique` | src/models/user.js:5-6 | appending a user whose userNum and nick are both unused keeps both unique across the table |
| `Auth.Register` | src/controller/auth.js:7-37 | a schema violation gives Invalid; then a userNum in use gives Duplicate on userNum (checked first) and a nick in use Duplicate on nick; every refusal leaves the store unchanged; success appends exactly one user built from the form and keeps userNum and nick unique |
| `Auth.CheckNickname` | src/controller/auth.js:52-71 | Invalid exactly when the nick is not 1 to 10 characters; otherwise Duplicate iff some user has the nick and Ok iff none has; a function, so the table is not modified |
| `Scenario.BuildThread` | src/controller/comments.js:36-156 | article, comment and reply, then the comment's deletion refused for the reply's author and done for its own: the comment becomes a tombstone that keeps its reply |
| `Scenario.ThreadListing` | src/controller/articles.js:128-157 | the listing of that store shows one post whose single comment shows the placeholder, is the viewer's own, and still lists its one reply |
| `Scenario.DeleteTheReply` | src/controller/comments.js:164-165 | deleting the reply afterwards removes its record while the parent keeps the dangling id |

## Left out

- HTTP routing, status codes and response envelopes: each handler returns an `Outcome` instead. The route wiring is only used to note that the listing receives no page parameter.
- Token issuance after registration: it is a call into a signing library with a secret from the environment.
- `handleError` and the envelope helper it calls: every `catch` path is one `ServerError`. `handleError` (src/controller/common/errorhandle.js:7) calls `baseResponse` without importing it, and src/controller/common/baseResponse.js:1-3 does not export it, so in the deployed code that path throws again instead of answering.
- Malformed identifiers: ids are natural numbers, so the cast errors a malformed id would raise (a `ServerError`) are not modelled.
- Storage failures other than schema refusals: a lost connection or a unique-index race is not modelled.
- Concurrency: each handler runs to completion. The two writes of `createComment` and `createReplies` are not interleaved with anything, and a failure between them is not modelled.
- Timestamps: `createdAt` of a post is the counter value, so two posts never share a stamp. `updatedAt` and the timestamps of comments are not modelled.
- The post schema's `id` field and the pre-save hook that copies `_id` into it.
- The user's `aiReport` entries, and the AI-report and form handlers: plumbing with no logic.
- A missing string field and an empty one are the same value in the model. The schemas treat both alike, and so does `x || y`.
- Character counting: the schema's string lengths count UTF-16 code units, while the model counts Unicode scalar values. They differ only for characters outside the Basic Multilingual Plane.
- Type coercion by the request schema (a numeric string accepted as `age`, say), Joi's refusal of unknown keys, a `page` that is not an integer, and the string form of `currentPage` are not modelled.
- A single-article fetch and a per-author listing are not part of this model: the source has no handler for them.
