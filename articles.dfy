/** The article handlers: create, owner-checked update and delete, like and
    unlike, and the paginated listing with its per-viewer projection.
    The request-schema checks these handlers run never reject (the helper
    they call reports failures under a key the handlers do not read), so
    they are absent here; the checks that remain are the lookups, the
    ownership gate and the document schema applied on save. */
module Articles {
  import opened Models
  import opened Likes
  import opened Store

  /** Posts per page of the listing. */
  const PageSize: nat := 10

  // ---------------------------------------------------------------------
  // Mutations

  /** A new post gets the next id and creation stamp, a trimmed title and
      empty like and comment lists; a save the schema refuses changes
      nothing. */
  method CreateArticle(db: Database, title: string, content: string, author: Author)
    returns (o: Outcome)
    requires db.Valid()
    modifies db
    ensures db.Valid()
    ensures o == Ok || o == ServerError
    ensures o == Ok <==> Trim(title) != "" && content != "" && AuthorStorable(author)
    ensures o == Ok ==>
      && old(db.clock) !in old(db.posts)
      && db.State() == old(db.State()).(
           posts := old(db.posts)[old(db.clock) := Post(Trim(title), content, author, [], [], old(db.clock))],
           clock := old(db.clock) + 1)
    ensures o != Ok ==> db.State() == old(db.State())
  {
    var post := Post(Trim(title), content, author, [], [], db.clock);
    if !PostStorable(post) {
      return ServerError;
    }
    assert PostWellFormed(post);
    InsertPostKeepsValid(db.State(), post);
    var id := db.clock;
    db.posts := db.posts[id := post];
    db.clock := id + 1;
    assert db.State() == old(db.State()).(posts := old(db.posts)[id := post], clock := id + 1);
    o := Ok;
  }

  /** Merge-patch of title and content by the author: an empty field keeps
      the stored value; a title that trims to nothing fails the save. */
  method UpdateArticle(db: Database, articleId: Id, title: string, content: string, userNum: string)
    returns (o: Outcome)
    requires db.Valid()
    modifies db
    ensures db.Valid()
    ensures o in {Ok, NotFound, Forbidden, ServerError}
    ensures o == NotFound <==> articleId !in old(db.posts)
    ensures o == Forbidden <==>
      articleId in old(db.posts) && !IsAuthor(old(db.posts[articleId].author), userNum)
    ensures o == Ok <==>
      && articleId in old(db.posts)
      && IsAuthor(old(db.posts[articleId].author), userNum)
      && (title == "" || Trim(title) != "")
    ensures o == Ok ==>
      var p := old(db.posts[articleId]);
      db.State() == old(db.State()).(posts := old(db.posts)[articleId := p.(
        title := if title != "" then Trim(title) else p.title,
        content := if content != "" then content else p.content)])
    ensures o != Ok ==> db.State() == old(db.State())
  {
    if articleId !in db.posts {
      return NotFound;
    }
    var post := db.posts[articleId];
    if !IsAuthor(post.author, userNum) {
      return Forbidden;
    }
    // `title || post.title`: the empty string is falsy, and the setter
    // trims; the stored title is trimmed already (`TrimOfTrimmed`)
    var newTitle := if title != "" then Trim(title) else post.title;
    var newContent := if content != "" then content else post.content;
    var updated := post.(title := newTitle, content := newContent);
    PatchIsWellFormed(post, title, content);
    if !PostStorable(updated) {
      return ServerError;
    }
    ReplacePostKeepsValid(db.State(), articleId, updated);
    db.posts := db.posts[articleId := updated];
    o := Ok;
  }

  /** The merge-patch of a stored post passes the schema exactly when the
      new title is absent or does not trim to nothing, and then the result
      is again a well-formed post. */
  lemma PatchIsWellFormed(p: Post, title: string, content: string)
    requires PostWellFormed(p)
    ensures var u := p.(title := if title != "" then Trim(title) else p.title,
                        content := if content != "" then content else p.content);
      && (PostStorable(u) <==> title == "" || Trim(title) != "")
      && (PostStorable(u) ==> PostWellFormed(u))
  {
  }

  /** Hard delete by the author. Comments are not touched, so those of the
      post stay behind. A missing post is dereferenced before the ownership
      check and ends in the catch block. */
  method DeleteArticle(db: Database, articleId: Id, userNum: string) returns (o: Outcome)
    requires db.Valid()
    modifies db
    ensures db.Valid()
    ensures o in {Ok, Forbidden, ServerError}
    ensures articleId !in old(db.posts) ==> o == ServerError
    ensures articleId in old(db.posts) && !IsAuthor(old(db.posts[articleId].author), userNum) ==>
      o == Forbidden
    ensures o == Ok <==> articleId in old(db.posts) && IsAuthor(old(db.posts[articleId].author), userNum)
    ensures o == Ok ==> db.State() == old(db.State()).(posts := old(db.posts) - {articleId})
    ensures o != Ok ==> db.State() == old(db.State())
  {
    if articleId !in db.posts {
      return ServerError;
    }
    var post := db.posts[articleId];
    if !IsAuthor(post.author, userNum) {
      return Forbidden;
    }
    db.posts := db.posts - {articleId};
    o := Ok;
  }

  /** Appends one like for a user who has none; a second like is refused.
      An empty userNum passes the lookup but fails the save. */
  method LikeArticle(db: Database, articleId: Id, userNum: string) returns (o: Outcome)
    requires db.Valid()
    modifies db
    ensures db.Valid()
    ensures o in {Ok, NotFound, AlreadyLiked, ServerError}
    ensures o == NotFound <==> articleId !in old(db.posts)
    ensures o == AlreadyLiked <==>
      articleId in old(db.posts) && HasLiked(old(db.posts[articleId].likes), userNum)
    ensures o == Ok <==>
      articleId in old(db.posts) && !HasLiked(old(db.posts[articleId].likes), userNum) && userNum != ""
    ensures o == Ok ==>
      var p := old(db.posts[articleId]);
      db.State() == old(db.State()).(posts := old(db.posts)[articleId := p.(likes := p.likes + [Like(userNum)])])
    ensures o != Ok ==> db.State() == old(db.State())
  {
    if articleId !in db.posts {
      return NotFound;
    }
    var post := db.posts[articleId];
    if HasLiked(post.likes, userNum) {
      return AlreadyLiked;
    }
    var updated := post.(likes := post.likes + [Like(userNum)]);
    if !PostStorable(updated) {
      return ServerError;
    }
    AddLikeKeepsNoDuplicates(post.likes, userNum);
    ReplacePostKeepsValid(db.State(), articleId, updated);
    db.posts := db.posts[articleId := updated];
    o := Ok;
  }

  /** Removes the user's like, keeping the others in order; unlike without
      a like is refused. A missing post is dereferenced without a check and
      ends in the catch block. */
  method UnlikeArticle(db: Database, articleId: Id, userNum: string) returns (o: Outcome)
    requires db.Valid()
    modifies db
    ensures db.Valid()
    ensures o in {Ok, NotLiked, ServerError}
    ensures articleId !in old(db.posts) ==> o == ServerError
    ensures articleId in old(db.posts) ==> (o == NotLiked <==> !HasLiked(old(db.posts[articleId].likes), userNum))
    ensures articleId in old(db.posts) && HasLiked(old(db.posts[articleId].likes), userNum) ==> o == Ok
    ensures o == Ok ==>
      var p := old(db.posts[articleId]);
      && HasLiked(p.likes, userNum)
      && db.State() == old(db.State()).(posts := old(db.posts)[articleId := p.(likes := RemoveFirstLike(p.likes, userNum))])
      && !HasLiked(db.posts[articleId].likes, userNum)
    ensures o != Ok ==> db.State() == old(db.State())
  {
    if articleId !in db.posts {
      return ServerError;
    }
    var post := db.posts[articleId];
    var likeIndex := FindIndex(post.likes, userNum);
    if likeIndex == -1 {
      return NotLiked;
    }
    // `splice(likeIndex, 1)`
    var updated := post.(likes := RemoveFirstLike(post.likes, userNum));
    RemoveFirstLikeKeepsOrder(post.likes, userNum);
    RemoveLikeKeepsNoDuplicates(post.likes, userNum);
    ReplacePostKeepsValid(db.State(), articleId, updated);
    db.posts := db.posts[articleId := updated];
    o := Ok;
  }

  // ---------------------------------------------------------------------
  // The listing and its projection

  datatype ReplyView = ReplyView(
    id: Id, postId: Id, nick: string, content: string, replies: seq<Id>,
    isMyReply: bool)

  datatype CommentView = CommentView(
    id: Id, postId: Id, nick: string, content: string, replies: seq<ReplyView>,
    isMyComment: bool)

  /** A post as the listing shows it: the author's userNum is not part of
      it, only the nick. */
  datatype PostView = PostView(
    id: Id, title: string, content: string, nick: string,
    likes: nat, isLikedByUser: bool, comments: seq<CommentView>,
    createdAt: nat, isMyArticle: bool)

  datatype PageView = PageView(posts: seq<PostView>, currentPage: int, totalPage: nat)

  function Min(a: int, b: int): int { if a < b then a else b }

  /** `Math.ceil(total / 10)`. */
  function TotalPages(total: nat): (r: nat)
    ensures r * PageSize >= total
    ensures total > 0 ==> (r - 1) * PageSize < total
    ensures r == 0 <==> total == 0
  {
    (total + 9) / 10
  }

  /** `sort({ createdAt: -1 })` over the ids allocated so far: enumerating
      ids downwards from the clock lists every stored post once, newest
      (largest id) first. */
  function NewestFirst(posts: map<Id, Post>, bound: nat): (r: seq<Id>)
    ensures forall i :: 0 <= i < |r| ==> r[i] in posts && r[i] < bound
    ensures forall i, j :: 0 <= i < j < |r| ==> r[i] > r[j]
    decreases bound
  {
    if bound == 0 then []
    else if bound - 1 in posts then [bound - 1] + NewestFirst(posts, bound - 1)
    else NewestFirst(posts, bound - 1)
  }

  /** `populate` on an array of references: the ids whose document exists,
      in their original order; references to removed documents drop out. */
  function Populate(ids: seq<Id>, comments: map<Id, Comment>): (r: seq<Id>)
    ensures |r| <= |ids|
    ensures forall k :: 0 <= k < |r| ==> r[k] in comments && r[k] in ids
    ensures (forall k :: 0 <= k < |ids| ==> ids[k] in comments) ==> r == ids
  {
    if ids == [] then []
    else (if ids[0] in comments then [ids[0]] else []) + Populate(ids[1..], comments)
  }

  function SanitizeReply(id: Id, reply: Comment, viewer: string): ReplyView {
    ReplyView(id, reply.postId, reply.author.nick, reply.content, reply.replies,
      reply.author.userNum == viewer)
  }

  function SanitizeComment(id: Id, comment: Comment, comments: map<Id, Comment>, viewer: string): CommentView {
    var ids := Populate(comment.replies, comments);
    CommentView(id, comment.postId, comment.author.nick, comment.content,
      seq(|ids|, k requires 0 <= k < |ids| => SanitizeReply(ids[k], comments[ids[k]], viewer)),
      comment.author.userNum == viewer)
  }

  /** The per-viewer projection of one post, its populated comments and
      their populated replies. */
  function SanitizePost(id: Id, post: Post, comments: map<Id, Comment>, viewer: string): PostView {
    var ids := Populate(post.comments, comments);
    PostView(id, post.title, post.content, post.author.nick,
      |post.likes|, HasLiked(post.likes, viewer),
      seq(|ids|, k requires 0 <= k < |ids| => SanitizeComment(ids[k], comments[ids[k]], comments, viewer)),
      post.createdAt, post.author.userNum == viewer)
  }

  /** What the projection shows: the like count, whether the viewer is among
      the likes, each `isMy*` flag exactly when the author snapshot names the
      viewer, the author only by nick, and the comments and replies that
      still exist, in list order. */
  lemma ProjectionShows(id: Id, post: Post, comments: map<Id, Comment>, viewer: string)
    ensures var v := SanitizePost(id, post, comments, viewer);
      && v.id == id && v.title == post.title && v.content == post.content
      && v.nick == post.author.nick && v.createdAt == post.createdAt
      && v.likes == |post.likes|
      && (v.isLikedByUser <==> exists i :: 0 <= i < |post.likes| && post.likes[i].userNum == viewer)
      && (v.isMyArticle <==> post.author.userNum == viewer)
      && var ids := Populate(post.comments, comments);
         && |v.comments| == |ids|
         && forall k :: 0 <= k < |ids| ==>
              var cv, c := v.comments[k], comments[ids[k]];
              && cv.id == ids[k]
              && cv.postId == c.postId
              && cv.nick == c.author.nick
              && cv.content == c.content
              && (cv.isMyComment <==> c.author.userNum == viewer)
              && |cv.replies| == |Populate(c.replies, comments)|
              && forall j :: 0 <= j < |cv.replies| ==>
                   var rv := cv.replies[j];
                   && rv.id == Populate(c.replies, comments)[j]
                   && rv.postId == comments[rv.id].postId
                   && rv.nick == comments[rv.id].author.nick
                   && rv.content == comments[rv.id].content
                   && rv.replies == comments[rv.id].replies
                   && (rv.isMyReply <==> comments[rv.id].author.userNum == viewer)
  {
  }

  /** `skip(offset).limit(10)` over the ordered ids. */
  function PageWindow(order: seq<Id>, offset: nat): (w: seq<Id>)
    ensures |w| == if offset >= |order| then 0 else Min(PageSize, |order| - offset)
    ensures forall k :: 0 <= k < |w| ==> w[k] == order[offset + k]
  {
    if offset >= |order| then [] else order[offset..Min(offset + PageSize, |order|)]
  }

  /** `posts.map(sanitize)` over the ids of one page. */
  function SanitizeAll(window: seq<Id>, posts: map<Id, Post>, comments: map<Id, Comment>, viewer: string)
    : (vs: seq<PostView>)
    requires forall k :: 0 <= k < |window| ==> window[k] in posts
    ensures |vs| == |window|
    ensures forall k :: 0 <= k < |window| ==> vs[k] == SanitizePost(window[k], posts[window[k]], comments, viewer)
    ensures forall k :: 0 <= k < |window| ==>
      vs[k].id == window[k] && vs[k].createdAt == posts[window[k]].createdAt
  {
    seq(|window|, k requires 0 <= k < |window| => SanitizePost(window[k], posts[window[k]], comments, viewer))
  }

  /** `getArticles`: page `page` (1 when absent) of the posts, newest first,
      ten per page from offset `(page - 1) * 10`, each projected for
      `viewer`, with the number of pages over all posts. A page below 1
      gives a negative skip, which the database refuses. */
  function GetArticles(posts: map<Id, Post>, comments: map<Id, Comment>, bound: nat,
                       page: Option<int>, viewer: string): (r: Result<PageView>)
    ensures var p := if page.Some? then page.value else 1;
      && (r.Failure? <==> p < 1)
      && (r.Failure? ==> r.outcome == ServerError)
      && (r.Success? ==>
            var order, offset := NewestFirst(posts, bound), (p - 1) * 10;
            var w := PageWindow(order, offset);
            && (forall k :: 0 <= k < |w| ==> w[k] in posts)
            && r.value.currentPage == p
            && r.value.totalPage == TotalPages(|posts|)
            && |r.value.posts| == |w| <= PageSize
            && (forall k :: 0 <= k < |w| ==>
                  r.value.posts[k] == SanitizePost(w[k], posts[w[k]], comments, viewer))
            && (forall k :: 0 <= k < |w| ==>
                  r.value.posts[k].id == w[k] && r.value.posts[k].createdAt == posts[w[k]].createdAt))
  {
    var p := if page.Some? then page.value else 1;
    if p < 1 then Failure(ServerError)
    else
      var order := NewestFirst(posts, bound);
      var offset := (p - 1) * 10;
      var window := PageWindow(order, offset);
      var vs := SanitizeAll(window, posts, comments, viewer);
      Success(PageView(vs, p, TotalPages(|posts|)))
  }

  // ---------------------------------------------------------------------
  // Lemmas about the listing

  /** Every stored post below the bound is listed. */
  lemma {:induction false} NewestFirstCovers(posts: map<Id, Post>, bound: nat)
    ensures forall id :: id in posts && id < bound ==> id in NewestFirst(posts, bound)
  {
    if bound > 0 {
      NewestFirstCovers(posts, bound - 1);
    }
  }

  /** Every reference whose document exists survives population. */
  lemma {:induction false} PopulateKeepsExisting(ids: seq<Id>, comments: map<Id, Comment>)
    ensures forall k :: 0 <= k < |ids| && ids[k] in comments ==> ids[k] in Populate(ids, comments)
  {
    if ids != [] {
      PopulateKeepsExisting(ids[1..], comments);
      assert forall k :: 1 <= k < |ids| ==> ids[k] == ids[1..][k - 1];
    }
  }

  /** Population of a single reference keeps it exactly when its document
      exists. */
  lemma PopulateOne(id: Id, comments: map<Id, Comment>)
    ensures Populate([id], comments) == if id in comments then [id] else []
  {
    assert [id][1..] == [];
  }

  /** Population works reference by reference: it keeps list order and
      repeated references, so the result is the original list with the
      references to missing documents left out. */
  lemma {:induction false} PopulateAppend(a: seq<Id>, b: seq<Id>, comments: map<Id, Comment>)
    ensures Populate(a + b, comments) == Populate(a, comments) + Populate(b, comments)
  {
    if a != [] {
      assert (a + b)[0] == a[0];
      assert (a + b)[1..] == a[1..] + b;
      PopulateAppend(a[1..], b, comments);
    } else {
      assert a + b == b;
    }
  }

  /** The ordering only looks at ids below the bound. */
  lemma {:induction false} NewestFirstIgnoresAbove(posts: map<Id, Post>, k: Id, bound: nat)
    requires k >= bound
    ensures NewestFirst(posts - {k}, bound) == NewestFirst(posts, bound)
  {
    if bound > 0 {
      NewestFirstIgnoresAbove(posts, k, bound - 1);
    }
  }

  /** When every post id is below the clock, the ordering lists each post
      exactly once. */
  lemma {:induction false} NewestFirstListsAll(posts: map<Id, Post>, bound: nat)
    requires forall id :: id in posts ==> id < bound
    ensures |NewestFirst(posts, bound)| == |posts|
  {
    if bound == 0 {
      assert posts == map[];
    } else if bound - 1 in posts {
      var rest := posts - {bound - 1};
      NewestFirstTakesTop(posts, bound);
      NewestFirstListsAll(rest, bound - 1);
    } else {
      NewestFirstListsAll(posts, bound - 1);
    }
  }

  /** The newest post heads the ordering, and the rest is the ordering of
      the other posts. */
  lemma NewestFirstTakesTop(posts: map<Id, Post>, bound: nat)
    requires 0 < bound && bound - 1 in posts
    requires forall id :: id in posts ==> id < bound
    ensures forall id :: id in posts && id != bound - 1 ==> id < bound - 1
    ensures |posts - {bound - 1}| == |posts| - 1
    ensures NewestFirst(posts, bound) == [bound - 1] + NewestFirst(posts - {bound - 1}, bound - 1)
  {
    RemoveOneKey(posts, bound - 1);
    NewestFirstIgnoresAbove(posts, bound - 1, bound - 1);
  }

  lemma RemoveOneKey(posts: map<Id, Post>, k: Id)
    requires k in posts
    ensures |posts - {k}| == |posts| - 1
  {
    assert (posts - {k}).Keys == posts.Keys - {k};
  }

  /** On a store where every post's creation stamp is its id (the database
      invariant), a page is newest first by creation time, and its length
      follows from the number of posts and the offset. */
  lemma ListingIsNewestFirst(posts: map<Id, Post>, comments: map<Id, Comment>, bound: nat,
                             page: int, viewer: string)
    requires forall id :: id in posts ==> id < bound && posts[id].createdAt == id
    requires page >= 1
    ensures var r := GetArticles(posts, comments, bound, Some(page), viewer);
      var offset := (page - 1) * 10;
      && r.Success?
      && |r.value.posts| == (if offset >= |posts| then 0 else Min(PageSize, |posts| - offset))
      && (forall i, j :: 0 <= i < j < |r.value.posts| ==> r.value.posts[i].id > r.value.posts[j].id)
      && (forall i, j :: 0 <= i < j < |r.value.posts| ==>
            r.value.posts[i].createdAt > r.value.posts[j].createdAt)
  {
    NewestFirstListsAll(posts, bound);
    var r := GetArticles(posts, comments, bound, Some(page), viewer);
    var order, offset := NewestFirst(posts, bound), (page - 1) * 10;
    var vs := r.value.posts;
    forall i, j | 0 <= i < j < |vs|
      ensures vs[i].id > vs[j].id && vs[i].createdAt > vs[j].createdAt
    {
      assert order[offset + i] in posts && order[offset + j] in posts;
      assert order[offset + i] > order[offset + j];
    }
  }

  /** With 25 posts: the first page holds 10, the third holds 5, and there
      are 3 pages. */
  lemma TwentyFivePosts(posts: map<Id, Post>, comments: map<Id, Comment>, bound: nat, viewer: string)
    requires forall id :: id in posts ==> id < bound && posts[id].createdAt == id
    requires |posts| == 25
    ensures var r1, r3 := GetArticles(posts, comments, bound, Some(1), viewer),
                          GetArticles(posts, comments, bound, Some(3), viewer);
      && r1.Success? && |r1.value.posts| == 10
      && r3.Success? && |r3.value.posts| == 5
      && r1.value.totalPage == 3
  {
    ListingIsNewestFirst(posts, comments, bound, 1, viewer);
    ListingIsNewestFirst(posts, comments, bound, 3, viewer);
  }
}
