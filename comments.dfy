/** The comment handlers: top-level comments, replies, the owner-checked
    delete that keeps a comment with replies as a tombstone and removes one
    without, and the owner-checked update. As for the articles, the request
    schema checks never reject and are absent; what remains is the lookup,
    the ownership gate and the document schema applied on save. */
module Comments {
  import opened Models
  import opened Store

  /** The content a deleted comment with replies is left showing. */
  const Tombstone: string := "삭제된 댓글입니다"

  /** A new comment with empty replies under an existing post, its id
      appended to the end of that post's comment list. The comment is
      written first and the post second; a comment the schema refuses is
      never written. */
  method CreateComment(db: Database, postId: Id, author: Author, content: string)
    returns (o: Outcome, created: Option<Id>)
    requires db.Valid()
    modifies db
    ensures db.Valid()
    ensures o in {Ok, NotFound, ServerError}
    ensures o == NotFound <==> postId !in old(db.posts)
    ensures o == Ok <==> postId in old(db.posts) && content != "" && AuthorStorable(author)
    ensures o == Ok ==>
      var c, p := old(db.clock), old(db.posts[postId]);
      && created == Some(c)
      && c !in old(db.comments)
      && db.State() == old(db.State()).(
           comments := old(db.comments)[c := Comment(postId, author, content, [])],
           posts := old(db.posts)[postId := p.(comments := p.comments + [c])],
           clock := c + 1)
    ensures o != Ok ==> created == None && db.State() == old(db.State())
  {
    if postId !in db.posts {
      return NotFound, None;
    }
    var post := db.posts[postId];
    var comment := Comment(postId, author, content, []);
    if !CommentStorable(comment) {
      return ServerError, None;
    }
    var id := db.clock;
    db.comments := db.comments[id := comment];
    db.clock := db.clock + 1;
    db.posts := db.posts[postId := post.(comments := post.comments + [id])];
    o, created := Ok, Some(id);
  }

  /** A reply under an existing comment: it takes the parent's postId, its
      id goes to the end of the parent's replies, and no post's comment
      list changes. */
  method CreateReply(db: Database, commentId: Id, author: Author, content: string)
    returns (o: Outcome, created: Option<Id>)
    requires db.Valid()
    modifies db
    ensures db.Valid()
    ensures o in {Ok, NotFound, ServerError}
    ensures o == NotFound <==> commentId !in old(db.comments)
    ensures o == Ok <==> commentId in old(db.comments) && content != "" && AuthorStorable(author)
    ensures o == Ok ==>
      var r, parent := old(db.clock), old(db.comments[commentId]);
      && created == Some(r)
      && r !in old(db.comments) && r != commentId
      && db.State() == old(db.State()).(
           comments := old(db.comments)[r := Comment(parent.postId, author, content, [])]
                                       [commentId := parent.(replies := parent.replies + [r])],
           clock := r + 1)
    ensures o != Ok ==> created == None && db.State() == old(db.State())
  {
    if commentId !in db.comments {
      return NotFound, None;
    }
    var parent := db.comments[commentId];
    var reply := Comment(parent.postId, author, content, []);
    if !CommentStorable(reply) {
      return ServerError, None;
    }
    var id := db.clock;
    db.comments := db.comments[id := reply];
    db.clock := db.clock + 1;
    db.comments := db.comments[commentId := parent.(replies := parent.replies + [id])];
    o, created := Ok, Some(id);
  }

  /** What a delete by the author does to the comments collection: a
      comment with replies keeps its record with the placeholder content,
      one without is removed. References to it elsewhere are left alone. */
  function AfterDelete(comments: map<Id, Comment>, id: Id): (r: map<Id, Comment>)
    requires id in comments
    ensures forall k :: k != id ==> (k in r <==> k in comments)
    ensures forall k :: k in r && k != id ==> r[k] == comments[k]
    ensures id in r <==> |comments[id].replies| > 0
    ensures id in r ==>
      var c := comments[id];
      r[id] == Comment(c.postId, c.author, Tombstone, c.replies)
  {
    var c := comments[id];
    if |c.replies| > 0 then comments[id := c.(content := Tombstone)] else comments - {id}
  }

  /** Deleting a comment that is already a tombstone changes nothing. */
  lemma DeleteIsIdempotent(comments: map<Id, Comment>, id: Id)
    requires id in comments && |comments[id].replies| > 0
    ensures id in AfterDelete(comments, id)
    ensures AfterDelete(AfterDelete(comments, id), id) == AfterDelete(comments, id)
    ensures comments[id].content == Tombstone ==> AfterDelete(comments, id) == comments
  {
  }

  /** Owner-checked delete: tombstone when the comment has replies, removal
      when it has none; a missing comment or another user is refused and
      nothing changes. */
  method DeleteComment(db: Database, commentId: Id, userNum: string) returns (o: Outcome)
    requires db.Valid()
    modifies db
    ensures db.Valid()
    ensures o in {Ok, NotFound, Forbidden}
    ensures commentId !in old(db.comments) ==> o == NotFound
    ensures commentId in old(db.comments) && !IsAuthor(old(db.comments[commentId].author), userNum) ==>
      o == Forbidden
    ensures o == Ok <==> commentId in old(db.comments) && IsAuthor(old(db.comments[commentId].author), userNum)
    ensures o == Ok ==> db.State() == old(db.State()).(comments := AfterDelete(old(db.comments), commentId))
    ensures o != Ok ==> db.State() == old(db.State())
  {
    if commentId !in db.comments {
      return NotFound;
    }
    var comment := db.comments[commentId];
    if !IsAuthor(comment.author, userNum) {
      return Forbidden;
    }
    if |comment.replies| > 0 {
      db.comments := db.comments[commentId := comment.(content := Tombstone)];
    } else {
      db.comments := db.comments - {commentId};
    }
    o := Ok;
  }

  /** Owner-checked update: a non-empty content replaces the old one, an
      empty one keeps it. A tombstoned comment is not refused. */
  method UpdateComment(db: Database, commentId: Id, userNum: string, content: string) returns (o: Outcome)
    requires db.Valid()
    modifies db
    ensures db.Valid()
    ensures o in {Ok, NotFound, Forbidden}
    ensures commentId !in old(db.comments) ==> o == NotFound
    ensures commentId in old(db.comments) && !IsAuthor(old(db.comments[commentId].author), userNum) ==>
      o == Forbidden
    ensures o == Ok <==> commentId in old(db.comments) && IsAuthor(old(db.comments[commentId].author), userNum)
    ensures o == Ok ==>
      var c := old(db.comments[commentId]);
      db.State() == old(db.State()).(comments := old(db.comments)[commentId :=
        c.(content := if content != "" then content else c.content)])
    ensures o != Ok ==> db.State() == old(db.State())
  {
    if commentId !in db.comments {
      return NotFound;
    }
    var comment := db.comments[commentId];
    if !IsAuthor(comment.author, userNum) {
      return Forbidden;
    }
    // `content || comment.content`; the stored content is never empty, so
    // the save that follows always passes the schema
    db.comments := db.comments[commentId := comment.(content := if content != "" then content else comment.content)];
    o := Ok;
  }
}
