/** A worked thread, proved from the handlers' contracts alone: an article,
    a comment on it, a reply to the comment, then the comment deleted by
    its author. The comment survives as a tombstone with its reply, and the
    listing shows it so. Deleting the reply afterwards removes the reply's
    record, yet the parent keeps the dangling id and stays a tombstone. */
module Scenario {
  import opened Models
  import opened Store
  import opened Articles
  import opened Comments

  const Article := Post("T", "C", Author("u1", "n1"), [], [], 0)
  const FirstComment := Comment(0, Author("u2", "n2"), "hi", [])
  const TheReply := Comment(0, Author("u3", "n3"), "reply", [])

  /** The store after the thread has been built and the comment deleted. */
  function ThreadState(): Snapshot {
    Snapshot(
      map[0 := Article.(comments := [1])],
      map[1 := FirstComment.(content := Tombstone, replies := [2]), 2 := TheReply],
      [], 3)
  }

  method PostArticle() returns (db: Database)
    ensures fresh(db) && db.Valid() && db.State() == Snapshot(map[0 := Article], map[], [], 1)
  {
    db := new Database();
    var title := Article.title;
    assert IsTrimmed(title) && title != "";
    TrimOfTrimmed(title);
    var o := CreateArticle(db, title, Article.content, Article.author);
    assert o == Ok;
  }

  method CommentOnIt(db: Database)
    requires db.Valid() && db.State() == Snapshot(map[0 := Article], map[], [], 1)
    modifies db
    ensures db.Valid()
    ensures db.State() == Snapshot(map[0 := Article.(comments := [1])], map[1 := FirstComment], [], 2)
  {
    var o, created := CreateComment(db, 0, Author("u2", "n2"), "hi");
    assert o == Ok && created == Some(1);
    assert Article.comments + [1] == [1];
    assert db.posts[0] == Article.(comments := [1]);
    assert db.posts.Keys == {0} && db.comments.Keys == {1};
  }

  method ReplyToIt(db: Database)
    requires db.Valid()
    requires db.State() == Snapshot(map[0 := Article.(comments := [1])], map[1 := FirstComment], [], 2)
    modifies db
    ensures db.Valid()
    ensures db.State() == Snapshot(map[0 := Article.(comments := [1])],
                                   map[1 := FirstComment.(replies := [2]), 2 := TheReply], [], 3)
  {
    var o, created := CreateReply(db, 1, Author("u3", "n3"), "reply");
    assert o == Ok && created == Some(2);
    assert FirstComment.replies + [2] == [2];
    assert db.comments.Keys == {1, 2};
    assert db.comments[1] == FirstComment.(replies := [2]) && db.comments[2] == TheReply;
  }

  /** The reply's author may not delete the comment; its own author may,
      and it becomes a tombstone. */
  method DeleteIt(db: Database)
    requires db.Valid()
    requires db.State() == Snapshot(map[0 := Article.(comments := [1])],
                                    map[1 := FirstComment.(replies := [2]), 2 := TheReply], [], 3)
    modifies db
    ensures db.Valid() && db.State() == ThreadState()
  {
    var o := DeleteComment(db, 1, "u3");
    assert o == Forbidden;
    o := DeleteComment(db, 1, "u2");
    assert o == Ok;
    assert db.comments.Keys == {1, 2};
  }

  method BuildThread() returns (db: Database)
    ensures db.Valid() && db.State() == ThreadState()
  {
    db := PostArticle();
    CommentOnIt(db);
    ReplyToIt(db);
    DeleteIt(db);
  }

  /** The listing of that store, as its comment's author sees it. */
  lemma ThreadListing()
    ensures var s := ThreadState();
      var page := GetArticles(s.posts, s.comments, s.clock, None, "u2");
      && page.Success? && |page.value.posts| == 1 && page.value.totalPage == 1
      && !page.value.posts[0].isMyArticle
      && |page.value.posts[0].comments| == 1
      && page.value.posts[0].comments[0].content == Tombstone
      && page.value.posts[0].comments[0].isMyComment
      && |page.value.posts[0].comments[0].replies| == 1
  {
    var s := ThreadState();
    assert NewestFirst(s.posts, 3) == [0];
    assert Populate([1], s.comments) == [1];
    assert Populate([2], s.comments) == [2];
  }

  /** Deleting the reply afterwards removes its record, but the parent
      keeps the id and so stays a tombstone. */
  method DeleteTheReply(db: Database)
    requires db.Valid() && db.State() == ThreadState()
    modifies db
    ensures 2 !in db.comments && 1 in db.comments && db.comments[1].replies == [2]
    ensures db.comments[1].content == Tombstone
  {
    var o := DeleteComment(db, 2, "u3");
    assert o == Ok;
  }
}
