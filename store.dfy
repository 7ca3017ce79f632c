/** The database the controllers talk to: the posts and comments
    collections keyed by id, the users collection, and the counter that
    allocates ids and creation stamps. Also the outcomes the handlers
    answer with (each stands for an HTTP status of the source) and the
    ownership gate that update and delete of an article or a comment run. */
module Store {
  import opened Models
  import opened Likes

  datatype Option<T> = None | Some(value: T)

  /** Which unique field of a user a registration collided on. */
  datatype UniqueField = UserNumField | NickField

  datatype Outcome =
    | Ok                         // 200 / 201
    | NotFound                   // 404
    | Forbidden                  // 403
    | AlreadyLiked               // 400, user already in the like list
    | NotLiked                   // 400, user not in the like list
    | Duplicate(field: UniqueField) // 409
    | Invalid                    // 400, schema validation refused the body
    | ServerError                // 500, or any path that ends in the catch block

  /** The outcome of a read: a payload, or the failure outcome. */
  datatype Result<T> = Success(value: T) | Failure(outcome: Outcome)

  /** The whole content of the database, as one value. */
  datatype Snapshot = Snapshot(
    posts: map<Id, Post>,
    comments: map<Id, Comment>,
    users: seq<User>,
    clock: nat)

  /** The ownership gate: the acting user must be the one in the author
      snapshot; identifiers are compared exactly. */
  predicate IsAuthor(author: Author, userNum: string) {
    author.userNum == userNum
  }

  /** What every stored post satisfies: it passed its schema, its title went
      through the trim setter, and its likes hold each user at most once. */
  predicate PostWellFormed(p: Post) {
    PostStorable(p) && IsTrimmed(p.title) && NoDuplicateLikes(p.likes)
  }

  /** The database invariant, on a snapshot: every stored record passed its
      schema; ids were allocated below the clock, and a post's creation
      stamp is the clock value that gave it its id; userNum and nick are
      unique across users. */
  ghost predicate ValidState(s: Snapshot) {
    && PostsValid(s.posts, s.clock)
    && (forall id :: id in s.comments ==> id < s.clock && CommentStorable(s.comments[id]))
    && (forall i :: 0 <= i < |s.users| ==> UserStorable(s.users[i]))
    && UsersUnique(s.users)
  }

  ghost predicate PostsValid(posts: map<Id, Post>, clock: nat) {
    forall id :: id in posts ==> id < clock && posts[id].createdAt == id && PostWellFormed(posts[id])
  }

  /** Overwriting a stored post with a well-formed post that keeps its
      creation stamp keeps the invariant. */
  lemma ReplacePostKeepsValid(s: Snapshot, id: Id, p: Post)
    requires ValidState(s) && id in s.posts
    requires p.createdAt == s.posts[id].createdAt && PostWellFormed(p)
    ensures ValidState(s.(posts := s.posts[id := p]))
  {
  }

  /** A well-formed post stored under the clock value, with the clock then
      advanced, keeps the invariant. */
  lemma InsertPostKeepsValid(s: Snapshot, p: Post)
    requires ValidState(s) && p.createdAt == s.clock && PostWellFormed(p)
    ensures ValidState(s.(posts := s.posts[s.clock := p], clock := s.clock + 1))
  {
  }

  class Database {
    var posts: map<Id, Post>
    var comments: map<Id, Comment>
    var users: seq<User>
    var clock: nat

    function State(): Snapshot
      reads this
    {
      Snapshot(posts, comments, users, clock)
    }

    ghost predicate Valid()
      reads this
    {
      ValidState(State())
    }

    constructor ()
      ensures Valid()
      ensures State() == Snapshot(map[], map[], [], 0)
    {
      posts := map[];
      comments := map[];
      users := [];
      clock := 0;
    }
  }
}
