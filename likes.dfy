/** The like list embedded in a post: the lookups the like and unlike
    handlers run over it (`some` and `findIndex`), the removal they perform
    (`splice`) and the no-duplicate invariant the two keep together. */
module Likes {
  import opened Models

  /** `likes.some(like => like.userNum === userNum)`. */
  function HasLiked(likes: seq<Like>, userNum: string): (r: bool)
    ensures r <==> exists i :: 0 <= i < |likes| && likes[i].userNum == userNum
  {
    if likes == [] then false
    else likes[0].userNum == userNum || HasLiked(likes[1..], userNum)
  }

  /** `likes.findIndex(like => like.userNum === userNum)`: the first matching
      position, or -1 when there is none. */
  function FindIndex(likes: seq<Like>, userNum: string): (r: int)
    ensures -1 <= r < |likes|
    ensures r == -1 <==> !HasLiked(likes, userNum)
    ensures 0 <= r ==> likes[r].userNum == userNum
    ensures 0 <= r ==> forall j :: 0 <= j < r ==> likes[j].userNum != userNum
  {
    if likes == [] then -1
    else if likes[0].userNum == userNum then 0
    else
      var k := FindIndex(likes[1..], userNum);
      if k == -1 then -1 else k + 1
  }

  /** At most one like per user. */
  predicate NoDuplicateLikes(likes: seq<Like>) {
    forall i, j :: 0 <= i < j < |likes| ==> likes[i].userNum != likes[j].userNum
  }

  /** `likes.splice(likes.findIndex(...), 1)` on a list that holds the user. */
  function RemoveFirstLike(likes: seq<Like>, userNum: string): seq<Like>
    requires HasLiked(likes, userNum)
  {
    var i := FindIndex(likes, userNum);
    likes[..i] + likes[i + 1..]
  }

  /** Removing a like drops exactly one entry, the first one of that user,
      and the others keep their relative order. */
  lemma RemoveFirstLikeKeepsOrder(likes: seq<Like>, userNum: string)
    requires HasLiked(likes, userNum)
    ensures var r, i := RemoveFirstLike(likes, userNum), FindIndex(likes, userNum);
      && |r| == |likes| - 1
      && likes[i] == Like(userNum)
      && (forall k :: 0 <= k < i ==> r[k] == likes[k])
      && (forall k :: i <= k < |r| ==> r[k] == likes[k + 1])
  {
    var i := FindIndex(likes, userNum);
    var front, back := likes[..i], likes[i + 1..];
    assert RemoveFirstLike(likes, userNum) == front + back;
    assert |front| == i && |back| == |likes| - i - 1;
    assert likes[i].userNum == userNum;
  }

  /** As a multiset, removing a like takes away one `Like(userNum)`. */
  lemma {:induction false} RemoveFirstLikeDropsOne(likes: seq<Like>, userNum: string)
    requires HasLiked(likes, userNum)
    ensures multiset(RemoveFirstLike(likes, userNum)) + multiset{Like(userNum)} == multiset(likes)
  {
    var i := FindIndex(likes, userNum);
    assert likes == likes[..i] + [likes[i]] + likes[i + 1..];
    assert likes[i] == Like(userNum);
  }

  /** A like appended for a user who has none keeps the list free of
      duplicates. */
  lemma AddLikeKeepsNoDuplicates(likes: seq<Like>, userNum: string)
    requires NoDuplicateLikes(likes) && !HasLiked(likes, userNum)
    ensures NoDuplicateLikes(likes + [Like(userNum)])
    ensures HasLiked(likes + [Like(userNum)], userNum)
  {
    var r := likes + [Like(userNum)];
    assert r[|likes|].userNum == userNum;
  }

  /** Removing the user's like from a duplicate-free list keeps it
      duplicate-free and takes that user out. */
  lemma RemoveLikeKeepsNoDuplicates(likes: seq<Like>, userNum: string)
    requires NoDuplicateLikes(likes) && HasLiked(likes, userNum)
    ensures NoDuplicateLikes(RemoveFirstLike(likes, userNum))
    ensures !HasLiked(RemoveFirstLike(likes, userNum), userNum)
  {
    RemoveFirstLikeKeepsOrder(likes, userNum);
    var i := FindIndex(likes, userNum);
    var r := RemoveFirstLike(likes, userNum);
    forall a, b | 0 <= a < b < |r|
      ensures r[a].userNum != r[b].userNum
    {
      var a', b' := if a < i then a else a + 1, if b < i then b else b + 1;
      assert a' < b' && r[a] == likes[a'] && r[b] == likes[b'];
    }
    forall k | 0 <= k < |r|
      ensures r[k].userNum != userNum
    {
      var k' := if k < i then k else k + 1;
      assert k' != i && r[k] == likes[k'];
    }
  }

  /** Unlike leaves every other user's like in place: another user has
      liked afterwards exactly when they had before. */
  lemma RemoveLikeKeepsOthers(likes: seq<Like>, userNum: string, other: string)
    requires HasLiked(likes, userNum) && other != userNum
    ensures HasLiked(RemoveFirstLike(likes, userNum), other) <==> HasLiked(likes, other)
  {
    RemoveFirstLikeKeepsOrder(likes, userNum);
    var i := FindIndex(likes, userNum);
    var r := RemoveFirstLike(likes, userNum);
    if HasLiked(likes, other) {
      var j := FindIndex(likes, other);
      var j' := if j < i then j else j - 1;
      assert j != i && r[j'] == likes[j];
    }
  }

  /** Like followed by unlike, for a user who had not liked, gives back the
      list exactly. */
  lemma LikeThenUnlike(likes: seq<Like>, userNum: string)
    requires !HasLiked(likes, userNum)
    ensures HasLiked(likes + [Like(userNum)], userNum)
    ensures RemoveFirstLike(likes + [Like(userNum)], userNum) == likes
  {
    var r := likes + [Like(userNum)];
    assert r[|likes|].userNum == userNum;
    assert FindIndex(r, userNum) == |likes|;
    assert r[..|likes|] == likes;
  }

  /** Unlike followed by like gives back the same likes, but the user's
      entry moves to the end. */
  lemma UnlikeThenLike(likes: seq<Like>, userNum: string)
    requires HasLiked(likes, userNum)
    ensures !NoDuplicateLikes(likes) || !HasLiked(RemoveFirstLike(likes, userNum), userNum)
    ensures multiset(RemoveFirstLike(likes, userNum) + [Like(userNum)]) == multiset(likes)
  {
    RemoveFirstLikeDropsOne(likes, userNum);
    if NoDuplicateLikes(likes) {
      RemoveLikeKeepsNoDuplicates(likes, userNum);
    }
  }
}
