/** Record shapes of the three persisted collections (posts, comments and
    users) and the constraints their document schemas check when a record
    is saved. A string field that the request leaves out is modelled as the
    empty string: the schemas treat both alike. */
module Models {

  /** Stand-in for a document identifier. Posts and comments draw theirs
      from one counter, which also stamps the creation time of a post. */
  type Id = nat

  /** Snapshot of the author taken when an article or comment is created. */
  datatype Author = Author(userNum: string, nick: string)

  /** One entry of a post's like list. */
  datatype Like = Like(userNum: string)

  datatype Post = Post(
    title: string,
    content: string,
    author: Author,
    likes: seq<Like>,
    comments: seq<Id>,
    createdAt: nat)

  /** Comments and replies share this shape; a reply is a comment whose id
      sits in another comment's `replies`. */
  datatype Comment = Comment(
    postId: Id,
    author: Author,
    content: string,
    replies: seq<Id>)

  datatype User = User(
    userNum: string,
    nick: string,
    age: nat,
    gender: string,
    job: string,
    favorite: seq<string>)

  const Genders: set<string> := {"MALE", "FEMALE", "OTHER"}
  const Jobs: set<string> := {"STUDENT", "HOUSEWIFE", "WORKER", "PROFESSIONAL", "OTHER"}

  // ---------------------------------------------------------------------
  // The `trim: true` setter on Post.title: JavaScript's String.prototype.trim
  // removes white space and line terminators from both ends.

  /** The JavaScript WhiteSpace and LineTerminator code points (the Zs
      category written out in full). */
  const JsWhitespace: set<char> := {
    '\t', '\n', '\U{B}', '\U{C}', '\r', ' ', '\U{A0}', '\U{1680}',
    '\U{2000}', '\U{2001}', '\U{2002}', '\U{2003}', '\U{2004}', '\U{2005}',
    '\U{2006}', '\U{2007}', '\U{2008}', '\U{2009}', '\U{200A}',
    '\U{2028}', '\U{2029}', '\U{202F}', '\U{205F}', '\U{3000}', '\U{FEFF}'}

  predicate IsJsWhitespace(c: char) {
    c in JsWhitespace
  }

  /** A string with no white space at either end: what trim leaves. */
  predicate IsTrimmed(s: string) {
    s == [] || (!IsJsWhitespace(s[0]) && !IsJsWhitespace(s[|s| - 1]))
  }

  /** Drops the white space at the end. */
  function TrimEnd(s: string): (r: string)
    ensures |r| <= |s| && r == s[..|r|]
    ensures forall i :: |r| <= i < |s| ==> IsJsWhitespace(s[i])
    ensures r == [] || !IsJsWhitespace(r[|r| - 1])
  {
    if s != [] && IsJsWhitespace(s[|s| - 1]) then TrimEnd(s[..|s| - 1]) else s
  }

  /** `r` is `s` with a run of white space cut off at the start and another
      at the end. */
  ghost predicate CutsWhitespace(s: string, r: string) {
    exists a, b :: 0 <= a <= b <= |s| && r == s[a..b]
      && (forall i :: 0 <= i < a ==> IsJsWhitespace(s[i]))
      && (forall i :: b <= i < |s| ==> IsJsWhitespace(s[i]))
  }

  /** trim(): drops the white space at the start, then at the end. The
      result is the input with its white space cut off at both ends and none
      left at either end, and it is empty exactly when the whole input is
      white space. */
  function Trim(s: string): (r: string)
    ensures |r| <= |s|
    ensures CutsWhitespace(s, r)
    ensures IsTrimmed(r)
    ensures r == [] <==> forall i :: 0 <= i < |s| ==> IsJsWhitespace(s[i])
  {
    if s != [] && IsJsWhitespace(s[0]) then
      var r := Trim(s[1..]);
      assert forall i :: 1 <= i < |s| ==> s[i] == s[1..][i - 1];
      CutPastLeadingSpace(s, r);
      r
    else
      var r := TrimEnd(s);
      assert r == s[0..|r|];
      r
  }

  /** A cut of the string after a leading white space character is a cut
      of the whole string. */
  lemma CutPastLeadingSpace(s: string, r: string)
    requires s != [] && IsJsWhitespace(s[0])
    requires CutsWhitespace(s[1..], r)
    ensures CutsWhitespace(s, r)
  {
    var a, b :| 0 <= a <= b <= |s[1..]| && r == s[1..][a..b]
      && (forall i :: 0 <= i < a ==> IsJsWhitespace(s[1..][i]))
      && (forall i :: b <= i < |s[1..]| ==> IsJsWhitespace(s[1..][i]));
    assert r == s[a + 1..b + 1];
    assert forall i :: 1 <= i < |s| ==> s[i] == s[1..][i - 1];
  }

  /** Cutting white space off both ends of a string and leaving none at
      either end can be done in one way only: whatever computes it is trim. */
  lemma CutIsTrim(s: string, r: string)
    requires CutsWhitespace(s, r) && IsTrimmed(r)
    ensures r == Trim(s)
  {
    CutIsUnique(s, r, Trim(s));
  }

  /** Two such cuts of one string are the same string. */
  lemma CutIsUnique(s: string, r: string, t: string)
    requires CutsWhitespace(s, r) && IsTrimmed(r)
    requires CutsWhitespace(s, t) && IsTrimmed(t)
    ensures r == t
  {
    var a, b :| 0 <= a <= b <= |s| && r == s[a..b]
      && (forall i :: 0 <= i < a ==> IsJsWhitespace(s[i]))
      && (forall i :: b <= i < |s| ==> IsJsWhitespace(s[i]));
    var c, d :| 0 <= c <= d <= |s| && t == s[c..d]
      && (forall i :: 0 <= i < c ==> IsJsWhitespace(s[i]))
      && (forall i :: d <= i < |s| ==> IsJsWhitespace(s[i]));
    // a non-empty cut starts at the first character that is not white
    // space and ends after the last one
    if r != [] {
      TrimmedCutEnds(s, r, a, b);
    }
    if t != [] {
      TrimmedCutEnds(s, t, c, d);
    }
    if r != [] && t != [] {
      SameFirstNonSpace(s, a, c);
      SameLastNonSpace(s, b, d);
    }
  }

  /** A non-empty trimmed cut starts and ends on characters that are not
      white space. */
  lemma TrimmedCutEnds(s: string, r: string, a: nat, b: nat)
    requires a <= b <= |s| && r == s[a..b] && r != [] && IsTrimmed(r)
    ensures a < b && !IsJsWhitespace(s[a]) && !IsJsWhitespace(s[b - 1])
  {
    assert r[0] == s[a];
    assert r[|r| - 1] == s[b - 1];
  }

  /** The first character that is not white space has one position. */
  lemma SameFirstNonSpace(s: string, a: nat, c: nat)
    requires a < |s| && c < |s|
    requires (forall i :: 0 <= i < a ==> IsJsWhitespace(s[i])) && !IsJsWhitespace(s[a])
    requires (forall i :: 0 <= i < c ==> IsJsWhitespace(s[i])) && !IsJsWhitespace(s[c])
    ensures a == c
  {
  }

  /** So has the last one. */
  lemma SameLastNonSpace(s: string, b: nat, d: nat)
    requires 0 < b <= |s| && 0 < d <= |s|
    requires (forall i :: b <= i < |s| ==> IsJsWhitespace(s[i])) && !IsJsWhitespace(s[b - 1])
    requires (forall i :: d <= i < |s| ==> IsJsWhitespace(s[i])) && !IsJsWhitespace(s[d - 1])
    ensures b == d
  {
  }

  /** trim() leaves a trimmed string alone. */
  lemma TrimOfTrimmed(s: string)
    requires IsTrimmed(s)
    ensures Trim(s) == s
  {
  }

  lemma TrimIdempotent(s: string)
    ensures Trim(Trim(s)) == Trim(s)
  {
    TrimOfTrimmed(Trim(s));
  }

  // ---------------------------------------------------------------------
  // Schema checks applied on save (`required`, `min`, `enum`, `minlength`,
  // `maxlength`). A save that fails one of them throws and writes nothing.

  predicate AuthorStorable(a: Author) {
    a.userNum != "" && a.nick != ""
  }

  predicate PostStorable(p: Post) {
    && p.title != ""
    && p.content != ""
    && AuthorStorable(p.author)
    && forall i :: 0 <= i < |p.likes| ==> p.likes[i].userNum != ""
  }

  predicate CommentStorable(c: Comment) {
    c.content != "" && AuthorStorable(c.author)
  }

  predicate UserStorable(u: User) {
    && u.userNum != ""
    && u.nick != ""
    && u.gender in Genders
    && u.job in Jobs
    && forall i :: 0 <= i < |u.favorite| ==> 1 <= |u.favorite[i]| <= 30
  }

  /** The two `unique: true` indexes of the users collection. */
  predicate UsersUnique(users: seq<User>) {
    forall i, j :: 0 <= i < j < |users| ==>
      users[i].userNum != users[j].userNum && users[i].nick != users[j].nick
  }
}
