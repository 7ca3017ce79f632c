/** Registration and the nickname check: the request schema (which, unlike
    the content handlers, these handlers do enforce), the two lookups that
    keep userNum and nick unique, and the insertion of the new user. Token
    issuance after a successful registration is not part of this model. */
module Auth {
  import opened Models
  import opened Store

  /** The body of a registration request. */
  datatype RegisterForm = RegisterForm(
    userNum: string,
    nick: string,
    age: int,
    gender: string,
    job: string,
    favorite: seq<string>)

  /** The nick rule of both handlers' schemas: 1 to 10 characters. */
  predicate ValidNick(nick: string) {
    1 <= |nick| <= 10
  }

  /** `Number.MAX_SAFE_INTEGER`: a number schema refuses integers beyond
      it as unsafe. */
  const MaxSafeInteger: int := 0x1F_FFFF_FFFF_FFFF

  /** The registration schema: a non-empty userNum, a valid nick, a
      non-negative safe integer age, a gender and a job from their fixed
      sets, and at most three favourites of 1 to 30 characters each. */
  predicate RegisterSchemaAccepts(f: RegisterForm) {
    && f.userNum != ""
    && ValidNick(f.nick)
    && 0 <= f.age <= MaxSafeInteger
    && f.gender in Genders
    && f.job in Jobs
    && |f.favorite| <= 3
    && forall i :: 0 <= i < |f.favorite| ==> 1 <= |f.favorite[i]| <= 30
  }

  function NewUser(f: RegisterForm): User
    requires f.age >= 0
  {
    User(f.userNum, f.nick, f.age, f.gender, f.job, f.favorite)
  }

  /** The request schema is at least as strict as the users collection's
      document schema, so the save of an accepted form cannot fail it. */
  lemma AcceptedFormIsStorable(f: RegisterForm)
    requires RegisterSchemaAccepts(f)
    ensures UserStorable(NewUser(f))
  {
  }

  /** `User.findOne({ userNum })` finds a user. */
  function UserNumTaken(users: seq<User>, userNum: string): (r: bool)
    ensures r <==> exists i :: 0 <= i < |users| && users[i].userNum == userNum
  {
    if users == [] then false
    else users[0].userNum == userNum || UserNumTaken(users[1..], userNum)
  }

  /** `User.findOne({ nick })` finds a user. */
  function NickTaken(users: seq<User>, nick: string): (r: bool)
    ensures r <==> exists i :: 0 <= i < |users| && users[i].nick == nick
  {
    if users == [] then false
    else users[0].nick == nick || NickTaken(users[1..], nick)
  }

  /** `checkNickname`: refuses a nick the schema rejects, reports a nick in
      use, and accepts any other. It only reads the table. */
  function CheckNickname(users: seq<User>, nick: string): (r: Outcome)
    ensures r in {Ok, Invalid, Duplicate(NickField)}
    ensures r == Invalid <==> !ValidNick(nick)
    ensures r == Duplicate(NickField) <==>
      ValidNick(nick) && exists i :: 0 <= i < |users| && users[i].nick == nick
    ensures r == Ok <==>
      ValidNick(nick) && forall i :: 0 <= i < |users| ==> users[i].nick != nick
  {
    if !ValidNick(nick) then Invalid
    else if NickTaken(users, nick) then Duplicate(NickField)
    else Ok
  }

  /** A user whose userNum and nick are both new keeps the table unique. */
  lemma AppendKeepsUnique(users: seq<User>, u: User)
    requires UsersUnique(users)
    requires !UserNumTaken(users, u.userNum) && !NickTaken(users, u.nick)
    ensures UsersUnique(users + [u])
  {
    var r := users + [u];
    forall i, j | 0 <= i < j < |r|
      ensures r[i].userNum != r[j].userNum && r[i].nick != r[j].nick
    {
      if j == |users| {
        assert r[i] == users[i];
      }
    }
  }

  /** `register`: schema first, then the userNum lookup, then the nick
      lookup, then exactly one user appended; every refusal leaves the
      table as it was. */
  method Register(db: Database, form: RegisterForm) returns (o: Outcome)
    requires db.Valid()
    modifies db
    ensures db.Valid()
    ensures o in {Ok, Invalid, Duplicate(UserNumField), Duplicate(NickField)}
    ensures !RegisterSchemaAccepts(form) ==> o == Invalid
    ensures RegisterSchemaAccepts(form) && UserNumTaken(old(db.users), form.userNum) ==>
      o == Duplicate(UserNumField)
    ensures RegisterSchemaAccepts(form) && !UserNumTaken(old(db.users), form.userNum)
            && NickTaken(old(db.users), form.nick) ==>
      o == Duplicate(NickField)
    ensures o == Ok <==>
      && RegisterSchemaAccepts(form)
      && !UserNumTaken(old(db.users), form.userNum)
      && !NickTaken(old(db.users), form.nick)
    ensures o == Ok ==> db.State() == old(db.State()).(users := old(db.users) + [NewUser(form)])
    ensures o != Ok ==> db.State() == old(db.State())
  {
    if !RegisterSchemaAccepts(form) {
      return Invalid;
    }
    if UserNumTaken(db.users, form.userNum) {
      return Duplicate(UserNumField);
    }
    if NickTaken(db.users, form.nick) {
      return Duplicate(NickField);
    }
    var user := NewUser(form);
    AcceptedFormIsStorable(form);
    AppendKeepsUnique(db.users, user);
    db.users := db.users + [user];
    o := Ok;
  }
}
