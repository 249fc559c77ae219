/**
 The user handlers: list, look up by id, register, and log in. Usernames are
 not unique; a login only ever sees the first user with the given username
 and compares the password by exact string equality.
 */
module UserController {
  import opened Models
  import opened DocumentStore

  /** The position of the first user satisfying `p`, as `findOne` / `findById` return it. */
  function FirstWhere(users: seq<User>, p: User -> bool): (r: Option<nat>)
    ensures r.Some? ==> r.value < |users| && p(users[r.value])
    ensures r.Some? ==> forall j :: 0 <= j < r.value ==> !p(users[j])
    ensures r.None? <==> forall j :: 0 <= j < |users| ==> !p(users[j])
    decreases |users|
  {
    if |users| == 0 then None
    else if p(users[0]) then Some(0)
    else
      match FirstWhere(users[1..], p)
      case None => None
      case Some(k) => Some(k + 1)
  }

  /** `i` is the position of the first user whose username is `username`. */
  predicate IsFirstMatch(users: seq<User>, username: string, i: int) {
    && 0 <= i < |users|
    && users[i].username == username
    && forall j :: 0 <= j < i ==> users[j].username != username
  }

  /** No two users share a username (the schema does not enforce this). */
  predicate UniqueUsernames(users: seq<User>) {
    forall i, j :: 0 <= i < j < |users| ==> users[i].username != users[j].username
  }

  /** `getAllUsers`: every user in insertion order; `CreateUserThenList` states how it grows. */
  function GetAllUsers(s: Store): Result<seq<User>> {
    Ok(s.users)
  }

  /** `getUserByID`: a stored user with that id, or NotFound when there is none. */
  function GetUserByID(s: Store, id: Id): (r: Result<User>)
    ensures r.Ok? || r.NotFound?
    ensures r.NotFound? <==> forall j :: 0 <= j < |s.users| ==> s.users[j].id != id
    ensures r.Ok? ==> r.value in s.users && r.value.id == id
  {
    match FirstWhere(s.users, (u: User) => u.id == id)
    case None => NotFound
    case Some(i) => Ok(s.users[i])
  }

  /**
   `createUser`: a user with the given name under a fresh id, appended to the
   users; an absent or empty username or password is stored as the empty
   string. A missing or empty name is a BadRequest that stores nothing.
   */
  function CreateUser(s: Store, f: UserFields): (r: Step<User>)
    ensures r.result.Ok? || r.result.BadRequest?
    ensures r.result.Ok? <==> UserFieldsValid(f)
    ensures r.result.BadRequest? ==> r.store == s
    ensures r.result.Ok? ==>
              && var u := r.result.value;
              && u.name == f.name.value
              && (f.username.Some? ==> u.username == f.username.value)
              && (f.username.None? ==> u.username == "")
              && (f.password.Some? ==> u.password == f.password.value)
              && (f.password.None? ==> u.password == "")
              && r.store.users == s.users + [u]
              && r.store.blogs == s.blogs
              && r.store.nextId > s.nextId
              && (Valid(s) ==> forall j :: 0 <= j < |s.users| ==> s.users[j].id != u.id)
    ensures Valid(s) ==> Valid(r.store)
  {
    if !UserFieldsValid(f) then Step(BadRequest, s)
    else
      var u := User(s.nextId, f.name.value, OrEmpty(f.username), OrEmpty(f.password));
      Step(Ok(u), s.(users := s.users + [u], nextId := s.nextId + 1))
  }

  /**
   `login`: succeeds, answering with the user, exactly when the first user
   with that username has exactly that password; Unauthorized otherwise,
   in particular when no user has that username. The store is only read.
   */
  function Login(s: Store, username: string, password: string): (r: Result<User>)
    ensures r.Ok? || r.Unauthorized?
    ensures r.Ok? <==> exists i :: IsFirstMatch(s.users, username, i) && s.users[i].password == password
    ensures r.Ok? ==> exists i :: IsFirstMatch(s.users, username, i) && s.users[i] == r.value
    ensures r.Ok? ==> r.value.username == username && r.value.password == password
    ensures (forall j :: 0 <= j < |s.users| ==> s.users[j].username != username) ==> r.Unauthorized?
  {
    match FirstWhere(s.users, (u: User) => u.username == username)
    case None => Unauthorized
    case Some(i) =>
      assert IsFirstMatch(s.users, username, i);
      if s.users[i].password == password then Ok(s.users[i]) else Unauthorized
  }

  // Properties relating several requests

  /** When usernames are unique, a login succeeds exactly when some user has both credentials. */
  lemma LoginUniqueIff(s: Store, username: string, password: string)
    requires UniqueUsernames(s.users)
    ensures Login(s, username, password).Ok? <==>
            exists i :: 0 <= i < |s.users| && s.users[i].username == username && s.users[i].password == password
  {
  }

  /**
   A later user who repeats the username of the first user with that
   username, under a different password, can never log in with their own
   credentials.
   */
  lemma LoginShadowed(s: Store, i: nat, j: nat)
    requires i < j < |s.users|
    requires IsFirstMatch(s.users, s.users[j].username, i)
    requires s.users[i].password != s.users[j].password
    ensures Login(s, s.users[j].username, s.users[j].password).Unauthorized?
  {
  }

  /** Registering a user appends it to the listing, after every earlier user. */
  lemma CreateUserThenList(s: Store, f: UserFields)
    requires UserFieldsValid(f)
    ensures
      var r := CreateUser(s, f);
      GetAllUsers(r.store) == Ok(GetAllUsers(s).value + [r.result.value])
  {
  }

  /** A registered user is found by its new id, with the defaults for the missing fields. */
  lemma CreateThenGetUser(s: Store, f: UserFields)
    requires Valid(s)
    requires UserFieldsValid(f)
    ensures
      var r := CreateUser(s, f);
      && GetUserByID(r.store, r.result.value.id) == Ok(r.result.value)
      && r.result.value.name == f.name.value
      && (f.username.None? ==> r.result.value.username == "")
      && (f.password.None? ==> r.result.value.password == "")
  {
    var r := CreateUser(s, f);
    var u := r.result.value;
    var users := r.store.users;
    assert users[|s.users|] == u;
    var found := GetUserByID(r.store, u.id);
    assert found.Ok?;
    var k :| 0 <= k < |users| && users[k] == found.value;
    assert k == |s.users|;
  }

  /**
   A user registered under a username no earlier user has can log in with
   the credentials as stored. In particular, when no earlier user has the
   username `''`, a user registered with only a name can be logged into
   with an empty username and an empty password.
   */
  lemma CreateThenLogin(s: Store, f: UserFields)
    requires UserFieldsValid(f)
    requires forall j :: 0 <= j < |s.users| ==> s.users[j].username != OrEmpty(f.username)
    ensures
      var r := CreateUser(s, f);
      Login(r.store, OrEmpty(f.username), OrEmpty(f.password)) == Ok(r.result.value)
  {
    var r := CreateUser(s, f);
    var name := OrEmpty(f.username);
    assert IsFirstMatch(r.store.users, name, |s.users|);
    var got := Login(r.store, name, OrEmpty(f.password));
    var k :| IsFirstMatch(r.store.users, name, k) && r.store.users[k] == got.value;
    assert k == |s.users|;
  }
}
