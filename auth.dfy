/**
 * The account routes of backend/routes/auth.js: registration appends a user
 * under a fresh id with a unique username; login, the user list and the
 * lookup by id are read-only queries over the users collection.
 * bcrypt is outside the model: registration receives the hash it produced,
 * and login receives its comparison as the uninterpreted `passwordMatches`.
 */
module Auth {
  import opened Collections
  import opened Db

  /** What the account routes disclose about a user: never the password hash. */
  datatype PublicUser = PublicUser(id: int, username: string, publicKey: string)

  function Public(u: User): PublicUser
  {
    PublicUser(u.id, u.username, u.publicKey)
  }

  /**
   * POST /register. 400 unless username, password and publicKey are all
   * present; 409 if the username is taken; otherwise one user is appended
   * under the next id, which is returned.
   */
  method Register(db: Store, username: Option<string>, password: Option<string>,
                  publicKey: Option<string>, passwordHash: string, now: Timestamp)
    returns (r: Reply<int>)
    modifies db
    ensures db.documents == old(db.documents) && db.shares == old(db.shares)
    ensures db.requests == old(db.requests)
    ensures !(Present(username) && Present(password) && Present(publicKey)) ==>
      r == Err(BadRequest) && db.users == old(db.users)
    ensures Present(username) && Present(password) && Present(publicKey) &&
            FindUserByName(old(db.users), username.value).Some? ==>
      r == Err(Conflict) && db.users == old(db.users)
    ensures Present(username) && Present(password) && Present(publicKey) &&
            FindUserByName(old(db.users), username.value).None? ==>
      && r == Ok(NextId(UserIds(old(db.users))))
      && db.users == old(db.users) + [User(r.value, username.value, passwordHash, publicKey.value, now)]
    ensures r.Ok? ==> forall u :: u in old(db.users) ==> u.id < r.value
    ensures old(db.Valid()) ==> db.Valid()
  {
    if !Present(username) || !Present(password) || !Present(publicKey) {
      return Err(BadRequest);
    }
    if FindUserByName(db.users, username.value).Some? {
      return Err(Conflict);
    }
    var newId := NextId(UserIds(db.users));
    var user := User(newId, username.value, passwordHash, publicKey.value, now);
    NextIdAboveAll(db.users, UserId);
    if DistinctBy(db.users, UserId) && UniqueUsernames(db.users) {
      InsertUserKeepsInvariant(db.users, user);
    }
    db.users := db.users + [user];
    r := Ok(newId);
  }

  /**
   * POST /login. 400 if username or password is missing; 401 both when no
   * user has the username and when the password does not match its hash
   * (the same reply either way); otherwise the stored user's public fields.
   * The JWT issued alongside is not modelled.
   */
  function Login(users: seq<User>, username: Option<string>, password: Option<string>,
                 passwordMatches: (string, string) -> bool): (r: Reply<PublicUser>)
    ensures r == Err(BadRequest) <==> !Present(username) || !Present(password)
    ensures r == Err(Unauthorized) <==>
      && Present(username) && Present(password)
      && (|| FindUserByName(users, username.value).None?
          || !passwordMatches(password.value, FindUserByName(users, username.value).value.passwordHash))
    ensures r.Ok? ==>
      && FindUserByName(users, username.value).Some?
      && var u := FindUserByName(users, username.value).value;
         passwordMatches(password.value, u.passwordHash) && r.value == PublicUser(u.id, u.username, u.publicKey)
    ensures r.Err? ==> r.status == BadRequest || r.status == Unauthorized
  {
    if !Present(username) || !Present(password) then Err(BadRequest)
    else match FindUserByName(users, username.value)
      case None => Err(Unauthorized)
      case Some(u) =>
        if !passwordMatches(password.value, u.passwordHash) then Err(Unauthorized)
        else Ok(Public(u))
  }

  /** GET /users: every user's public fields, in collection order. */
  function UserList(users: seq<User>): (r: seq<PublicUser>)
    ensures |r| == |users|
    ensures forall i :: 0 <= i < |users| ==>
      r[i].id == users[i].id && r[i].username == users[i].username && r[i].publicKey == users[i].publicKey
  {
    Map(users, Public)
  }

  /** GET /users/:id: 404 when no user has the id, else that user's public fields. */
  function GetUser(users: seq<User>, id: int): (r: Reply<PublicUser>)
    ensures r == Err(NotFound) <==> forall u :: u in users ==> u.id != id
    ensures r.Ok? ==> exists u :: u in users && u.id == id && r.value == PublicUser(u.id, u.username, u.publicKey)
    ensures r.Err? ==> r.status == NotFound
  {
    match FindUserById(users, id)
    case None => Err(NotFound)
    case Some(u) => Ok(Public(u))
  }

  /** The lookup by id succeeds exactly for the ids the user list shows, and returns an entry of it. */
  lemma GetUserAgreesWithList(users: seq<User>, id: int)
    ensures GetUser(users, id).Ok? <==> exists i :: 0 <= i < |users| && UserList(users)[i].id == id
    ensures GetUser(users, id).Ok? ==> GetUser(users, id).value in UserList(users)
  {
    var list := UserList(users);
    if GetUser(users, id).Ok? {
      var u :| u in users && u.id == id && GetUser(users, id).value == Public(u);
      var i :| 0 <= i < |users| && users[i] == u;
      assert list[i] == Public(u);
    } else {
      forall i | 0 <= i < |users| ensures list[i].id != id {
        assert users[i] in users;
      }
    }
  }

  /** Registration keeps usernames unique and ids distinct across any sequence of calls. */
  method RegisterTwice(db: Store, name: string, pw: string, key: string, h1: string, h2: string, now: Timestamp)
    returns (first: Reply<int>, second: Reply<int>)
    requires name != "" && pw != "" && key != ""
    modifies db
    ensures first.Ok? ==> second == Err(Conflict)
    ensures old(db.Valid()) ==> db.Valid()
  {
    first := Register(db, Some(name), Some(pw), Some(key), h1, now);
    second := Register(db, Some(name), Some(pw), Some(key), h2, now);
  }
}
