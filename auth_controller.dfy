/** The handlers of server/controllers/authController.js: registering an
    account, logging in for a signed token and fetching the caller's account.
    Password hashing, its comparison and token signing are parameters. */
module AuthController {
  import opened Common
  import opened Sequences
  import opened UserModel

  /** What `register` sends back: never the password. */
  datatype Registered = Registered(id: Id, username: string, email: string, message: string)

  /** The account `verifyToken` sends back: every field but the password. */
  datatype UserView = UserView(
    id: Id,
    username: string,
    email: string,
    followers: seq<Id>,
    following: seq<Id>,
    createdAt: int)

  /** The token payload: the user's id, and when the token is issued and expires,
      in seconds since the epoch. */
  datatype Claims = Claims(userId: Id, issuedAt: int, expiresAt: int)

  /** The token lifetime, seven days, in seconds. */
  const TOKEN_LIFETIME: int := 7 * 24 * 60 * 60

  /** The one message of a failed login, whatever the cause. */
  const INVALID_CREDENTIALS: string := "Invalid credentials"

  /** The stored record of a new account: the password hashed with `salt`, no
      edges, created at `now`. */
  function NewUser(id: Id, username: string, email: string, password: string, salt: string,
                   hash: (string, string) -> string, now: int): (r: User)
    ensures r.id == id && r.username == username && r.email == email
    ensures r.password == hash(password, salt)
    ensures r.followers == [] && r.following == [] && r.createdAt == now
  {
    User(id, username, email, hash(password, salt), [], [], now)
  }

  /** `register`: all three fields are required; an account whose email or
      username is already taken is 400 and nothing is stored; otherwise the new
      account is appended with its password hashed, and its id, username and
      email are sent back. `newId` is the id the store generates, `salt` the
      generated salt. */
  method Register(users: UserCollection, username: Option<string>, email: Option<string>,
                  password: Option<string>, newId: Id, salt: string,
                  hash: (string, string) -> string, now: int) returns (r: Response<Registered>)
    requires users.Valid()
    requires FindUser(users.docs, newId).None?
    modifies users
    ensures users.Valid()
    ensures !(Truthy(username) && Truthy(email) && Truthy(password)) ==>
              && r == Response(BAD_REQUEST, Message("Please provide username, email, and password"))
              && users.docs == old(users.docs)
    ensures Truthy(username) && Truthy(email) && Truthy(password)
            && FindEither(old(users.docs), email.value, username.value).Some? ==>
              && r == Response(BAD_REQUEST, Message("User already exists with this email or username"))
              && users.docs == old(users.docs)
    ensures Truthy(username) && Truthy(email) && Truthy(password)
            && FindEither(old(users.docs), email.value, username.value).None? ==>
              && r == Response(CREATED, Data(Registered(newId, username.value, email.value, "User registered successfully")))
              && users.docs == old(users.docs) + [NewUser(newId, username.value, email.value, password.value, salt, hash, now)]
  {
    if !Truthy(username) || !Truthy(email) || !Truthy(password) {
      return Response(BAD_REQUEST, Message("Please provide username, email, and password"));
    }
    var existing := FindEither(users.docs, email.value, username.value);
    if existing.Some? {
      return Response(BAD_REQUEST, Message("User already exists with this email or username"));
    }
    var user := NewUser(newId, username.value, email.value, password.value, salt, hash, now);
    AppendKeepsUnique(users.docs, user);
    users.docs := users.docs + [user];
    r := Response(CREATED, Data(Registered(newId, username.value, email.value, "User registered successfully")));
  }

  /** Appending a user with a fresh id keeps the ids unique. */
  lemma AppendKeepsUnique(docs: seq<User>, u: User)
    requires UniqueKeys(docs, UserId)
    requires forall k :: 0 <= k < |docs| ==> docs[k].id != u.id
    ensures UniqueKeys(docs + [u], UserId)
  {
    var d := docs + [u];
    forall i, j | 0 <= i < j < |d| ensures UserId(d[i]) != UserId(d[j]) {
      if j < |docs| {
        assert UserId(docs[i]) != UserId(docs[j]);
      }
    }
  }

  /** `login`: both fields are required; the account is the first whose email or
      username is the identifier; no such account and a wrong password are the
      same 401; otherwise the token signs the account's id, now and the expiry
      seven days later. `now` is in seconds since the epoch, the unit of the
      token's issue and expiry times (not the milliseconds of `Date.now`). */
  function Login(docs: seq<User>, identifier: Option<string>, password: Option<string>,
                 compare: (string, string) -> bool, sign: Claims -> string, now: int): (r: Response<string>)
    ensures !(Truthy(identifier) && Truthy(password)) ==>
              r == Response(BAD_REQUEST, Message("Please provide email/username and password"))
    ensures r.status == OK <==>
              && Truthy(identifier) && Truthy(password)
              && var found := FindEither(docs, identifier.value, identifier.value);
                 found.Some? && compare(password.value, docs[found.value].password)
    ensures r.status == OK ==>
              r.body == Data(sign(Claims(docs[FindEither(docs, identifier.value, identifier.value).value].id,
                                         now, now + TOKEN_LIFETIME)))
    ensures Truthy(identifier) && Truthy(password) && r.status != OK ==>
              r == Response(UNAUTHORIZED, Message(INVALID_CREDENTIALS))
  {
    if !Truthy(identifier) || !Truthy(password) then
      Response(BAD_REQUEST, Message("Please provide email/username and password"))
    else
      match FindEither(docs, identifier.value, identifier.value)
      case None => Response(UNAUTHORIZED, Message(INVALID_CREDENTIALS))
      case Some(i) =>
        var user := docs[i];
        if !compare(password.value, user.password) then Response(UNAUTHORIZED, Message(INVALID_CREDENTIALS))
        else Response(OK, Data(sign(Claims(user.id, now, now + TOKEN_LIFETIME))))
  }

  /** A failed login does not tell an unknown identifier from a wrong password:
      the two collections answer alike although only the second holds the
      account. */
  lemma LoginFailuresAlike(docs: seq<User>, more: seq<User>, identifier: string, password: string,
                           compare: (string, string) -> bool, sign: Claims -> string, now: int)
    requires identifier != "" && password != ""
    requires forall k :: 0 <= k < |docs| ==> !MatchesEither(docs[k], identifier, identifier)
    requires forall k :: 0 <= k < |more| && MatchesEither(more[k], identifier, identifier) ==>
               !compare(password, more[k].password)
    ensures Login(docs, Some(identifier), Some(password), compare, sign, now)
            == Login(more, Some(identifier), Some(password), compare, sign, now)
    ensures Login(docs, Some(identifier), Some(password), compare, sign, now).status == UNAUTHORIZED
  {
    var found := FindEither(more, identifier, identifier);
    if found.Some? {
      assert !compare(password, more[found.value].password);
    }
  }

  /** `verifyToken`: a caller without an id is 401; an id whose account is gone
      is 404; otherwise the account without its password. `callerId` is the id
      the token carried. */
  function VerifyToken(docs: seq<User>, callerId: Option<Id>): (r: Response<UserView>)
    ensures !Truthy(callerId) ==>
              r == Response(UNAUTHORIZED, Message("Not authorized, user ID missing after token verification"))
    ensures Truthy(callerId) && !IsUser(docs, callerId.value) ==> r == Response(NOT_FOUND, Message("User not found"))
    ensures Truthy(callerId) && IsUser(docs, callerId.value) ==>
              && r.status == OK && r.body.Data?
              && exists k :: && 0 <= k < |docs| && docs[k].id == callerId.value
                             && r.body.value == UserView(docs[k].id, docs[k].username, docs[k].email,
                                                         docs[k].followers, docs[k].following, docs[k].createdAt)
  {
    if !Truthy(callerId) then
      Response(UNAUTHORIZED, Message("Not authorized, user ID missing after token verification"))
    else
      match FindUser(docs, callerId.value)
      case None => Response(NOT_FOUND, Message("User not found"))
      case Some(k) =>
        var u := docs[k];
        Response(OK, Data(UserView(u.id, u.username, u.email, u.followers, u.following, u.createdAt)))
  }

  /** The token of a login names the account that logged in: verifying its id
      sends back that account. */
  lemma LoginThenVerify(docs: seq<User>, identifier: Option<string>, password: Option<string>,
                        compare: (string, string) -> bool, sign: Claims -> string, now: int)
    requires UniqueKeys(docs, UserId)
    requires forall k :: 0 <= k < |docs| ==> docs[k].id != ""
    requires Login(docs, identifier, password, compare, sign, now).status == OK
    ensures var u := docs[FindEither(docs, identifier.value, identifier.value).value];
            VerifyToken(docs, Some(u.id))
            == Response(OK, Data(UserView(u.id, u.username, u.email, u.followers, u.following, u.createdAt)))
  {
    var i := FindEither(docs, identifier.value, identifier.value).value;
    var k := FindUser(docs, docs[i].id).value;
    if k != i {
      IdsDiffer(docs, k, i);
    }
  }

  /** Emails and usernames are each held by at most one account. */
  predicate AccountsUnique(docs: seq<User>)
  {
    forall i, j :: 0 <= i < |docs| && 0 <= j < |docs| && i != j ==>
      docs[i].email != docs[j].email && docs[i].username != docs[j].username
  }

  /** Registration never hands out a taken email or username. */
  lemma RegisterKeepsAccountsUnique(docs: seq<User>, username: string, email: string, u: User)
    requires AccountsUnique(docs)
    requires FindEither(docs, email, username).None?
    requires u.username == username && u.email == email
    ensures AccountsUnique(docs + [u])
  {
    var d := docs + [u];
    forall i, j | 0 <= i < |d| && 0 <= j < |d| && i != j
      ensures d[i].email != d[j].email && d[i].username != d[j].username
    {
      if i == |docs| {
        assert !MatchesEither(docs[j], email, username);
      } else if j == |docs| {
        assert !MatchesEither(docs[i], email, username);
      }
    }
  }

  /** A new account has no edges and a fresh id, so registering keeps the follow
      graph consistent. */
  lemma RegisterKeepsGraph(docs: seq<User>, u: User)
    requires FollowGraph(docs)
    requires !IsUser(docs, u.id)
    requires u.followers == [] && u.following == []
    ensures FollowGraph(docs + [u])
  {
    var d := docs + [u];
    forall x | IsUser(docs, x) ensures IsUser(d, x) {
      var k :| 0 <= k < |docs| && docs[k].id == x;
      assert d[k].id == x;
    }
    forall i, j | 0 <= i < |d| && 0 <= j < |d|
      ensures d[j].id in d[i].following <==> d[i].id in d[j].followers
    {
      if i < |docs| && j < |docs| {
        assert docs[j].id in docs[i].following <==> docs[i].id in docs[j].followers;
      } else if i < |docs| {
        assert u.id !in docs[i].following;
      } else if j < |docs| {
        assert u.id !in docs[j].followers;
      }
    }
  }

  /** A user who has just registered can log in with the new username, provided
      no older account has that username as its email, when comparing a password
      with its own hash succeeds. */
  lemma LoginAfterRegister(docs: seq<User>, id: Id, username: string, email: string, password: string,
                           salt: string, hash: (string, string) -> string, compare: (string, string) -> bool,
                           sign: Claims -> string, created: int, now: int)
    requires username != "" && password != ""
    requires FindEither(docs, email, username).None?
    requires forall k :: 0 <= k < |docs| ==> docs[k].email != username
    requires forall p, s :: compare(p, hash(p, s))
    ensures var after := docs + [NewUser(id, username, email, password, salt, hash, created)];
            Login(after, Some(username), Some(password), compare, sign, now)
            == Response(OK, Data(sign(Claims(id, now, now + TOKEN_LIFETIME))))
  {
    var after := docs + [NewUser(id, username, email, password, salt, hash, created)];
    forall k | 0 <= k < |docs| ensures !MatchesEither(after[k], username, username) {
      assert !MatchesEither(docs[k], email, username);
    }
    assert MatchesEither(after[|docs|], username, username);
    assert FindEither(after, username, username) == Some(|docs|);
  }
}
