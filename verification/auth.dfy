/** The in-memory user store and the decision logic of the routes in
    backend/app/api/routes/auth.py: `users_db` (email to user record, in insertion order) and the
    `next_user_id` counter, changed only by `register`; `login`, `refresh_token` and
    `get_current_user_info` read them. Password hashing is supplied from outside: `register` is
    given the hash of the new password and `login` the password verifier. */
module AuthRoutes {
  import opened Wrappers
  import opened Schemas
  import opened Security

  /** One record of `users_db`. Timestamps are whole seconds. */
  datatype User = User(
    id: int,
    email: string,
    passwordHash: string,
    fullName: Option<string>,
    accessLevel: string,
    isActive: bool,
    createdAt: int)

  /** `UserResponse`: the record without its password hash. */
  datatype UserResponse = UserResponse(
    id: int,
    email: string,
    fullName: Option<string>,
    accessLevel: string,
    isActive: bool,
    createdAt: int)

  function ResponseOf(u: User): UserResponse {
    UserResponse(u.id, u.email, u.fullName, u.accessLevel, u.isActive, u.createdAt)
  }

  /** `UserCreate`, after request validation. */
  datatype UserCreate = UserCreate(email: string, password: string, fullName: Option<string>, accessLevel: Option<UserAccess>)

  /** `user_data.access_level or "setosa"`. */
  function RequestedAccess(req: UserCreate): string {
    match req.accessLevel
    case Some(a) => a.Value()
    case None => "setosa"
  }

  const DuplicateEmail: HttpError := HttpError(Conflict, "User with this email already exists")
  const BadCredentials: HttpError := HttpError(Unauthorized, "Incorrect email or password")
  const Inactive: HttpError := HttpError(Forbidden, "User account is inactive")
  const UserNotFound: HttpError := HttpError(NotFound, "User not found")
  const InvalidRefresh: HttpError := HttpError(Unauthorized, "Invalid refresh token")

  /** The first user, in the order the keys were inserted, whose id is the given one. */
  function FirstWithId(keys: seq<string>, users: map<string, User>, id: int): Option<User>
    requires forall k :: k in keys ==> k in users
  {
    if keys == [] then None
    else if users[keys[0]].id == id then Some(users[keys[0]])
    else FirstWithId(keys[1..], users, id)
  }

  lemma {:induction false} FirstWithIdSpec(keys: seq<string>, users: map<string, User>, id: int)
    requires forall k :: k in keys ==> k in users
    ensures FirstWithId(keys, users, id).Some? <==> exists k :: k in keys && users[k].id == id
    ensures FirstWithId(keys, users, id).Some? ==>
      exists k :: k in keys && users[k] == FirstWithId(keys, users, id).value && users[k].id == id
  {
    if keys != [] {
      FirstWithIdSpec(keys[1..], users, id);
      assert forall k :: k in keys ==> k == keys[0] || k in keys[1..];
    }
  }

  class UserStore {
    var users: map<string, User>
    /** The keys of `users` in insertion order, the order a Python dict iterates in. */
    var order: seq<string>
    var nextUserId: int

    /** Every key is the user's email and appears once in the insertion order; every id is
        positive and below the counter, and no two users share an id. */
    ghost predicate Valid()
      reads this
    {
      && 1 <= nextUserId
      && (forall i, j :: 0 <= i < j < |order| ==> order[i] != order[j])
      && (forall e :: e in users <==> e in order)
      && (forall e :: e in users ==> users[e].email == e && 1 <= users[e].id < nextUserId)
      && (forall e1, e2 :: e1 in users && e2 in users && users[e1].id == users[e2].id ==> e1 == e2)
    }

    /** The seeded store: three users with ids 1, 2 and 3, and the counter at 4. The three password
        hashes and the creation time are supplied. */
    constructor(setosaHash: string, virginicaHash: string, adminHash: string, now: int)
      ensures Valid()
      ensures order == ["setosa@example.com", "virginica@example.com", "admin@example.com"]
      ensures users == map[
        "setosa@example.com" := User(1, "setosa@example.com", setosaHash, Some("Setosa User"), "setosa", true, now),
        "virginica@example.com" := User(2, "virginica@example.com", virginicaHash, Some("Virginica User"), "virginica", true, now),
        "admin@example.com" := User(3, "admin@example.com", adminHash, Some("Admin User"), "all", true, now)]
      ensures nextUserId == 4
    {
      users := map[
        "setosa@example.com" := User(1, "setosa@example.com", setosaHash, Some("Setosa User"), "setosa", true, now),
        "virginica@example.com" := User(2, "virginica@example.com", virginicaHash, Some("Virginica User"), "virginica", true, now),
        "admin@example.com" := User(3, "admin@example.com", adminHash, Some("Admin User"), "all", true, now)];
      order := ["setosa@example.com", "virginica@example.com", "admin@example.com"];
      nextUserId := 4;
    }

    /** `register`: a known email is refused with 409 and nothing changes; otherwise the new, active
        user takes the counter's value as id, the counter moves on by one, and no other user changes. */
    method Register(req: UserCreate, passwordHash: string, now: int) returns (r: Result<UserResponse, HttpError>)
      requires Valid()
      modifies this
      ensures Valid()
      ensures req.email in old(users) ==>
        r == Failure(DuplicateEmail) && users == old(users) && order == old(order) && nextUserId == old(nextUserId)
      ensures req.email !in old(users) ==>
        var u := User(old(nextUserId), req.email, passwordHash, req.fullName, RequestedAccess(req), true, now);
        && r == Success(ResponseOf(u))
        && users == old(users)[req.email := u]
        && order == old(order) + [req.email]
        && nextUserId == old(nextUserId) + 1
    {
      if req.email in users {
        return Failure(DuplicateEmail);
      }
      var userId := nextUserId;
      nextUserId := nextUserId + 1;
      var u := User(userId, req.email, passwordHash, req.fullName, RequestedAccess(req), true, now);
      users := users[req.email := u];
      order := order + [req.email];
      r := Success(ResponseOf(u));
    }

    /** `login`: an unknown email and a wrong password give the same 401; an inactive account gives
        403, decided only once the password is right; otherwise tokens for the stored identity. */
    function Login(email: string, password: string, verify: (string, string) -> bool,
                   cfg: SecurityConfig, codec: Codec, now: int): (r: Result<TokenPair, HttpError>)
      reads this
      ensures r.Failure? ==> r.error in {BadCredentials, Inactive}
      ensures r == Failure(BadCredentials) <==> email !in users || !verify(password, users[email].passwordHash)
      ensures r == Failure(Inactive) <==>
        email in users && verify(password, users[email].passwordHash) && !users[email].isActive
      ensures r.Success? ==>
        var u := users[email];
        email in users && u.isActive && r.value == CreateTokens(cfg, codec, u.id, u.email, u.accessLevel, now)
    {
      if email !in users then Failure(BadCredentials)
      else
        var u := users[email];
        if !verify(password, u.passwordHash) then Failure(BadCredentials)
        else if !u.isActive then Failure(Inactive)
        else Success(CreateTokens(cfg, codec, u.id, u.email, u.accessLevel, now))
    }

    /** The user `refresh_token` and `get_current_user_info` find by id. */
    function UserById(id: int): Option<User>
      reads this
      requires Valid()
    {
      FirstWithId(order, users, id)
    }

    /** The scan over `users_db.items()` that stops at the first user with the id. */
    method FindUserById(id: int) returns (found: Option<User>)
      requires Valid()
      ensures found == UserById(id)
      ensures found.Some? <==> exists e :: e in users && users[e].id == id
      ensures found.Some? ==> found.value.id == id && found.value.email in users && users[found.value.email] == found.value
    {
      var k := 0;
      while k < |order|
        invariant 0 <= k <= |order|
        invariant FirstWithId(order, users, id) == FirstWithId(order[k..], users, id)
      {
        if users[order[k]].id == id {
          found := Some(users[order[k]]);
          FirstWithIdSpec(order, users, id);
          return;
        }
        assert order[k..][1..] == order[k + 1..];
        k := k + 1;
      }
      found := None;
      FirstWithIdSpec(order, users, id);
    }

    /** `refresh_token`: a rejected token keeps its own error, a subject that is not an integer
        becomes 401 "Invalid refresh token"; an unknown id gives 404, an inactive user 403, and
        otherwise fresh tokens for the stored identity. */
    method RefreshToken(token: string, cfg: SecurityConfig, codec: Codec, now: int)
      returns (r: Result<TokenPair, HttpError>)
      requires Valid()
      ensures match VerifyRefreshToken(codec, token, now)
        case Failure(Rejected(e)) => r == Failure(e)
        case Failure(SubjectNotInteger) => r == Failure(InvalidRefresh)
        case Success(info) =>
          match UserById(info.userId)
          case None => r == Failure(UserNotFound)
          case Some(u) =>
            r == if u.isActive then Success(CreateTokens(cfg, codec, u.id, u.email, u.accessLevel, now))
                 else Failure(Inactive)
    {
      var verified := VerifyRefreshToken(codec, token, now);
      if verified.Failure? {
        match verified.error {
          case Rejected(e) => return Failure(e);
          case SubjectNotInteger => return Failure(InvalidRefresh);
        }
      }
      var user := FindUserById(verified.value.userId);
      if user.None? {
        return Failure(UserNotFound);
      }
      if !user.value.isActive {
        return Failure(Inactive);
      }
      r := Success(CreateTokens(cfg, codec, user.value.id, user.value.email, user.value.accessLevel, now));
    }

    /** `get_current_user_info`: the record of the authenticated user's id, or 404. */
    method GetCurrentUserInfo(current: UserInToken) returns (r: Result<UserResponse, HttpError>)
      requires Valid()
      ensures r.Success? <==> exists e :: e in users && users[e].id == current.userId
      ensures r.Failure? ==> r.error == UserNotFound
      ensures r.Success? ==> exists e :: e in users && users[e].id == current.userId && r.value == ResponseOf(users[e])
    {
      var user := FindUserById(current.userId);
      if user.None? {
        return Failure(UserNotFound);
      }
      r := Success(ResponseOf(user.value));
    }
  }

  /** Refreshing with a refresh token issued for a stored, active user yields a fresh pair for that
      same user, as long as the refresh token has not expired. */
  lemma RefreshOfOwnTokenSucceeds(store: UserStore, e: string, cfg: SecurityConfig, codec: Codec, issued: int, now: int)
    requires store.Valid() && RoundTrips(codec)
    requires e in store.users && store.users[e].isActive && store.users[e].accessLevel != "" && e != ""
    requires now <= issued + RefreshLifetime(cfg)
    ensures var u := store.users[e];
      var token := CreateTokens(cfg, codec, u.id, u.email, u.accessLevel, issued).refreshToken;
      VerifyRefreshToken(codec, token, now) == Success(UserInToken(u.id, u.email, u.accessLevel)) &&
      store.UserById(u.id) == Some(u)
  {
    var u := store.users[e];
    CreateThenVerifyRoundTrip(cfg, codec, u.id, u.email, u.accessLevel, issued, now);
    FirstWithIdSpec(store.order, store.users, u.id);
  }
}
