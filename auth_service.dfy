/** backend/.../auth/application/AuthService.java: registration and login on
    top of the user service, the password encoder and the token service.

    Both operations answer an `AuthResponse` carrying a bearer token whose
    subject is the user's id. `generateToken` takes a string, so the id reaches
    the token as its decimal text (`TokenSubject`). The clock reading `now`
    (epoch milliseconds) and the JWT configuration are parameters. */
module AuthService {
  import opened Wrappers
  import opened JavaText
  import opened Users
  import opened JwtService
  import App = UserApplicationService

  datatype LoginRequest = LoginRequest(username: string, password: string)

  /** The response body of `/api/auth/register` and `/api/auth/login`. */
  datatype AuthResponse = AuthResponse(accessToken: Token, tokenType: string, expiresIn: int, user: UserDto)

  const BearerType := "Bearer"

  /** The one error login reports for an unknown username and for a wrong password. */
  const InvalidCredentials := RuntimeException("Invalid username or password")

  /** The subject written into a user's token: the decimal text of the id. */
  function TokenSubject(id: UserId): (s: string)
    ensures |s| > 0
  {
    LongToString(id)
  }

  /** The response for `user` with a freshly issued token, or the token service's error. */
  function Respond(jwt: Config, view: UserDto, now: nat): (r: Result<AuthResponse>)
    ensures r.Err? <==> GetSigningKey(jwt).Err?
    ensures r.Err? ==> r.error == IllegalStateException(WeakSecretMessage)
    ensures r.Ok? ==> && r.value.accessToken == GenerateToken(jwt, TokenSubject(view.id), now).value
                      && r.value.tokenType == BearerType
                      && r.value.expiresIn == jwt.accessTokenExpirationSeconds
                      && r.value.user == view
  {
    var token :- GenerateToken(jwt, TokenSubject(view.id), now);
    Ok(AuthResponse(token, BearerType, GetAccessTokenExpirationSeconds(jwt), view))
  }

  // ---------------------------------------------------------------------------
  // login
  // ---------------------------------------------------------------------------

  /** `login(request)`: find the user by the trimmed username, check the
      password against the stored hash, issue a token for the user's id. */
  function Login(rows: UserRows, encoder: PasswordEncoder, jwt: Config, request: LoginRequest, now: nat)
    : (r: Result<AuthResponse>)
    requires KeysMatchIds(rows) && UniqueUsernames(rows)
    ensures r.Ok? ==> && r.value.user.id in rows
                      && rows[r.value.user.id].username == Trim(request.username)
                      && encoder.matches(request.password, rows[r.value.user.id].passwordHash)
                      && r.value.user == App.ConvertToDto(rows[r.value.user.id])
                      && r.value.tokenType == BearerType
  {
    var username := Trim(request.username);
    match FindByUsername(rows, username)
    case None => Err(InvalidCredentials)
    case Some(user) =>
      if !encoder.matches(request.password, user.passwordHash) then Err(InvalidCredentials)
      else Respond(jwt, App.ConvertToDto(user), now)
  }

  /** The credentials select exactly one user: login succeeds if and only if
      that user's stored hash matches the password and the key can be derived,
      and it answers that user with a token whose subject is the user's id. */
  lemma LoginSucceedsIff(rows: UserRows, encoder: PasswordEncoder, jwt: Config, request: LoginRequest,
                         now: nat, id: UserId)
    requires WellFormed(rows)
    requires id in rows && rows[id].username == Trim(request.username)
    ensures Login(rows, encoder, jwt, request, now).Ok? <==>
              encoder.matches(request.password, rows[id].passwordHash) && GetSigningKey(jwt).Ok?
    ensures Login(rows, encoder, jwt, request, now).Ok? ==>
              && Login(rows, encoder, jwt, request, now).value.user == App.ConvertToDto(rows[id])
              && ExtractUsername(jwt, Login(rows, encoder, jwt, request, now).value.accessToken)
                   == Ok(TokenSubject(id))
  {
    var found := FindByUsername(rows, Trim(request.username));
    assert found == Some(rows[id]);
    if Login(rows, encoder, jwt, request, now).Ok? {
      IssuedSubjectRoundTrip(jwt, TokenSubject(id), now);
    }
  }

  /** Login never tells an unknown username from a wrong password: both give the
      same exception, and only a caller with the right password can see the
      key-length error. */
  lemma LoginHidesIdentity(rows: UserRows, encoder: PasswordEncoder, jwt: Config, request: LoginRequest, now: nat)
    requires WellFormed(rows)
    requires !exists id :: id in rows && rows[id].username == Trim(request.username)
                             && encoder.matches(request.password, rows[id].passwordHash)
    ensures Login(rows, encoder, jwt, request, now) == Err(InvalidCredentials)
  {
    match FindByUsername(rows, Trim(request.username))
    case None =>
    case Some(user) =>
      var id :| id in rows && rows[id] == user && user.username == Trim(request.username);
  }

  /** Two successful logins whose tokens carry the same subject were answered for
      the same user: the subject identifies the account. */
  lemma LoginTokenIdentifiesUser(rows: UserRows, encoder: PasswordEncoder, jwt: Config,
                                 req1: LoginRequest, req2: LoginRequest, now1: nat, now2: nat)
    requires WellFormed(rows)
    requires Login(rows, encoder, jwt, req1, now1).Ok? && Login(rows, encoder, jwt, req2, now2).Ok?
    requires ExtractUsername(jwt, Login(rows, encoder, jwt, req1, now1).value.accessToken) ==
             ExtractUsername(jwt, Login(rows, encoder, jwt, req2, now2).value.accessToken)
    ensures Login(rows, encoder, jwt, req1, now1).value.user.id ==
            Login(rows, encoder, jwt, req2, now2).value.user.id
  {
    var id1 := Login(rows, encoder, jwt, req1, now1).value.user.id;
    var id2 := Login(rows, encoder, jwt, req2, now2).value.user.id;
    IssuedSubjectRoundTrip(jwt, TokenSubject(id1), now1);
    IssuedSubjectRoundTrip(jwt, TokenSubject(id2), now2);
    LongToStringInjective(id1, id2);
  }

  // ---------------------------------------------------------------------------
  // register
  // ---------------------------------------------------------------------------

  /** What `register` returns and leaves in the user table. The user is saved by
      `createUser` before the token is issued, so a key error still leaves the
      new row behind. */
  function RegisterOutcome(rows: UserRows, encoder: PasswordEncoder, jwt: Config, request: App.CreateUserRequest,
                           freshId: UserId, now: nat): Outcome<AuthResponse, UserRows>
  {
    var created := App.CreateUserOutcome(rows, encoder, request, freshId);
    match created.result
    case Err(e) => Outcome(Err(e), created.store)
    case Ok(view) => Outcome(Respond(jwt, view, now), created.store)
  }

  method Register(users: UserTable, encoder: PasswordEncoder, jwt: Config, request: App.CreateUserRequest,
                  freshId: UserId, now: nat) returns (r: Result<AuthResponse>)
    modifies users
    ensures Outcome(r, users.rows) == RegisterOutcome(old(users.rows), encoder, jwt, request, freshId, now)
  {
    var created := App.CreateUser(users, encoder, request, freshId);
    if created.Err? {
      return Err(created.error);
    }
    r := Respond(jwt, created.value, now);
  }

  /** `register` writes exactly what `createUser` writes, whether or not the token
      can be issued; it succeeds when the username and email are free and the
      key can be derived, and then answers the new user with a token for the
      fresh id. */
  lemma RegisterEffect(rows: UserRows, encoder: PasswordEncoder, jwt: Config, request: App.CreateUserRequest,
                       freshId: UserId, now: nat)
    requires freshId !in rows
    ensures var o := RegisterOutcome(rows, encoder, jwt, request, freshId, now);
      && o.store == App.CreateUserOutcome(rows, encoder, request, freshId).store
      && (o.result.Ok? <==> !ExistsByUsername(rows, Trim(request.username))
                            && !ExistsByEmail(rows, Trim(request.email))
                            && GetSigningKey(jwt).Ok?)
      && (o.result.Ok? ==> && o.result.value.user == App.ConvertToDto(o.store[freshId])
                           && ExtractUsername(jwt, o.result.value.accessToken) == Ok(TokenSubject(freshId)))
  {
    App.CreateUserEffect(rows, encoder, request, freshId);
    if GetSigningKey(jwt).Ok? {
      IssuedSubjectRoundTrip(jwt, TokenSubject(freshId), now);
    }
  }

  /** With a secret that is too short, a registration with free credentials fails
      with the key-length error but the user has been created all the same. */
  lemma RegisterWeakSecretKeepsUser(rows: UserRows, encoder: PasswordEncoder, jwt: Config,
                                    request: App.CreateUserRequest, freshId: UserId, now: nat)
    requires freshId !in rows
    requires !ExistsByUsername(rows, Trim(request.username)) && !ExistsByEmail(rows, Trim(request.email))
    requires |Utf8Encode(jwt.secret)| < MinKeyBytes
    ensures var o := RegisterOutcome(rows, encoder, jwt, request, freshId, now);
      && o.result == Err(IllegalStateException(WeakSecretMessage))
      && freshId in o.store && o.store[freshId].username == Trim(request.username)
  {
  }

  /** Registering a second time with the same username fails with the
      username-taken error and adds no second row. */
  lemma RegisterTwiceSameUsernameFails(rows: UserRows, encoder: PasswordEncoder, jwt: Config,
                                       first: App.CreateUserRequest, second: App.CreateUserRequest,
                                       id1: UserId, id2: UserId, now1: nat, now2: nat)
    requires id1 !in rows
    requires RegisterOutcome(rows, encoder, jwt, first, id1, now1).result.Ok?
    requires Trim(second.username) == Trim(first.username)
    ensures var after := RegisterOutcome(rows, encoder, jwt, first, id1, now1).store;
      RegisterOutcome(after, encoder, jwt, second, id2, now2) ==
        Outcome(Err(App.UsernameTaken(Trim(first.username))), after)
  {
    var after := RegisterOutcome(rows, encoder, jwt, first, id1, now1).store;
    App.CreateUserEffect(rows, encoder, first, id1);
    assert id1 in after && after[id1].username == Trim(second.username);
  }

  /** A user who has just registered can log in with the same username and
      password (given an encoder whose `matches` accepts what `encode` produced),
      and is answered with the registered account. */
  lemma RegisterThenLogin(rows: UserRows, encoder: PasswordEncoder, jwt: Config, request: App.CreateUserRequest,
                          freshId: UserId, now: nat, later: nat)
    requires WellFormed(rows) && freshId !in rows
    requires encoder.matches(request.password, encoder.encode(request.password))
    requires RegisterOutcome(rows, encoder, jwt, request, freshId, now).result.Ok?
    ensures var o := RegisterOutcome(rows, encoder, jwt, request, freshId, now);
      && WellFormed(o.store)
      && Login(o.store, encoder, jwt, LoginRequest(request.username, request.password), later).Ok?
      && Login(o.store, encoder, jwt, LoginRequest(request.username, request.password), later).value.user
           == o.result.value.user
  {
    var o := RegisterOutcome(rows, encoder, jwt, request, freshId, now);
    App.CreateUserEffect(rows, encoder, request, freshId);
    App.CreateUserKeepsWellFormed(rows, encoder, request, freshId);
    LoginSucceedsIff(o.store, encoder, jwt, LoginRequest(request.username, request.password), later, freshId);
  }
}
