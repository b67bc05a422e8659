/** backend/.../service/AuthService.java: the older draft of the authentication
    service, built on the draft `UserService`. It differs from the hexagonal
    `AuthService` in one respect only: the token's subject is the username, not
    the id. The lemmas below prove that every other part of the answer, every
    error and every write agree with the hexagonal version, and that the draft's
    tokens pass `isTokenValid` against the user's own details. */
module AuthServiceDraft {
  import opened Wrappers
  import opened JavaText
  import opened Users
  import opened JwtService
  import App = UserApplicationService
  import UserServiceDraft
  import Auth = AuthService

  /** The response for `view` with a token whose subject is its username. */
  function Respond(jwt: Config, view: UserDto, now: nat): (r: Result<Auth.AuthResponse>)
    ensures r.Err? <==> GetSigningKey(jwt).Err?
    ensures r.Err? ==> r.error == IllegalStateException(WeakSecretMessage)
    ensures r.Ok? ==> && r.value.accessToken == GenerateToken(jwt, view.username, now).value
                      && r.value.tokenType == Auth.BearerType
                      && r.value.expiresIn == jwt.accessTokenExpirationSeconds
                      && r.value.user == view
  {
    var token :- GenerateToken(jwt, view.username, now);
    Ok(Auth.AuthResponse(token, Auth.BearerType, GetAccessTokenExpirationSeconds(jwt), view))
  }

  /** `login(request)` of the draft. */
  function Login(rows: UserRows, encoder: PasswordEncoder, jwt: Config, request: Auth.LoginRequest, now: nat)
    : (r: Result<Auth.AuthResponse>)
    requires KeysMatchIds(rows) && UniqueUsernames(rows)
    ensures r.Ok? ==> && r.value.user.id in rows
                      && rows[r.value.user.id].username == Trim(request.username)
                      && encoder.matches(request.password, rows[r.value.user.id].passwordHash)
  {
    var username := Trim(request.username);
    match FindByUsername(rows, username)
    case None => Err(Auth.InvalidCredentials)
    case Some(user) =>
      if !encoder.matches(request.password, user.passwordHash) then Err(Auth.InvalidCredentials)
      else Respond(jwt, UserServiceDraft.ConvertToDto(user), now)
  }

  /** The draft's login fails exactly when the hexagonal one does, with the same
      exception, and otherwise answers the same user, type and lifetime; only
      the token differs, carrying the username as its subject. */
  lemma LoginAgreesWithHexagonal(rows: UserRows, encoder: PasswordEncoder, jwt: Config,
                                 request: Auth.LoginRequest, now: nat)
    requires WellFormed(rows)
    ensures var draft := Login(rows, encoder, jwt, request, now);
            var hex := Auth.Login(rows, encoder, jwt, request, now);
      && (draft.Ok? <==> hex.Ok?)
      && (draft.Err? ==> draft.error == hex.error)
      && (draft.Ok? ==> && draft.value.user == hex.value.user
                        && draft.value.tokenType == hex.value.tokenType
                        && draft.value.expiresIn == hex.value.expiresIn
                        && ExtractUsername(jwt, draft.value.accessToken) == Ok(draft.value.user.username)
                        && ExtractUsername(jwt, hex.value.accessToken) == Ok(Auth.TokenSubject(hex.value.user.id)))
  {
    var draft := Login(rows, encoder, jwt, request, now);
    if draft.Ok? {
      IssuedSubjectRoundTrip(jwt, draft.value.user.username, now);
      IssuedSubjectRoundTrip(jwt, Auth.TokenSubject(draft.value.user.id), now);
    }
  }

  /** A token from the draft's login, issued with a lifetime of at least one
      second, passes `isTokenValid` at the instant of issue against the details
      of the user it was issued to. */
  lemma LoginTokenValidForUser(rows: UserRows, encoder: PasswordEncoder, jwt: Config,
                               request: Auth.LoginRequest, now: nat)
    requires WellFormed(rows)
    requires jwt.accessTokenExpirationSeconds >= 1
    requires Login(rows, encoder, jwt, request, now).Ok?
    ensures var r := Login(rows, encoder, jwt, request, now).value;
      IsTokenValid(jwt, r.accessToken, rows[r.user.id].username, now) == Ok(true)
  {
    var r := Login(rows, encoder, jwt, request, now).value;
    FreshTokenIsValid(jwt, r.user.username, now);
  }

  /** What the draft's `register` returns and leaves in the user table. */
  function RegisterOutcome(rows: UserRows, encoder: PasswordEncoder, jwt: Config, request: App.CreateUserRequest,
                           freshId: UserId, now: nat): Outcome<Auth.AuthResponse, UserRows>
  {
    var created := App.CreateUserOutcome(rows, encoder, request, freshId);
    match created.result
    case Err(e) => Outcome(Err(e), created.store)
    case Ok(view) => Outcome(Respond(jwt, view, now), created.store)
  }

  method Register(users: UserTable, encoder: PasswordEncoder, jwt: Config, request: App.CreateUserRequest,
                  freshId: UserId, now: nat) returns (r: Result<Auth.AuthResponse>)
    modifies users
    ensures Outcome(r, users.rows) == RegisterOutcome(old(users.rows), encoder, jwt, request, freshId, now)
  {
    var created := UserServiceDraft.CreateUser(users, encoder, request, freshId);
    if created.Err? {
      return Err(created.error);
    }
    r := Respond(jwt, created.value, now);
  }

  /** The draft's `register` writes what the hexagonal one writes and fails in
      the same cases with the same exception; on success it answers the same
      user with a token whose subject is the trimmed username. */
  lemma RegisterAgreesWithHexagonal(rows: UserRows, encoder: PasswordEncoder, jwt: Config,
                                    request: App.CreateUserRequest, freshId: UserId, now: nat)
    requires freshId !in rows
    ensures var draft := RegisterOutcome(rows, encoder, jwt, request, freshId, now);
            var hex := Auth.RegisterOutcome(rows, encoder, jwt, request, freshId, now);
      && draft.store == hex.store
      && (draft.result.Ok? <==> hex.result.Ok?)
      && (draft.result.Err? ==> draft.result.error == hex.result.error)
      && (draft.result.Ok? ==> && draft.result.value.user == hex.result.value.user
                               && ExtractUsername(jwt, draft.result.value.accessToken)
                                    == Ok(Trim(request.username)))
  {
    App.CreateUserEffect(rows, encoder, request, freshId);
    if GetSigningKey(jwt).Ok? {
      IssuedSubjectRoundTrip(jwt, Trim(request.username), now);
    }
  }
}
