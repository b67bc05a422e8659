/** backend/.../security/AuthUserPrincipal.java and
    SecurityCurrentUserIdProvider.java: resolving the id of the user a request is
    authenticated as. Spring's thread-local security context becomes the explicit
    `authentication` argument, which is only read. */
module CurrentUserIdProvider {
  import opened Wrappers

  type UserId = int

  /** The principal the JWT filter installs: id, username and password hash. */
  datatype AuthUserPrincipal = AuthUserPrincipal(id: UserId, username: string, passwordHash: string)

  /** `Authentication.getPrincipal()` is an arbitrary object: either the
      application's own principal or something else (a plain name, say). */
  datatype Principal = AuthUser(user: AuthUserPrincipal) | OtherPrincipal(description: string)

  datatype Authentication = Authentication(isAuthenticated: bool, principal: Principal)

  const UnauthenticatedMessage := "Unauthenticated user"
  const UnresolvedMessage := "Unable to resolve authenticated user id"

  /** `getCurrentUserId()` for the authentication the context holds (`None` when
      it holds none). The authentication check comes first; only then does the
      type of the principal matter. */
  function GetCurrentUserId(authentication: Option<Authentication>): (r: Result<UserId>)
    ensures (authentication.None? || !authentication.value.isAuthenticated) ==>
              r == Err(RuntimeException(UnauthenticatedMessage))
    ensures authentication.Some? && authentication.value.isAuthenticated ==>
              match authentication.value.principal
              case AuthUser(user) => r == Ok(user.id)
              case OtherPrincipal(_) => r == Err(RuntimeException(UnresolvedMessage))
  {
    if authentication.None? || !authentication.value.isAuthenticated then
      Err(RuntimeException(UnauthenticatedMessage))
    else
      match authentication.value.principal
      case AuthUser(user) => Ok(user.id)
      case OtherPrincipal(_) => Err(RuntimeException(UnresolvedMessage))
  }

  /** An id comes back exactly when an authenticated application principal is present. */
  lemma ResolvedIffAuthenticatedAppPrincipal(authentication: Option<Authentication>)
    ensures GetCurrentUserId(authentication).Ok? <==>
      authentication.Some? && authentication.value.isAuthenticated &&
      authentication.value.principal.AuthUser?
  {
  }

  /** The three scenarios of the provider's tests. */
  lemma ProviderScenarios()
    ensures GetCurrentUserId(Some(Authentication(true, AuthUser(AuthUserPrincipal(77, "alice", "hash"))))) == Ok(77)
    ensures GetCurrentUserId(None) == Err(RuntimeException("Unauthenticated user"))
    ensures GetCurrentUserId(Some(Authentication(true, OtherPrincipal("anonymousPrincipal")))) ==
            Err(RuntimeException("Unable to resolve authenticated user id"))
    ensures GetCurrentUserId(Some(Authentication(false, AuthUser(AuthUserPrincipal(77, "alice", "hash"))))) ==
            Err(RuntimeException("Unauthenticated user"))
  {
  }
}
