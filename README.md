# Event2AI_web core, modelled in Dafny

This project models the decision logic of Event2AI_web, a collaborative
whiteboard (boards, sticky notes and text elements) with a Vue/Pinia front end
and a Spring Boot back end, and proves properties of that model.

- **Front end.** Two Pinia stores:
  - the board store (`BoardStoreModel`): elements, selection, canvas
    transform, editing element and default colour;
  - the undo/redo history (`HistoryStoreModel`): a bounded list of board
    snapshots with a cursor.

  Both are classes whose methods update their fields in place. Each method's
  postcondition gives the new state through pure functions of the old state,
  and lemmas state what those functions guarantee. The colour loop of
  `updateSelectedElementsColor` is a `while` loop with its invariant.
- **Tokens and identity.**
  - `JwtService`: signing-key derivation with its 32-byte minimum, token
    issue, subject extraction, expiry and validity.
  - `CurrentUserIdProvider`: the three-way decision from an optional
    authentication to a user id.

  A token is a symbolic signed term `Jws(claims, Hmac(key, claims))`; verifying
  it recomputes the tag under the verifier's key. This follows the claims of
  RFC 7519 (`sub` section 4.1.2, `exp` section 4.1.4, `iat` section 4.1.6), and
  the 32-byte key check matches the HMAC key size of RFC 7518 section 3.2. The
  clock is a parameter `now`, in milliseconds. Claims are in whole seconds: `Date`
  values are cut to seconds, as a JWT NumericDate requires.
- **Application services.**
  - Users: the hexagonal `UserApplicationService` (`UserApplicationService`)
    and its older twin `UserService` (`UserServiceDraft`).
  - Boards: the hexagonal `BoardApplicationService` (`BoardApplicationService`)
    and the ownerless draft `BoardService` (`BoardServiceDraft`).
  - Authentication: the hexagonal `AuthService` (`AuthService`) and the draft
    `AuthService` (`AuthServiceDraft`).
  - Sticky notes: `StickyNoteService` (`StickyNoteService`).

  Each repository is a table class (`UserTable`, `BoardTable`, `NoteTable`)
  holding a `map` from id to record, and modified only through `Save` and
  `DeleteById`. Each state-changing service operation is a method on that
  table. The method's postcondition ties its result and the new table to an
  `...Outcome` function of the old table. The lemmas about the `...Outcome`
  functions state the service's promises:
  - validation happens before any write;
  - names and titles are trimmed;
  - a null request field keeps the stored value;
  - a delete checks existence first;
  - the error values match the source's messages.

  Each draft is a separate module. Every draft operation is proved equal to its
  hexagonal counterpart, or different from it in exactly the stated ways.
- **Shared pieces.**
  - `Wrappers`: `Option`, `Result`, the exception values, and
    `Outcome(result, store)`.
  - `JavaText`: what the services rely on from Java's standard library:
    - `String.trim()`, which drops chars up to U+0020 at both ends;
    - `Long.toString`, used in messages and token subjects;
    - the UTF-8 length used to size the signing key.

Parameters stand in for everything the code reads from outside:
- the clock becomes `now`;
- database identities and the front end's `uuidv4()` become fresh-id
  parameters;
- the configured secret and TTL become a `Config` value;
- the password encoder becomes a pair of functions `encode`/`matches`;
- the security context's authentication becomes an `Option<Authentication>`
  argument.

Where the code and the written design differ, the model follows the code:
- **Token expiry.** The design says a token whose expiry equals `now` is
  expired. `isTokenExpired` uses the strict `Date.before`, so in the model a
  token is expired exactly when `exp * 1000 < now`.
- **Short secret.** The design calls a short secret a fatal start-up error. The
  code checks it each time a key is derived. So in the model a short secret
  makes every issue and every parse fail. A `register` that hits it has already
  saved the user (`RegisterWeakSecretKeepsUser`).
- **Id as token subject.** `auth/application/AuthService.java:36,57` passes a
  `Long` id to `generateToken(String)`. The model takes the subject to be
  `Long.toString(id)` (`AuthService.TokenSubject`), which is injective
  (`JavaText.LongToStringInjective`).
- **Board id on note creation.** `StickyNoteService.java:68` reads a board id
  from a create request whose class has no such field. The model's request
  carries `boardId`.
- **Board of a note.** `StickyNoteService.java:72` calls `setBoard` and
  `StickyNoteService.java:125` calls `getBoard()` on `entity/StickyNote.java`,
  which declares no board field. The model gives the note the board reference
  that the hexagonal entity declares
  (`stickynote/adapter/out/persistence/entity/StickyNote.java:42-44`), as the
  field `boardId`.
- **Draft board view.** The draft `BoardService.convertToDTO` calls the
  six-argument `BoardDTO` constructor with five arguments and no owner. The
  model gives the draft's view an unset owner.

## Model

| member | source | states |
|---|---|---|
| JavaText.Trim | backend/src/main/java/event/to/ai/backend/user/application/UserApplicationService.java:61-62 | `trim()` never lengthens a string, and a non-empty result neither starts nor ends with a char at or below U+0020 |
| JavaText.TrimEmptyIffBlank | backend/src/main/java/event/to/ai/backend/board/application/BoardApplicationService.java:48-51 | `s.trim().isEmpty()` holds exactly when every char of `s` is one that trim removes |
| JavaText.TrimIdempotent | backend/src/main/java/event/to/ai/backend/board/application/BoardApplicationService.java:64-70 | trimming a trimmed value changes nothing |
| JavaText.TrimIsSlice | backend/src/main/java/event/to/ai/backend/user/application/UserApplicationService.java:61-62 | the trimmed string is a contiguous slice of the original |
| JavaText.LongToString | backend/src/main/java/event/to/ai/backend/user/application/UserApplicationService.java:43 | the decimal text of an id is non-empty and starts with '-' exactly for negative ids |
| JavaText.DecimalRoundTrip | backend/src/main/java/event/to/ai/backend/auth/application/AuthService.java:36 | parsing the decimal digits of a natural number gives that number back |
| JavaText.LongToStringInjective | backend/src/main/java/event/to/ai/backend/auth/application/AuthService.java:36 | two ids with the same decimal text are the same id, so an id subject names one user |
| JavaText.Utf8Encode | backend/src/main/java/event/to/ai/backend/security/JwtService.java:62 | the UTF-8 encoding is at least as long as the string, in bytes |
| JavaText.AsciiUtf8Length | backend/src/main/java/event/to/ai/backend/security/JwtService.java:62 | an ASCII secret has exactly one byte per char |
| JwtService.EpochSeconds | backend/src/main/java/event/to/ai/backend/security/JwtService.java:30-31 | a millisecond instant is truncated toward zero to whole seconds, as Java's integer division does, for instants before the epoch as well as after it |
| JwtService.GetSigningKey | backend/src/main/java/event/to/ai/backend/security/JwtService.java:61-67 | the key is the UTF-8 bytes of the secret exactly when there are at least 32 of them; otherwise `IllegalStateException("JWT secret must be at least 32 bytes")` |
| JwtService.GenerateToken | backend/src/main/java/event/to/ai/backend/security/JwtService.java:24-34 | issuing fails exactly when key derivation fails; a token carries subject = argument, issuedAt = now and expiration = now + TTL, in seconds |
| JwtService.ExtractAllClaims | backend/src/main/java/event/to/ai/backend/security/JwtService.java:53-59 | parsing succeeds exactly when the key derives and the token is signed under it, and then yields the signed claims unchanged |
| JwtService.ExtractUsername | backend/src/main/java/event/to/ai/backend/security/JwtService.java:36-38 | the subject of a token that parses, and a failure otherwise |
| JwtService.IsTokenExpired | backend/src/main/java/event/to/ai/backend/security/JwtService.java:49-51 | expired exactly when the expiration is strictly before now |
| JwtService.IsTokenValid | backend/src/main/java/event/to/ai/backend/security/JwtService.java:44-47 | true exactly when the subject equals the username and the token has not expired; a token that does not parse fails |
| JwtService.ShortSecretIssuesAndAcceptsNothing | backend/src/main/java/event/to/ai/backend/security/JwtService.java:61-67 | under a secret shorter than 32 bytes no token is issued and no token is accepted |
| JwtService.DefaultSecretIsLongEnough | backend/src/main/java/event/to/ai/backend/security/JwtService.java:18-22 | the default secret passes the 32-byte check and the default TTL is 3600 seconds |
| JwtService.IssuedSubjectRoundTrip | backend/src/main/java/event/to/ai/backend/security/JwtService.java:24-38 | under a valid key, extracting the username of a freshly issued token gives back its subject |
| JwtService.OtherKeyRejects | backend/src/main/java/event/to/ai/backend/security/JwtService.java:53-59 | a token issued under one secret does not parse, and is never valid, under a secret with other bytes |
| JwtService.FreshTokenLifetime | backend/src/main/java/event/to/ai/backend/security/JwtService.java:49-51 | a fresh token is not expired until its TTL has run (less the sub-second cut) and is expired once it has |
| JwtService.FreshTokenIsValid | backend/src/main/java/event/to/ai/backend/security/JwtService.java:44-47 | with a TTL of at least one second, a fresh token is valid for its own subject |
| JwtService.ZeroTtlTokenExpiredAtIssue | backend/src/main/java/event/to/ai/backend/security/JwtService.java:49-51 | with a zero TTL a token can already be invalid at the millisecond it is issued |
| CurrentUserIdProvider.GetCurrentUserId | backend/src/main/java/event/to/ai/backend/security/SecurityCurrentUserIdProvider.java:11-24 | no or unauthenticated authentication gives "Unauthenticated user"; an application principal gives its id; any other principal gives "Unable to resolve authenticated user id" |
| CurrentUserIdProvider.ResolvedIffAuthenticatedAppPrincipal | backend/src/main/java/event/to/ai/backend/security/SecurityCurrentUserIdProvider.java:11-24 | an id is resolved exactly when the authentication is present, authenticated and holds an application principal |
| CurrentUserIdProvider.ProviderScenarios | backend/src/test/java/event/to/ai/backend/security/SecurityCurrentUserIdProviderTest.java:24-82 | principal 77 gives 77; no authentication and an unauthenticated one give the first error; another principal type gives the second |
| Users.FindByUsername | backend/src/main/java/event/to/ai/backend/user/application/port/out/UserRepositoryPort.java:14 | with unique usernames, finds a stored user with that username exactly when one exists |
| Users.UserTable.constructor | backend/src/main/java/event/to/ai/backend/user/application/port/out/UserRepositoryPort.java:8-25 | a new table is empty |
| Users.UserTable.Save | backend/src/main/java/event/to/ai/backend/user/application/port/out/UserRepositoryPort.java:22 | `save` stores the record under its id and changes no other row |
| Users.UserTable.DeleteById | backend/src/main/java/event/to/ai/backend/user/application/port/out/UserRepositoryPort.java:24 | `deleteById` removes that row only |
| UserApplicationService.ConvertToDto | backend/src/main/java/event/to/ai/backend/user/application/UserApplicationService.java:137-145 | the view copies id, username and email; the view type has no password-hash field |
| UserApplicationService.GetUserById | backend/src/main/java/event/to/ai/backend/user/application/UserApplicationService.java:41-45 | the stored user's view when the id exists, else "User not found with id: <id>" |
| UserApplicationService.GetUserByUsername | backend/src/main/java/event/to/ai/backend/user/application/UserApplicationService.java:50-54 | the view of the user with that username when one exists, else "User not found with username: <u>"; it needs only rows stored under their ids and unique usernames |
| UserApplicationService.CreateUser | backend/src/main/java/event/to/ai/backend/user/application/UserApplicationService.java:60-81 | the result and new table are those of `CreateUserOutcome` on the old table |
| UserApplicationService.CreateUserEffect | backend/src/main/java/event/to/ai/backend/user/application/UserApplicationService.java:60-81 | a failure writes nothing; a success adds one row under the fresh id with the trimmed username, trimmed email and encoded password, keeps every other row, and returns that row's view |
| UserApplicationService.CreateUserDuplicateUsername | backend/src/main/java/event/to/ai/backend/user/application/UserApplicationService.java:64-67 | a taken trimmed username fails with "Username already exists: <u>", writes nothing, and the email is never consulted |
| UserApplicationService.CreateUserDuplicateEmail | backend/src/main/java/event/to/ai/backend/user/application/UserApplicationService.java:69-72 | a free username but a taken trimmed email fails with "Email already exists: <e>" and writes nothing |
| UserApplicationService.CreateUserKeepsWellFormed | backend/src/main/java/event/to/ai/backend/user/application/UserApplicationService.java:60-81 | creating a user keeps ids as keys and usernames and emails unique |
| UserApplicationService.StoreKeepsWellFormed | backend/src/main/java/event/to/ai/backend/user/application/UserApplicationService.java:79 | saving a user whose username and email no other row has keeps the table well formed |
| UserApplicationService.UpdateUser | backend/src/main/java/event/to/ai/backend/user/application/UserApplicationService.java:87-121 | the result and new table are those of `UpdateUserOutcome` on the old table |
| UserApplicationService.UpdateUserEffect | backend/src/main/java/event/to/ai/backend/user/application/UserApplicationService.java:87-121 | a missing id fails with "User not found with id: <id>"; a failure writes nothing; a success rewrites only that row, with the trimmed new username and email when given, the encoded new password when given, and the old values otherwise |
| UserApplicationService.UpdateUserRejectsBlank | backend/src/main/java/event/to/ai/backend/user/application/UserApplicationService.java:91-107 | a supplied username that is blank after trimming fails with "Username cannot be blank"; once the username step passes, a supplied blank email fails with "Email cannot be blank"; neither writes anything |
| UserApplicationService.UpdateUserRejectsTaken | backend/src/main/java/event/to/ai/backend/user/application/UserApplicationService.java:96-113 | a changed, non-blank username that another row holds fails with "Username already exists: <name>"; once the username step passes, such an email fails with "Email already exists: <email>"; neither writes anything |
| UserApplicationService.UpdateUserToOwnValuesSucceeds | backend/src/main/java/event/to/ai/backend/user/application/UserApplicationService.java:91-113 | resubmitting the user's own username and email succeeds: uniqueness is checked only on change |
| UserApplicationService.UpdateUserKeepsWellFormed | backend/src/main/java/event/to/ai/backend/user/application/UserApplicationService.java:87-121 | an update keeps ids as keys and usernames and emails unique |
| UserApplicationService.UsernameClash | backend/src/main/java/event/to/ai/backend/user/application/UserApplicationService.java:91-101 | an accepted new username belongs to no other user |
| UserApplicationService.EmailClash | backend/src/main/java/event/to/ai/backend/user/application/UserApplicationService.java:103-113 | an accepted new email belongs to no other user |
| UserApplicationService.DeleteUserOutcome | backend/src/main/java/event/to/ai/backend/user/application/UserApplicationService.java:127-132 | succeeds exactly when the id exists and then removes exactly that row; otherwise "User not found with id: <id>" and the table is unchanged |
| UserApplicationService.DeleteUser | backend/src/main/java/event/to/ai/backend/user/application/UserApplicationService.java:127-132 | the result and new table are those of `DeleteUserOutcome` on the old table |
| UserApplicationService.DeleteUserKeepsWellFormed | backend/src/main/java/event/to/ai/backend/user/application/UserApplicationService.java:127-132 | a delete keeps the table well formed |
| UserServiceDraft.ConvertToDto | backend/src/main/java/event/to/ai/backend/service/UserService.java:137-145 | the draft's view equals the hexagonal service's view |
| UserServiceDraft.GetUserById | backend/src/main/java/event/to/ai/backend/service/UserService.java:41-45 | the draft answers exactly as `UserApplicationService.GetUserById` |
| UserServiceDraft.GetUserByUsername | backend/src/main/java/event/to/ai/backend/service/UserService.java:50-54 | the draft answers exactly as `UserApplicationService.GetUserByUsername` |
| UserServiceDraft.CreateUser | backend/src/main/java/event/to/ai/backend/service/UserService.java:60-81 | the draft's result and new table are exactly the hexagonal `CreateUserOutcome` |
| UserServiceDraft.UpdateUser | backend/src/main/java/event/to/ai/backend/service/UserService.java:87-121 | the draft's result and new table are exactly the hexagonal `UpdateUserOutcome` |
| UserServiceDraft.DeleteUser | backend/src/main/java/event/to/ai/backend/service/UserService.java:127-132 | the draft's result and new table are exactly the hexagonal `DeleteUserOutcome` |
| AuthService.TokenSubject | backend/src/main/java/event/to/ai/backend/auth/application/AuthService.java:36 | the subject issued for a user id is its non-empty decimal text |
| AuthService.Respond | backend/src/main/java/event/to/ai/backend/auth/application/AuthService.java:57-58 | fails exactly when the key does not derive; otherwise a token for the user's id, type "Bearer", the configured TTL and the given view |
| AuthService.Login | backend/src/main/java/event/to/ai/backend/auth/application/AuthService.java:40-59 | a success is for a stored user whose username is the trimmed request username and whose hash matches the password, returns that user's view and type "Bearer", and writes nothing |
| AuthService.LoginSucceedsIff | backend/src/main/java/event/to/ai/backend/auth/application/AuthService.java:40-59 | for the user with the trimmed username, login succeeds exactly when the password matches and the key derives, returning that user's view and a token whose subject is that user's id |
| AuthService.LoginHidesIdentity | backend/src/main/java/event/to/ai/backend/auth/application/AuthService.java:41-47 | an unknown username and a wrong password fail with the same "Invalid username or password" |
| AuthService.LoginTokenIdentifiesUser | backend/src/main/java/event/to/ai/backend/auth/application/AuthService.java:49-58 | two successful logins whose tokens carry the same subject are logins of the same user |
| AuthService.Register | backend/src/main/java/event/to/ai/backend/auth/application/AuthService.java:34-38 | the result and new table are those of `RegisterOutcome` on the old table |
| AuthService.RegisterEffect | backend/src/main/java/event/to/ai/backend/auth/application/AuthService.java:34-38 | register writes what `createUser` writes; it succeeds exactly when username and email are free and the key derives, returning the created user's view and a token whose subject is the new id |
| AuthService.RegisterWeakSecretKeepsUser | backend/src/main/java/event/to/ai/backend/auth/application/AuthService.java:34-37 | under a short secret register fails with the key error after the user has been saved |
| AuthService.RegisterTwiceSameUsernameFails | backend/src/main/java/event/to/ai/backend/auth/application/AuthService.java:34-35 | a second registration with the same trimmed username fails with "Username already exists" and writes nothing |
| AuthService.RegisterThenLogin | backend/src/main/java/event/to/ai/backend/auth/application/AuthService.java:34-59 | after a successful register, logging in with the same username and password succeeds and returns the same user view |
| AuthServiceDraft.Respond | backend/src/main/java/event/to/ai/backend/service/AuthService.java:35-36 | fails exactly when the key does not derive; otherwise a token whose subject is the username, type "Bearer", the configured TTL and the view |
| AuthServiceDraft.Login | backend/src/main/java/event/to/ai/backend/service/AuthService.java:39-58 | a success is for a stored user with the trimmed username whose hash matches the password |
| AuthServiceDraft.LoginAgreesWithHexagonal | backend/src/main/java/event/to/ai/backend/service/AuthService.java:39-58 | the draft login succeeds and fails exactly when the hexagonal one does, with the same error and user view; only the subject differs: the username here, the id there |
| AuthServiceDraft.LoginTokenValidForUser | backend/src/main/java/event/to/ai/backend/service/AuthService.java:56 | with a TTL of at least one second, the draft's login token is valid for the user's own username |
| AuthServiceDraft.Register | backend/src/main/java/event/to/ai/backend/service/AuthService.java:33-37 | the result and new table are those of the draft's `RegisterOutcome` on the old table |
| AuthServiceDraft.RegisterAgreesWithHexagonal | backend/src/main/java/event/to/ai/backend/service/AuthService.java:33-37 | the draft register writes the same table and fails and succeeds as the hexagonal one, with the same errors and view; its token's subject is the trimmed username |
| Boards.BoardTable.constructor | backend/src/main/java/event/to/ai/backend/board/application/BoardApplicationService.java:20 | a new board table is empty |
| Boards.BoardTable.Save | backend/src/main/java/event/to/ai/backend/board/application/BoardApplicationService.java:55 | `save` stores the board under its id and changes no other row |
| Boards.BoardTable.DeleteById | backend/src/main/java/event/to/ai/backend/board/application/BoardApplicationService.java:85 | `deleteById` removes that row only |
| BoardApplicationService.ToDto | backend/src/main/java/event/to/ai/backend/board/application/BoardApplicationService.java:88-97 | the view copies id, title, description and owner |
| BoardApplicationService.GetBoardById | backend/src/main/java/event/to/ai/backend/board/application/BoardApplicationService.java:37-41 | the board's view exactly when the id exists, else "Board not found with id: <id>" |
| BoardApplicationService.CreateBoard | backend/src/main/java/event/to/ai/backend/board/application/BoardApplicationService.java:43-57 | the result and new table are those of `CreateBoardOutcome` on the old table |
| BoardApplicationService.CreateBoardEffect | backend/src/main/java/event/to/ai/backend/board/application/BoardApplicationService.java:43-57 | succeeds exactly when the actor exists and the title is not blank, the actor being checked first; a failure writes nothing; a success adds one board owned by the actor with the trimmed title and given description, readable back by id |
| BoardApplicationService.CreateBoardKeepsTitlesTrimmed | backend/src/main/java/event/to/ai/backend/board/application/BoardApplicationService.java:48-55 | creating a board keeps every stored title trimmed and non-empty |
| BoardApplicationService.SaveKeepsTitlesTrimmed | backend/src/main/java/event/to/ai/backend/board/application/BoardApplicationService.java:53-55 | saving a board with a trimmed non-empty title keeps every stored title trimmed and non-empty |
| BoardApplicationService.NewTitle | backend/src/main/java/event/to/ai/backend/board/application/BoardApplicationService.java:64-70 | a null title keeps the current one; a given title is accepted trimmed exactly when not blank, else "Board title cannot be blank" |
| BoardApplicationService.NewTitleTrimmed | backend/src/main/java/event/to/ai/backend/board/application/BoardApplicationService.java:64-70 | an accepted title, from a trimmed non-empty current one, is trimmed and non-empty |
| BoardApplicationService.NewTitleStable | backend/src/main/java/event/to/ai/backend/board/application/BoardApplicationService.java:64-70 | a title accepted once is accepted again unchanged |
| BoardApplicationService.UpdateBoard | backend/src/main/java/event/to/ai/backend/board/application/BoardApplicationService.java:59-78 | the result and new table are those of `UpdateBoardOutcome` on the old table |
| BoardApplicationService.UpdateBoardEffect | backend/src/main/java/event/to/ai/backend/board/application/BoardApplicationService.java:59-78 | succeeds exactly when the board exists and a given title is not blank; a failure writes nothing; a success rewrites only that board, with the trimmed new title and the new description when given, and the same owner |
| BoardApplicationService.UpdateBoardKeepsOwners | backend/src/main/java/event/to/ai/backend/board/application/BoardApplicationService.java:72-77 | no update changes which boards exist or who owns any of them |
| BoardApplicationService.UpdateBoardKeepsTitlesTrimmed | backend/src/main/java/event/to/ai/backend/board/application/BoardApplicationService.java:64-70 | an update keeps every stored title trimmed and non-empty |
| BoardApplicationService.UpdateBoardIdempotent | backend/src/main/java/event/to/ai/backend/board/application/BoardApplicationService.java:59-78 | sending the same successful update twice leaves the table and the answer as sending it once |
| BoardApplicationService.DeleteBoardOutcome | backend/src/main/java/event/to/ai/backend/board/application/BoardApplicationService.java:80-86 | succeeds exactly when the id exists and then removes exactly that board; otherwise "Board not found with id: <id>" and the table is unchanged |
| BoardApplicationService.DeleteBoard | backend/src/main/java/event/to/ai/backend/board/application/BoardApplicationService.java:80-86 | the result and new table are those of `DeleteBoardOutcome` on the old table |
| BoardApplicationService.DeleteThenGetFails | backend/src/main/java/event/to/ai/backend/board/application/BoardApplicationService.java:80-86 | after a delete the board cannot be read and a second delete fails without writing |
| BoardServiceDraft.ToDto | backend/src/main/java/event/to/ai/backend/service/BoardService.java:75-83 | the draft's view is the hexagonal view with the owner unset |
| BoardServiceDraft.GetBoardById | backend/src/main/java/event/to/ai/backend/service/BoardService.java:33-37 | the draft answers as the hexagonal `getBoardById`, with the owner dropped from a found view |
| BoardServiceDraft.CreateBoard | backend/src/main/java/event/to/ai/backend/service/BoardService.java:39-44 | the result and new table are those of the draft's `CreateBoardOutcome` on the old table |
| BoardServiceDraft.CreateBoardAcceptsBlankTitle | backend/src/main/java/event/to/ai/backend/service/BoardService.java:40-44 | a blank title is accepted and stored as the empty string with no owner, breaking the title rule the hexagonal service keeps |
| BoardServiceDraft.CreateBoardDiffersOnlyInOwner | backend/src/main/java/event/to/ai/backend/service/BoardService.java:39-44 | whenever the hexagonal create succeeds, the draft stores and returns the same board except that the owner is unset |
| BoardServiceDraft.UpdateBoard | backend/src/main/java/event/to/ai/backend/service/BoardService.java:46-65 | the draft writes and answers as the hexagonal `updateBoard`, with the owner dropped from the view |
| BoardServiceDraft.DeleteBoard | backend/src/main/java/event/to/ai/backend/service/BoardService.java:67-73 | the draft writes and answers exactly as the hexagonal `deleteBoard` |
| StickyNoteService.NoteTable.constructor | backend/src/main/java/event/to/ai/backend/service/StickyNoteService.java:23 | a new note table is empty |
| StickyNoteService.NoteTable.Save | backend/src/main/java/event/to/ai/backend/service/StickyNoteService.java:79 | `save` stores the note under its id and changes no other row |
| StickyNoteService.NoteTable.DeleteById | backend/src/main/java/event/to/ai/backend/service/StickyNoteService.java:119 | `deleteById` removes that row only |
| StickyNoteService.ToDto | backend/src/main/java/event/to/ai/backend/service/StickyNoteService.java:122-134 | the view copies id, board id, both points' coordinates, description, color and tag |
| StickyNoteService.GetStickyNotesById | backend/src/main/java/event/to/ai/backend/service/StickyNoteService.java:39-43 | an empty list when the id is absent, else the one-element list of that note's view |
| StickyNoteService.CreateStickyNote | backend/src/main/java/event/to/ai/backend/service/StickyNoteService.java:66-81 | the result and new table are those of `CreateStickyNoteOutcome` on the old table: the board lookup first, then the refusal of a null description or tag before the save |
| StickyNoteService.CreateStickyNoteEffect | backend/src/main/java/event/to/ai/backend/service/StickyNoteService.java:66-81 | succeeds exactly when the board exists and the request carries a description and a tag; a missing board fails with "Board not found with id: <id>", then a null description or a null tag fails on its NOT NULL column (entity/StickyNote.java:40-47); a failure writes nothing; a success adds one note with exactly the requested board, points, description, color and tag, readable back by id |
| StickyNoteService.CreateKeepsNotesOnExistingBoards | backend/src/main/java/event/to/ai/backend/service/StickyNoteService.java:67-72 | creating a note keeps every note on an existing board |
| StickyNoteService.PatchPoint | backend/src/main/java/event/to/ai/backend/service/StickyNoteService.java:94-99 | a point is replaced only when both coordinates are given |
| StickyNoteService.UpdateStickyNote | backend/src/main/java/event/to/ai/backend/service/StickyNoteService.java:83-112 | the result and new table are those of `UpdateStickyNoteOutcome` on the old table |
| StickyNoteService.UpdateStickyNoteEffect | backend/src/main/java/event/to/ai/backend/service/StickyNoteService.java:83-112 | a missing note fails with "StickyNote not found with id: <id>"; a named board must exist; a failure writes nothing; a success rewrites only that note, moving it to the named board, replacing each point only when both coordinates are given and description, color and tag only when given |
| StickyNoteService.UpdateWithNothingKeepsNote | backend/src/main/java/event/to/ai/backend/service/StickyNoteService.java:83-112 | an update that supplies no complete field leaves the table unchanged and returns the note's view |
| StickyNoteService.UpdateKeepsNotesOnExistingBoards | backend/src/main/java/event/to/ai/backend/service/StickyNoteService.java:88-92 | an update keeps every note on an existing board |
| StickyNoteService.DeleteStickyNoteOutcome | backend/src/main/java/event/to/ai/backend/service/StickyNoteService.java:114-120 | succeeds exactly when the id exists and then removes exactly that note; otherwise "StickyNote not found with id: <id>" and the table is unchanged |
| StickyNoteService.DeleteStickyNote | backend/src/main/java/event/to/ai/backend/service/StickyNoteService.java:114-120 | the result and new table are those of `DeleteStickyNoteOutcome` on the old table |
| StickyNoteService.DeleteThenGetIsEmpty | backend/src/main/java/event/to/ai/backend/service/StickyNoteService.java:114-120 | after a delete, looking the note up gives the empty list |
| BoardStoreModel.FindIndex | frontend/src/stores/boardStore.ts:43 | `findIndex`: -1 exactly when no element has the id, else the first index holding it |
| BoardStoreModel.FindElement | frontend/src/stores/boardStore.ts:30-31 | `find`: none exactly when no element has the id, else the first element with it |
| BoardStoreModel.ColorSelected | frontend/src/stores/boardStore.ts:49-56 | the recoloured list has the same length, keeps every element the loop does not recolour, and merges the colour patch into each one it does |
| BoardStoreModel.RemoveElements | frontend/src/stores/boardStore.ts:67 | the survivors are exactly the elements whose id is not among the deleted ids |
| BoardStoreModel.RemoveIds | frontend/src/stores/boardStore.ts:68-70 | the remaining selection is exactly the selected ids not among the deleted ids |
| BoardStoreModel.IndexOf | frontend/src/stores/boardStore.ts:77 | `indexOf`: -1 exactly when absent, else the first index of the id |
| BoardStoreModel.MergeTransform | frontend/src/stores/boardStore.ts:90-92 | each supplied transform field takes the supplied value and each absent one keeps the current value |
| BoardStoreModel.SelectedElements | frontend/src/stores/boardStore.ts:27-28 | an element is selected exactly when it is on the board and its id is in the selection |
| BoardStoreModel.UpdateAtEffect | frontend/src/stores/boardStore.ts:42-47 | an unknown id changes nothing; otherwise only the first index with the id is merged with the patch, and the length is kept |
| BoardStoreModel.MergeKeepsUnsetFields | frontend/src/stores/boardStore.ts:45 | for each of the seventeen fields (id and the sixteen data fields), an unset patch field keeps the element's value and a set one takes the patch's value; an empty patch changes nothing |
| BoardStoreModel.ColorPatchKeepsIdAndKind | frontend/src/stores/boardStore.ts:53 | the colour patch keeps id and type and sets the background colour |
| BoardStoreModel.ColorPatchTwice | frontend/src/stores/boardStore.ts:53 | applying the colour patch twice is applying it once |
| BoardStoreModel.ColoredSoFarStep | frontend/src/stores/boardStore.ts:50-55 | one more loop step keeps the loop invariant of the colour loop |
| BoardStoreModel.ColoredSoFarComplete | frontend/src/stores/boardStore.ts:50-55 | once every selected id has been visited, the list is the recoloured list |
| BoardStoreModel.FindIndexSameIds | frontend/src/stores/boardStore.ts:51-53 | lists with the same ids in the same places find an id at the same index |
| BoardStoreModel.RemoveElementsAppend | frontend/src/stores/boardStore.ts:67 | filtering a concatenation filters each part in order |
| BoardStoreModel.RemoveElementsIdempotent | frontend/src/stores/boardStore.ts:66-71 | deleting the same ids twice is deleting them once, and deleting ids no element has changes nothing |
| BoardStoreModel.RemoveIdsKeepsNoDuplicates | frontend/src/stores/boardStore.ts:68-70 | deselecting keeps the selection free of duplicates |
| BoardStoreModel.ToggleFlipsMembership | frontend/src/stores/boardStore.ts:77-83 | a multiple-select flips the id's membership and no other, and keeps the selection free of duplicates |
| BoardStoreModel.ToggleTwiceRestores | frontend/src/stores/boardStore.ts:77-83 | toggling an absent id twice restores the selection |
| BoardStoreModel.SelectKeepsNoDuplicates | frontend/src/stores/boardStore.ts:73-88 | `selectElement(null)` empties the selection, a single select makes it `[id]`, and every select keeps it free of duplicates |
| BoardStoreModel.ColorSelectedTouchesOnlySelectedStickyNotes | frontend/src/stores/boardStore.ts:49-56 | unselected elements and text elements are untouched, ids and types never change, and every recoloured element has the new background |
| BoardStoreModel.AddedElementIsFoundAndSelected | frontend/src/stores/boardStore.ts:36-40 | after adding with a fresh id, looking the id up finds the new element and the selected elements are exactly it |
| BoardStoreModel.SelectedElementsNone | frontend/src/stores/boardStore.ts:27-28 | no element is selected when none has a selected id |
| BoardStoreModel.SelectedElementsAppend | frontend/src/stores/boardStore.ts:27-28 | the selected elements of a concatenation are those of each part, in order |
| BoardStoreModel.SnapshotRoundTrip | frontend/src/stores/boardStore.ts:94-105 | loading the board's own current state keeps its elements, transform, editing element and default colour and clears the selection |
| BoardStoreModel.BoardStore.constructor | frontend/src/stores/boardStore.ts:18-24 | no elements or selection, transform (0, 0, 1), nothing being edited, default colour "#ffeb3b" |
| BoardStoreModel.BoardStore.GetSelectedElements | frontend/src/stores/boardStore.ts:27-28 | the elements on the board whose id is selected |
| BoardStoreModel.BoardStore.GetElementById | frontend/src/stores/boardStore.ts:30-31 | none exactly when no element has the id, else an element on the board with that id |
| BoardStoreModel.BoardStore.GetCurrentBoardState | frontend/src/stores/boardStore.ts:100-105 | a snapshot equal to the current elements and transform |
| BoardStoreModel.BoardStore.AddElement | frontend/src/stores/boardStore.ts:36-40 | appends exactly one element with the given fields and the fresh id, keeps the earlier ones, and makes the selection exactly `[id]` |
| BoardStoreModel.BoardStore.UpdateElement | frontend/src/stores/boardStore.ts:42-47 | the elements become `UpdateAt` of the old ones; nothing else changes |
| BoardStoreModel.BoardStore.UpdateSelectedElementsColor | frontend/src/stores/boardStore.ts:49-56 | the loop leaves exactly `ColorSelected` of the old elements and selection; nothing else changes |
| BoardStoreModel.BoardStore.SetDefaultStickyNoteColor | frontend/src/stores/boardStore.ts:58-60 | sets the default colour only |
| BoardStoreModel.BoardStore.SetEditingElement | frontend/src/stores/boardStore.ts:62-64 | sets the editing element only |
| BoardStoreModel.BoardStore.DeleteElements | frontend/src/stores/boardStore.ts:66-71 | removes the elements with the given ids and deselects those ids, keeping the selection free of duplicates |
| BoardStoreModel.BoardStore.SelectElement | frontend/src/stores/boardStore.ts:73-88 | the selection becomes `Select` of the old one; nothing else changes |
| BoardStoreModel.BoardStore.SetCanvasTransform | frontend/src/stores/boardStore.ts:90-92 | the transform becomes the old one with the supplied fields overwritten; nothing else changes |
| BoardStoreModel.BoardStore.LoadBoardState | frontend/src/stores/boardStore.ts:94-98 | replaces elements and transform by the snapshot's and clears the selection |
| HistoryStoreModel.AddStepEffect | frontend/src/stores/historyStore.ts:28-48 | `addState` keeps the invariant, discards the entries after the pointer, appends the snapshot, leaves the pointer on it with nothing to redo, and keeps at most `maxHistory` entries, the newest ones |
| HistoryStoreModel.AddStepOverflowDropsOldest | frontend/src/stores/historyStore.ts:44-47 | adding to a full history at its end drops exactly the oldest entry |
| HistoryStoreModel.UndoRedoKeepInv | frontend/src/stores/historyStore.ts:53-74 | `undo` and `redo` keep the invariant and the entries, move the pointer by exactly one when allowed, and do nothing otherwise |
| HistoryStoreModel.UndoThenRedoRestores | frontend/src/stores/historyStore.ts:53-74 | an undo then a redo, or a redo then an undo, returns to the same cursor |
| HistoryStoreModel.UndoAfterAddRestoresPrevious | frontend/src/stores/historyStore.ts:28-61 | after `addState` on a non-empty history, `undo` is possible and returns to the snapshot that was current before |
| HistoryStoreModel.InitializeGivesSingleEntry | frontend/src/stores/historyStore.ts:88-91 | adding to the cleared history gives one entry, pointer 0, and neither undo nor redo |
| HistoryStoreModel.HistoryStore.constructor | frontend/src/stores/historyStore.ts:13-18 | empty history, pointer -1, `maxHistory` 100, not applying a step |
| HistoryStoreModel.HistoryStore.AddState | frontend/src/stores/historyStore.ts:28-48 | does nothing while a step is being applied; otherwise the cursor becomes `AddStep` of the old one with the board's current state |
| HistoryStoreModel.HistoryStore.Undo | frontend/src/stores/historyStore.ts:53-61 | the cursor becomes `UndoStep` of the old one; when undo is possible the board is loaded with the entry now current and the flag ends false, otherwise the board is untouched |
| HistoryStoreModel.HistoryStore.Redo | frontend/src/stores/historyStore.ts:66-74 | the cursor becomes `RedoStep` of the old one; when redo is possible the board is loaded with the entry now current and the flag ends false, otherwise the board is untouched |
| HistoryStoreModel.HistoryStore.ClearHistory | frontend/src/stores/historyStore.ts:79-82 | empties the history and resets the pointer to -1 |
| HistoryStoreModel.HistoryStore.InitializeHistory | frontend/src/stores/historyStore.ts:88-91 | one entry, the board's current state, with pointer 0 and neither undo nor redo; while a step is being applied the history is left empty; `isApplyingHistory` is never changed |

## Left out

- Queries that only map the whole table (`getAllUsers`, `getAllBoards`, `getAllStickyNotes`) and the sticky-note queries by color, by board, and by board and color: each only maps a JPA derived query over the table.
- Creation and update timestamps (`createdAt`/`updatedAt`) of users and boards: JPA fills them from the clock, and no decision depends on them.
- jjwt's own expiry check while parsing, and the choice of HMAC algorithm: foreign library behaviour. The model keeps the service's own `isTokenExpired` check and a symbolic signature.
- 64-bit `long` overflow of `now + TTL`: integers are unbounded in the model.
- Controllers, HTTP status mapping and bean validation: plumbing. A create request's bean-validated fields are therefore never null in the model. The sticky-note description and tag are not bean-validated; they stay optional in the request, and a null one makes the create fail.
- `saveBoardStateToLocalStorage` and `debouncedSaveState` (frontend/src/stores/boardStore.ts:107-114): browser storage and timers.
- Pinia reactivity: watchers that call `addState` during a load are not modelled. `isApplyingHistory` is kept and its effect on `addState` is proved.
- Aliasing of JPA entities and of JavaScript arrays: records and snapshots are values. `getCurrentBoardState`'s deep copy is therefore the identity in the model.
- LoadBoardState, HistoryStore.Undo and HistoryStore.Redo: the model copies the snapshot's elements, while `loadBoardState` (frontend/src/stores/boardStore.ts:95) makes the board share the history entry's array. A later `addElement` push or `updateElement` write then changes that history entry as well. So after undo, add, `addState`, undo, the source reloads an entry that already holds the added element. `UndoAfterAddRestoresPrevious` holds for the value model only.
- Update requests cannot clear an optional field: a null request field always means "keep".
- JavaScript object spread of an explicitly `undefined` patch field: the model treats an unset patch field as absent.
- JavaScript numbers and Java `Double` coordinates are `real`: they are only copied, never computed with.
- Board deletion does not cascade to sticky notes: the foreign key of the notes table is not modelled, so a deleted board's notes stay in the note table.
- No ownership check on board update or delete: the source has none.
- BoardStoreModel.SelectedElements: the contract states membership, not that element order is kept. Order follows from the recursive filter and `SelectedElementsAppend`.
- BoardStoreModel.RemoveElements: the contract states membership, not that survivor order is kept. Order follows from the recursive filter and `RemoveElementsAppend`.
