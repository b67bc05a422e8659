/** backend/.../user/application/UserApplicationService.java: user CRUD with
    trimming, uniqueness checks before any write, and partial updates in which an
    absent (null) field keeps its value.

    Each state-changing operation is a method on the `UserTable` that proceeds
    step by step as the Java code does; its postcondition ties the returned value
    and the new table to a specification function (`...Outcome`) of the old
    table, and the lemmas below state what the source promises about those. The
    generated id of a new row is the parameter `freshId`; the database hands out
    an id no row has, hence `freshId !in rows`. */
module UserApplicationService {
  import opened Wrappers
  import opened JavaText
  import opened Users

  datatype CreateUserRequest = CreateUserRequest(username: string, email: string, password: string)

  /** `null` fields of the request are `None`. */
  datatype UpdateUserRequest = UpdateUserRequest(username: Option<string>, email: Option<string>, password: Option<string>)

  function UserNotFound(id: UserId): Exception {
    RuntimeException("User not found with id: " + LongToString(id))
  }

  function UsernameTaken(username: string): Exception {
    RuntimeException("Username already exists: " + username)
  }

  function EmailTaken(email: string): Exception {
    RuntimeException("Email already exists: " + email)
  }

  const BlankUsername := RuntimeException("Username cannot be blank")
  const BlankEmail := RuntimeException("Email cannot be blank")

  /** `convertToDTO`: copies id, username and email; the hash has nowhere to go. */
  function ConvertToDto(user: User): (view: UserDto)
    ensures view.id == user.id && view.username == user.username && view.email == user.email
  {
    UserDto(user.id, user.username, user.email)
  }

  /** `getUserById`. */
  function GetUserById(rows: UserRows, id: UserId): (r: Result<UserDto>)
    ensures r.Ok? <==> id in rows
    ensures r.Ok? ==> r.value == ConvertToDto(rows[id])
    ensures r.Err? ==> r.error == UserNotFound(id)
  {
    if id in rows then Ok(ConvertToDto(rows[id])) else Err(UserNotFound(id))
  }

  /** `getUserByUsername`: an exact match, the argument is not trimmed here. */
  function GetUserByUsername(rows: UserRows, username: string): (r: Result<UserDto>)
    requires KeysMatchIds(rows) && UniqueUsernames(rows)
    ensures r.Ok? <==> ExistsByUsername(rows, username)
    ensures r.Ok? ==> r.value.id in rows && r.value == ConvertToDto(rows[r.value.id]) && r.value.username == username
    ensures r.Err? ==> r.error == RuntimeException("User not found with username: " + username)
  {
    match FindByUsername(rows, username)
    case Some(user) => Ok(ConvertToDto(user))
    case None => Err(RuntimeException("User not found with username: " + username))
  }

  // ---------------------------------------------------------------------------
  // createUser
  // ---------------------------------------------------------------------------

  /** What `createUser` returns and leaves in the table. */
  function CreateUserOutcome(rows: UserRows, encoder: PasswordEncoder, request: CreateUserRequest,
                             freshId: UserId): Outcome<UserDto, UserRows>
  {
    var username := Trim(request.username);
    var email := Trim(request.email);
    if ExistsByUsername(rows, username) then Outcome(Err(UsernameTaken(username)), rows)
    else if ExistsByEmail(rows, email) then Outcome(Err(EmailTaken(email)), rows)
    else
      var user := User(freshId, username, email, encoder.encode(request.password));
      Outcome(Ok(ConvertToDto(user)), rows[freshId := user])
  }

  method CreateUser(users: UserTable, encoder: PasswordEncoder, request: CreateUserRequest, freshId: UserId)
    returns (r: Result<UserDto>)
    modifies users
    ensures Outcome(r, users.rows) == CreateUserOutcome(old(users.rows), encoder, request, freshId)
  {
    var username := Trim(request.username);
    var email := Trim(request.email);
    if ExistsByUsername(users.rows, username) {
      return Err(UsernameTaken(username));
    }
    if ExistsByEmail(users.rows, email) {
      return Err(EmailTaken(email));
    }
    var user := User(freshId, username, email, encoder.encode(request.password));
    users.Save(user);
    r := Ok(ConvertToDto(user));
  }

  /** A successful `createUser` adds exactly one row, under the fresh id, holding
      the trimmed username and email and the encoded password; a failed one
      writes nothing. */
  lemma CreateUserEffect(rows: UserRows, encoder: PasswordEncoder, request: CreateUserRequest, freshId: UserId)
    requires freshId !in rows
    ensures var o := CreateUserOutcome(rows, encoder, request, freshId);
      && (o.result.Err? ==> o.store == rows)
      && (o.result.Ok? ==>
            && o.store.Keys == rows.Keys + {freshId}
            && (forall id :: id in rows ==> o.store[id] == rows[id])
            && o.store[freshId] == User(freshId, Trim(request.username), Trim(request.email),
                                        encoder.encode(request.password))
            && o.result.value == ConvertToDto(o.store[freshId]))
  {
  }

  /** A taken (trimmed) username is reported, before and regardless of the email,
      and nothing is saved. */
  lemma CreateUserDuplicateUsername(rows: UserRows, encoder: PasswordEncoder, request: CreateUserRequest,
                                    freshId: UserId, otherEmail: string)
    requires ExistsByUsername(rows, Trim(request.username))
    ensures CreateUserOutcome(rows, encoder, request, freshId) ==
            Outcome(Err(UsernameTaken(Trim(request.username))), rows)
    ensures CreateUserOutcome(rows, encoder, request, freshId) ==
            CreateUserOutcome(rows, encoder, request.(email := otherEmail), freshId)
  {
  }

  /** A free username with a taken (trimmed) email is reported as such and nothing is saved. */
  lemma CreateUserDuplicateEmail(rows: UserRows, encoder: PasswordEncoder, request: CreateUserRequest,
                                 freshId: UserId)
    requires !ExistsByUsername(rows, Trim(request.username))
    requires ExistsByEmail(rows, Trim(request.email))
    ensures CreateUserOutcome(rows, encoder, request, freshId) ==
            Outcome(Err(EmailTaken(Trim(request.email))), rows)
  {
  }

  /** `createUser` keeps usernames and emails unique. */
  lemma CreateUserKeepsWellFormed(rows: UserRows, encoder: PasswordEncoder, request: CreateUserRequest,
                                  freshId: UserId)
    requires WellFormed(rows)
    requires freshId !in rows
    ensures WellFormed(CreateUserOutcome(rows, encoder, request, freshId).store)
  {
    var o := CreateUserOutcome(rows, encoder, request, freshId);
    if o.result.Ok? {
      var user := User(freshId, Trim(request.username), Trim(request.email), encoder.encode(request.password));
      assert o.store == rows[freshId := user];
      forall other | other in rows
        ensures rows[other].username != user.username && rows[other].email != user.email
      {
        assert !ExistsByUsername(rows, user.username) && !ExistsByEmail(rows, user.email);
      }
      StoreKeepsWellFormed(rows, user);
    }
  }

  /** Storing a row whose username and email no other row has keeps the table well formed. */
  lemma StoreKeepsWellFormed(rows: UserRows, user: User)
    requires WellFormed(rows)
    requires forall other :: other in rows && other != user.id ==>
               rows[other].username != user.username && rows[other].email != user.email
    ensures WellFormed(rows[user.id := user])
  {
    var s := rows[user.id := user];
    forall a, b | a in s && b in s && s[a].username == s[b].username ensures a == b {
      if a != user.id && b != user.id {
        assert rows[a].username == rows[b].username;
      }
    }
    forall a, b | a in s && b in s && s[a].email == s[b].email ensures a == b {
      if a != user.id && b != user.id {
        assert rows[a].email == rows[b].email;
      }
    }
  }

  // ---------------------------------------------------------------------------
  // updateUser
  // ---------------------------------------------------------------------------

  /** The username after the request's username field has been applied to
      `current`: unchanged when absent; otherwise trimmed, refused when blank, and
      refused when it differs from the current one and another row has it. */
  function NewUsername(rows: UserRows, current: User, requested: Option<string>): Result<string> {
    match requested
    case None => Ok(current.username)
    case Some(raw) =>
      var username := Trim(raw);
      if username == [] then Err(BlankUsername)
      else if current.username != username && ExistsByUsername(rows, username) then Err(UsernameTaken(username))
      else Ok(username)
  }

  /** The same rule for the email field. */
  function NewEmail(rows: UserRows, current: User, requested: Option<string>): Result<string> {
    match requested
    case None => Ok(current.email)
    case Some(raw) =>
      var email := Trim(raw);
      if email == [] then Err(BlankEmail)
      else if current.email != email && ExistsByEmail(rows, email) then Err(EmailTaken(email))
      else Ok(email)
  }

  /** What `updateUser` returns and leaves in the table. */
  function UpdateUserOutcome(rows: UserRows, encoder: PasswordEncoder, id: UserId,
                             request: UpdateUserRequest): Outcome<UserDto, UserRows>
  {
    if id !in rows then Outcome(Err(UserNotFound(id)), rows)
    else
      var current := rows[id];
      match NewUsername(rows, current, request.username)
      case Err(e) => Outcome(Err(e), rows)
      case Ok(username) =>
        match NewEmail(rows, current, request.email)
        case Err(e) => Outcome(Err(e), rows)
        case Ok(email) =>
          var hash := match request.password
                      case Some(password) => encoder.encode(password)
                      case None => current.passwordHash;
          var updated := current.(username := username, email := email, passwordHash := hash);
          Outcome(Ok(ConvertToDto(updated)), rows[updated.id := updated])
  }

  method UpdateUser(users: UserTable, encoder: PasswordEncoder, id: UserId, request: UpdateUserRequest)
    returns (r: Result<UserDto>)
    modifies users
    ensures Outcome(r, users.rows) == UpdateUserOutcome(old(users.rows), encoder, id, request)
  {
    if id !in users.rows {
      return Err(UserNotFound(id));
    }
    var user := users.rows[id];
    if request.username.Some? {
      var username := Trim(request.username.value);
      if username == [] {
        return Err(BlankUsername);
      }
      if user.username != username && ExistsByUsername(users.rows, username) {
        return Err(UsernameTaken(username));
      }
      user := user.(username := username);
    }
    if request.email.Some? {
      var email := Trim(request.email.value);
      if email == [] {
        return Err(BlankEmail);
      }
      if user.email != email && ExistsByEmail(users.rows, email) {
        return Err(EmailTaken(email));
      }
      user := user.(email := email);
    }
    if request.password.Some? {
      user := user.(passwordHash := encoder.encode(request.password.value));
    }
    users.Save(user);
    r := Ok(ConvertToDto(user));
  }

  /** A successful update rewrites only the addressed row, keeps its id, takes
      each supplied field (trimmed, the password encoded) and keeps each absent
      one; a failed update writes nothing. */
  lemma UpdateUserEffect(rows: UserRows, encoder: PasswordEncoder, id: UserId, request: UpdateUserRequest)
    requires KeysMatchIds(rows)
    ensures var o := UpdateUserOutcome(rows, encoder, id, request);
      && (id !in rows ==> o.result == Err(UserNotFound(id)))
      && (o.result.Err? ==> o.store == rows)
      && (o.result.Ok? ==>
            && id in rows
            && o.store == rows[id := o.store[id]]
            && o.store[id].id == id
            && o.store[id].username == (if request.username.Some? then Trim(request.username.value) else rows[id].username)
            && o.store[id].email == (if request.email.Some? then Trim(request.email.value) else rows[id].email)
            && o.store[id].passwordHash ==
                 (if request.password.Some? then encoder.encode(request.password.value) else rows[id].passwordHash)
            && o.result.value == ConvertToDto(o.store[id]))
  {
  }

  /** A supplied username that is blank after trimming is refused; so is a
      supplied blank email once the username step has passed. Nothing is written. */
  lemma UpdateUserRejectsBlank(rows: UserRows, encoder: PasswordEncoder, id: UserId, request: UpdateUserRequest)
    requires id in rows
    ensures request.username.Some? && IsBlank(request.username.value) ==>
      UpdateUserOutcome(rows, encoder, id, request) == Outcome(Err(BlankUsername), rows)
    ensures NewUsername(rows, rows[id], request.username).Ok? && request.email.Some? && IsBlank(request.email.value) ==>
      UpdateUserOutcome(rows, encoder, id, request) == Outcome(Err(BlankEmail), rows)
  {
    if request.username.Some? {
      TrimEmptyIffBlank(request.username.value);
    }
    if request.email.Some? {
      TrimEmptyIffBlank(request.email.value);
    }
  }

  /** A changed username that another row already holds is refused with
      "Username already exists: <name>"; a changed email held by another row is
      refused with "Email already exists: <email>" once the username step has
      passed. Nothing is written. */
  lemma UpdateUserRejectsTaken(rows: UserRows, encoder: PasswordEncoder, id: UserId, request: UpdateUserRequest)
    requires id in rows
    ensures request.username.Some? ==>
      var u := Trim(request.username.value);
      (u != [] && u != rows[id].username && ExistsByUsername(rows, u) ==>
         UpdateUserOutcome(rows, encoder, id, request) == Outcome(Err(UsernameTaken(u)), rows))
    ensures NewUsername(rows, rows[id], request.username).Ok? && request.email.Some? ==>
      var e := Trim(request.email.value);
      (e != [] && e != rows[id].email && ExistsByEmail(rows, e) ==>
         UpdateUserOutcome(rows, encoder, id, request) == Outcome(Err(EmailTaken(e)), rows))
  {
  }

  /** Uniqueness is checked only against a changed value: re-submitting one's own
      username and email (with any surrounding blanks) succeeds, although the
      table does contain them. */
  lemma UpdateUserToOwnValuesSucceeds(rows: UserRows, encoder: PasswordEncoder, id: UserId, request: UpdateUserRequest)
    requires id in rows
    requires request.username.Some? && Trim(request.username.value) == rows[id].username && rows[id].username != []
    requires request.email.Some? && Trim(request.email.value) == rows[id].email && rows[id].email != []
    ensures UpdateUserOutcome(rows, encoder, id, request).result.Ok?
  {
  }

  /** `updateUser` keeps usernames and emails unique. */
  lemma UpdateUserKeepsWellFormed(rows: UserRows, encoder: PasswordEncoder, id: UserId, request: UpdateUserRequest)
    requires WellFormed(rows)
    ensures WellFormed(UpdateUserOutcome(rows, encoder, id, request).store)
  {
    var o := UpdateUserOutcome(rows, encoder, id, request);
    if o.result.Ok? {
      var u := o.store[id];
      assert o.store == rows[u.id := u];
      forall other | other in rows && other != u.id
        ensures rows[other].username != u.username && rows[other].email != u.email
      {
        UsernameClash(rows, id, request, other);
        EmailClash(rows, id, request, other);
      }
      StoreKeepsWellFormed(rows, u);
    }
  }

  /** After a successful username step, no other row has the resulting username. */
  lemma UsernameClash(rows: UserRows, id: UserId, request: UpdateUserRequest, other: UserId)
    requires WellFormed(rows)
    requires id in rows && other in rows && other != id
    requires NewUsername(rows, rows[id], request.username).Ok?
    ensures rows[other].username != NewUsername(rows, rows[id], request.username).value
  {
    if request.username.None? {
      assert rows[id].username != rows[other].username;
    }
  }

  /** After a successful email step, no other row has the resulting email. */
  lemma EmailClash(rows: UserRows, id: UserId, request: UpdateUserRequest, other: UserId)
    requires WellFormed(rows)
    requires id in rows && other in rows && other != id
    requires NewEmail(rows, rows[id], request.email).Ok?
    ensures rows[other].email != NewEmail(rows, rows[id], request.email).value
  {
    if request.email.None? {
      assert rows[id].email != rows[other].email;
    }
  }

  // ---------------------------------------------------------------------------
  // deleteUser
  // ---------------------------------------------------------------------------

  /** What `deleteUser` returns (nothing, or the exception) and leaves in the table. */
  function DeleteUserOutcome(rows: UserRows, id: UserId): (o: Outcome<(), UserRows>)
    ensures o.result.Ok? <==> id in rows
    ensures o.result.Err? ==> o.result.error == UserNotFound(id) && o.store == rows
    ensures o.result.Ok? ==> o.store.Keys == rows.Keys - {id} && forall k :: k in o.store ==> o.store[k] == rows[k]
  {
    if id !in rows then Outcome(Err(UserNotFound(id)), rows) else Outcome(Ok(()), rows - {id})
  }

  method DeleteUser(users: UserTable, id: UserId) returns (r: Result<()>)
    modifies users
    ensures Outcome(r, users.rows) == DeleteUserOutcome(old(users.rows), id)
  {
    if id !in users.rows {
      return Err(UserNotFound(id));
    }
    users.DeleteById(id);
    r := Ok(());
  }

  /** Removing a row keeps usernames and emails unique. */
  lemma DeleteUserKeepsWellFormed(rows: UserRows, id: UserId)
    requires WellFormed(rows)
    ensures WellFormed(DeleteUserOutcome(rows, id).store)
  {
  }
}
