/** backend/.../service/UserService.java: the older draft of the user service,
    written against `repository.UserRepository` and `entity.User`. Its code is
    modelled here on its own, step by step, and each member is proved to return
    and store exactly what the hexagonal `UserApplicationService` does: the two
    versions do not differ in behaviour. */
module UserServiceDraft {
  import opened Wrappers
  import opened JavaText
  import opened Users
  import App = UserApplicationService

  function ConvertToDto(user: User): (view: UserDto)
    ensures view == App.ConvertToDto(user)
  {
    UserDto(user.id, user.username, user.email)
  }

  function GetUserById(rows: UserRows, id: UserId): (r: Result<UserDto>)
    ensures r == App.GetUserById(rows, id)
  {
    if id in rows then Ok(ConvertToDto(rows[id]))
    else Err(RuntimeException("User not found with id: " + LongToString(id)))
  }

  function GetUserByUsername(rows: UserRows, username: string): (r: Result<UserDto>)
    requires KeysMatchIds(rows) && UniqueUsernames(rows)
    ensures r == App.GetUserByUsername(rows, username)
  {
    match FindByUsername(rows, username)
    case Some(user) => Ok(ConvertToDto(user))
    case None => Err(RuntimeException("User not found with username: " + username))
  }

  method CreateUser(users: UserTable, encoder: PasswordEncoder, request: App.CreateUserRequest, freshId: UserId)
    returns (r: Result<UserDto>)
    modifies users
    ensures Outcome(r, users.rows) == App.CreateUserOutcome(old(users.rows), encoder, request, freshId)
  {
    var username := Trim(request.username);
    var email := Trim(request.email);
    if ExistsByUsername(users.rows, username) {
      return Err(RuntimeException("Username already exists: " + username));
    }
    if ExistsByEmail(users.rows, email) {
      return Err(RuntimeException("Email already exists: " + email));
    }
    var user := User(freshId, username, email, encoder.encode(request.password));
    users.Save(user);
    r := Ok(ConvertToDto(user));
  }

  method UpdateUser(users: UserTable, encoder: PasswordEncoder, id: UserId, request: App.UpdateUserRequest)
    returns (r: Result<UserDto>)
    modifies users
    ensures Outcome(r, users.rows) == App.UpdateUserOutcome(old(users.rows), encoder, id, request)
  {
    if id !in users.rows {
      return Err(RuntimeException("User not found with id: " + LongToString(id)));
    }
    var user := users.rows[id];
    if request.username.Some? {
      var username := Trim(request.username.value);
      if username == [] {
        return Err(RuntimeException("Username cannot be blank"));
      }
      if user.username != username && ExistsByUsername(users.rows, username) {
        return Err(RuntimeException("Username already exists: " + username));
      }
      user := user.(username := username);
    }
    if request.email.Some? {
      var email := Trim(request.email.value);
      if email == [] {
        return Err(RuntimeException("Email cannot be blank"));
      }
      if user.email != email && ExistsByEmail(users.rows, email) {
        return Err(RuntimeException("Email already exists: " + email));
      }
      user := user.(email := email);
    }
    if request.password.Some? {
      user := user.(passwordHash := encoder.encode(request.password.value));
    }
    users.Save(user);
    r := Ok(ConvertToDto(user));
  }

  method DeleteUser(users: UserTable, id: UserId) returns (r: Result<()>)
    modifies users
    ensures Outcome(r, users.rows) == App.DeleteUserOutcome(old(users.rows), id)
  {
    if id !in users.rows {
      return Err(RuntimeException("User not found with id: " + LongToString(id)));
    }
    users.DeleteById(id);
    r := Ok(());
  }
}
