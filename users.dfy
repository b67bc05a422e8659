/** The user table both user services work on (the `User` entity and the
    repository port `UserRepositoryPort` / `UserRepository`), and the password
    encoder they are given. The table is a map from id to record; the derived
    queries `existsByUsername`, `existsByEmail` and `findByUsername` are defined
    on that map. */
module Users {
  import opened Wrappers

  type UserId = int
  type UserRows = map<UserId, User>

  /** A stored user. Creation and update timestamps are not modelled. */
  datatype User = User(id: UserId, username: string, email: string, passwordHash: string)

  /** The view returned to callers: it has no field for the password hash. */
  datatype UserDto = UserDto(id: UserId, username: string, email: string)

  /** Spring's `PasswordEncoder`, a foreign component, as two opaque functions. */
  datatype PasswordEncoder = PasswordEncoder(encode: string -> string, matches: (string, string) -> bool)

  /** Every row is stored under its own id. */
  predicate KeysMatchIds(rows: UserRows) {
    forall id :: id in rows ==> rows[id].id == id
  }

  /** No two rows share a username. */
  predicate UniqueUsernames(rows: UserRows) {
    forall a, b :: a in rows && b in rows && rows[a].username == rows[b].username ==> a == b
  }

  /** No two rows share an email. */
  predicate UniqueEmails(rows: UserRows) {
    forall a, b :: a in rows && b in rows && rows[a].email == rows[b].email ==> a == b
  }

  /** The invariant the user services maintain over the table. */
  predicate WellFormed(rows: UserRows) {
    KeysMatchIds(rows) && UniqueUsernames(rows) && UniqueEmails(rows)
  }

  predicate ExistsByUsername(rows: UserRows, username: string) {
    exists id :: id in rows && rows[id].username == username
  }

  predicate ExistsByEmail(rows: UserRows, email: string) {
    exists id :: id in rows && rows[id].email == email
  }

  /** `findByUsername`: the one row carrying `username`, if any. */
  function FindByUsername(rows: UserRows, username: string): (r: Option<User>)
    requires UniqueUsernames(rows)
    ensures r.Some? <==> ExistsByUsername(rows, username)
    ensures r.Some? ==> exists id :: id in rows && rows[id] == r.value && r.value.username == username
  {
    if ExistsByUsername(rows, username) then
      var id :| id in rows && rows[id].username == username;
      Some(rows[id])
    else
      None
  }

  /** The user repository: its contents change only through `Save` and `DeleteById`. */
  class UserTable {
    var rows: UserRows

    constructor ()
      ensures rows == map[]
    {
      rows := map[];
    }

    /** `save(user)`: inserts or replaces the row with the user's id. */
    method Save(user: User)
      modifies this
      ensures rows == old(rows)[user.id := user]
    {
      rows := rows[user.id := user];
    }

    /** `deleteById(id)`. */
    method DeleteById(id: UserId)
      modifies this
      ensures rows == old(rows) - {id}
    {
      rows := rows - {id};
    }
  }
}
