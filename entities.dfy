/** The records the user directory stores, and the typed failures its operations raise. */
module Entities {

  /** A user's identifier, assigned when the record is created and never changed. */
  type UserId = string

  /** A role is referenced, not owned: the same role may sit in many users' role sets. */
  datatype Role = Role(id: string, name: string)

  /** The profile properties of a user other than the ones named in `User`, by property name. */
  type Profile = map<string, string>

  /** One user record. `password` holds the encoder's output, never the plaintext,
      once the record has passed through the directory. */
  datatype User = User(
    id: UserId,
    username: string,
    password: string,
    createTime: int,
    accountNonExpired: bool,
    accountNonLocked: bool,
    credentialsNonExpired: bool,
    enabled: bool,
    defaultUser: bool,
    roles: set<Role>,
    profile: Profile)

  /** The repository's contents: each record filed under an identifier. */
  type Store = map<UserId, User>

  /** The failures the directory raises: `UsernameNotFound` is the framework's
      username-lookup exception, the others are system status codes. */
  datatype Error =
    | UsernameNotFound(username: string)
    | UserUsernameExisted
    | UserIdNotFound
    | UserNameNotFound
    | DefaultRoleModifyForbid

  datatype Result<+T> = Ok(value: T) | Err(error: Error)
}
