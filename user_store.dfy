/** The user directory as functions of the repository's contents: each query is a
    function of the store, each mutating operation a function from the store before
    to the store after together with the operation's result. An operation that fails
    leaves the store as it was. */
module UserStore {
  import opened Entities

  /** What a mutating operation leaves behind: the new store and its result. */
  datatype Reply<+T> = Reply(users: Store, result: Result<T>)

  /** Every record is filed under its own identifier. */
  ghost predicate FiledUnderOwnId(s: Store) {
    forall id :: id in s ==> s[id].id == id
  }

  /** No two records share a non-empty username. The empty username is exempt:
      creating or renaming to it skips the uniqueness check. */
  ghost predicate UniqueUsernames(s: Store) {
    forall i, j :: i in s && j in s && i != j && s[i].username == s[j].username ==> s[i].username == ""
  }

  /** The invariant every operation of the directory keeps. */
  ghost predicate Valid(s: Store) {
    FiledUnderOwnId(s) && UniqueUsernames(s)
  }

  /** The identifiers of the records that carry `username`. */
  ghost function IdsNamed(s: Store, username: string): set<UserId> {
    set id | id in s && s[id].username == username
  }

  /** `after` is `before` with at most its password changed. */
  ghost predicate SameExceptPassword(before: User, after: User) {
    after.(password := before.password) == before
  }

  /** `after` is `before` with at most its role set changed. */
  ghost predicate SameExceptRoles(before: User, after: User) {
    after.(roles := before.roles) == before
  }

  /** The fields a generic update never touches: identity, creation time,
      credential, account flags and role set. */
  ghost predicate KeepsProtectedFields(before: User, after: User) {
    && after.id == before.id
    && after.createTime == before.createTime
    && after.password == before.password
    && after.accountNonExpired == before.accountNonExpired
    && after.accountNonLocked == before.accountNonLocked
    && after.credentialsNonExpired == before.credentialsNonExpired
    && after.enabled == before.enabled
    && after.defaultUser == before.defaultUser
    && after.roles == before.roles
  }

  // ---------------------------------------------------------------- queries

  /** The repository's existence query by username. */
  predicate ExistsByUsername(s: Store, username: string) {
    exists id :: id in s && s[id].username == username
  }

  /** Lookup by username: fails when no record carries it. When several records
      carry it (only possible for the empty username) one of them is returned. */
  ghost function GetUserByUsername(s: Store, username: string): (r: Result<User>)
    ensures r.Err? <==> IdsNamed(s, username) == {}
    ensures r.Err? ==> r.error == UsernameNotFound(username)
    ensures r.Ok? ==> r.value in s.Values && r.value.username == username
  {
    if ExistsByUsername(s, username) then
      var id :| id in s && s[id].username == username;
      assert id in IdsNamed(s, username);
      Ok(s[id])
    else
      assert forall id :: id in s ==> s[id].username != username;
      Err(UsernameNotFound(username))
  }

  /** Existence by username: the empty username is reported absent without
      consulting the store. */
  function HasUserByUsername(s: Store, username: string): (b: bool)
    ensures username == "" ==> !b
    ensures username != "" ==> (b <==> IdsNamed(s, username) != {})
  {
    if username == "" then false
    else
      assert ExistsByUsername(s, username) ==> IdsNamed(s, username) != {} by {
        if ExistsByUsername(s, username) {
          var id :| id in s && s[id].username == username;
          assert id in IdsNamed(s, username);
        }
      }
      ExistsByUsername(s, username)
  }

  /** Lookup by identifier: fails exactly when the identifier is absent. */
  function GetUserById(s: Store, id: UserId): (r: Result<User>)
    ensures r.Err? <==> id !in s
    ensures r.Err? ==> r.error == UserIdNotFound
    ensures r.Ok? ==> r.value == s[id]
  {
    if id in s then Ok(s[id]) else Err(UserIdNotFound)
  }

  /** Existence by identifier: unlike the username query, an empty identifier
      is an error rather than `false`. */
  function HasUserById(s: Store, id: UserId): (r: Result<bool>)
    ensures r.Err? <==> id == ""
    ensures r.Err? ==> r.error == UserIdNotFound
    ensures r.Ok? ==> (r.value <==> id in s)
  {
    if id == "" then Err(UserIdNotFound) else Ok(id in s)
  }

  /** The role-removal guard: fails on an absent identifier, and otherwise
      allows removal unless the user holds exactly two roles. */
  function HasRole(s: Store, id: UserId): (r: Result<bool>)
    ensures r.Err? <==> id !in s
    ensures r.Err? ==> r.error == UserIdNotFound
    ensures r.Ok? ==> (r.value <==> |s[id].roles| != 2)
  {
    match GetUserById(s, id)
    case Err(e) => Err(e)
    case Ok(user) => Ok(|user.roles| != 2)
  }

  // ------------------------------------------------------ mutating operations

  /** Create: refuses a username that already exists, stores the encoder's output
      `encoded` in place of the plaintext and replaces the role set wholesale by
      the supplied roles. */
  function SaveUser(s: Store, user: User, roles: seq<Role>, encoded: string): (o: Reply<User>)
    ensures HasUserByUsername(s, user.username) ==> o == Reply(s, Err(UserUsernameExisted))
    ensures o.result.Ok? <==> !HasUserByUsername(s, user.username)
    ensures user.username == "" ==> o.result.Ok?
    ensures o.result.Ok? ==>
      && o.result.value.password == encoded
      && (forall r :: r in o.result.value.roles <==> r in roles)
      && o.result.value.(password := user.password, roles := user.roles) == user
      && o.users == s[user.id := o.result.value]
  {
    if HasUserByUsername(s, user.username) then
      Reply(s, Err(UserUsernameExisted))
    else
      var saved := user.(password := encoded, roles := set r | r in roles);
      Reply(s[saved.id := saved], Ok(saved))
  }

  /** Delete: fails on an absent identifier, otherwise removes that one record. */
  function DeleteUserById(s: Store, id: UserId): (o: Reply<()>)
    ensures id !in s ==> o == Reply(s, Err(UserIdNotFound))
    ensures id in s ==> o.result.Ok?
    ensures o.result.Ok? ==> o.users.Keys == s.Keys - {id} && forall k :: k in o.users ==> o.users[k] == s[k]
  {
    match GetUserById(s, id)
    case Err(e) => Reply(s, Err(e))
    case Ok(_) => Reply(s - {id}, Ok(()))
  }

  /** Role removal: guarded by `HasRole`; removing a role the user lacks leaves
      the role set as it was. */
  function RemoveRolesById(s: Store, id: UserId, role: Role): (o: Reply<User>)
    ensures id !in s ==> o == Reply(s, Err(UserIdNotFound))
    ensures id in s && |s[id].roles| == 2 ==> o == Reply(s, Err(DefaultRoleModifyForbid))
    ensures id in s && |s[id].roles| != 2 ==> o.result.Ok?
    ensures o.result.Ok? ==>
      && id in s
      && o.result.value.roles == s[id].roles - {role}
      && SameExceptRoles(s[id], o.result.value)
      && o.users == s[id := o.result.value]
  {
    match HasRole(s, id)
    case Err(e) => Reply(s, Err(e))
    case Ok(allowed) =>
      if !allowed then Reply(s, Err(DefaultRoleModifyForbid))
      else
        var user := s[id];
        var updated := user.(roles := user.roles - {role});
        Reply(s[id := updated], Ok(updated))
  }

  /** Generic update: refuses a rename onto a username that exists; otherwise
      takes the username and profile from `args` and keeps every protected field. */
  function UpdateUserById(s: Store, id: UserId, args: User): (o: Reply<User>)
    ensures id !in s ==> o == Reply(s, Err(UserIdNotFound))
    ensures id in s && args.username != s[id].username && HasUserByUsername(s, args.username) ==>
      o == Reply(s, Err(UserUsernameExisted))
    ensures id in s && (args.username == s[id].username || !HasUserByUsername(s, args.username)) ==>
      o.result.Ok?
    ensures o.result.Ok? ==>
      && id in s
      && KeepsProtectedFields(s[id], o.result.value)
      && o.result.value.username == args.username
      && o.result.value.profile == args.profile
      && o.users == s[id := o.result.value]
  {
    match GetUserById(s, id)
    case Err(e) => Reply(s, Err(e))
    case Ok(user) =>
      if args.username != user.username && HasUserByUsername(s, args.username) then
        Reply(s, Err(UserUsernameExisted))
      else
        var updated := user.(username := args.username, profile := args.profile);
        Reply(s[id := updated], Ok(updated))
  }

  /** Password change by identifier: only the password changes, to `encoded`. */
  function UpdateUserPasswordById(s: Store, id: UserId, encoded: string): (o: Reply<User>)
    ensures id !in s ==> o == Reply(s, Err(UserIdNotFound))
    ensures id in s ==> o.result.Ok?
    ensures o.result.Ok? ==>
      && id in s
      && o.result.value.password == encoded
      && SameExceptPassword(s[id], o.result.value)
      && o.users == s[id := o.result.value]
  {
    match GetUserById(s, id)
    case Err(e) => Reply(s, Err(e))
    case Ok(user) =>
      var updated := user.(password := encoded);
      Reply(s[id := updated], Ok(updated))
  }

  /** Role addition: the role set becomes the old one united with `role`. */
  function AddRolesById(s: Store, id: UserId, role: Role): (o: Reply<User>)
    ensures id !in s ==> o == Reply(s, Err(UserIdNotFound))
    ensures id in s ==> o.result.Ok?
    ensures o.result.Ok? ==>
      && id in s
      && o.result.value.roles == s[id].roles + {role}
      && SameExceptRoles(s[id], o.result.value)
      && o.users == s[id := o.result.value]
  {
    match GetUserById(s, id)
    case Err(e) => Reply(s, Err(e))
    case Ok(user) =>
      var updated := user.(roles := user.roles + {role});
      Reply(s[id := updated], Ok(updated))
  }

  /** Password change by username: fails when `HasUserByUsername` is false,
      otherwise changes only the password of the record the lookup returns. */
  ghost function UpdateUserPasswordByUserName(s: Store, username: string, encoded: string): (o: Reply<User>)
    ensures !HasUserByUsername(s, username) ==> o == Reply(s, Err(UserNameNotFound))
    ensures HasUserByUsername(s, username) ==> o.result.Ok?
    ensures o.result.Ok? ==>
      && o.result.value.username == username
      && o.result.value.password == encoded
      && (exists k :: k in s && SameExceptPassword(s[k], o.result.value))
      && o.users == s[o.result.value.id := o.result.value]
    ensures o.result.Ok? && FiledUnderOwnId(s) ==>
      o.result.value.id in s && SameExceptPassword(s[o.result.value.id], o.result.value)
  {
    if !HasUserByUsername(s, username) then
      Reply(s, Err(UserNameNotFound))
    else
      var user := GetUserByUsername(s, username).value;
      var updated := user.(password := encoded);
      Reply(s[updated.id := updated], Ok(updated))
  }
}
