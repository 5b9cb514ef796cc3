/** Properties of the user directory that relate several operations or hold over
    the whole store: the invariant every operation keeps, round trips between
    creation and lookup, idempotence of role addition and of update, and the
    two-role guard on role removal. */
module UserStoreFacts {
  import opened Entities
  import opened UserStore

  // ------------------------------------------------------ username uniqueness

  /** In a valid store a non-empty username belongs to at most one record. */
  lemma UsernameOwnedByOneRecord(s: Store, username: string)
    requires Valid(s)
    requires username != ""
    ensures |IdsNamed(s, username)| <= 1
  {
    if IdsNamed(s, username) != {} {
      var id :| id in IdsNamed(s, username);
      assert IdsNamed(s, username) == {id};
    }
  }

  /** In a valid store, looking up a non-empty username returns the one record
      that carries it. */
  lemma LookupByUsernameFindsOwner(s: Store, username: string, id: UserId)
    requires UniqueUsernames(s)
    requires username != ""
    requires id in s && s[id].username == username
    ensures GetUserByUsername(s, username) == Ok(s[id])
  {
  }

  // ------------------------------------------------ every operation keeps Valid

  lemma SaveUserKeepsValid(s: Store, user: User, roles: seq<Role>, encoded: string)
    requires Valid(s)
    ensures Valid(SaveUser(s, user, roles, encoded).users)
  {
  }

  lemma DeleteUserByIdKeepsValid(s: Store, id: UserId)
    requires Valid(s)
    ensures Valid(DeleteUserById(s, id).users)
  {
  }

  lemma RemoveRolesByIdKeepsValid(s: Store, id: UserId, role: Role)
    requires Valid(s)
    ensures Valid(RemoveRolesById(s, id, role).users)
  {
  }

  lemma AddRolesByIdKeepsValid(s: Store, id: UserId, role: Role)
    requires Valid(s)
    ensures Valid(AddRolesById(s, id, role).users)
  {
  }

  lemma UpdateUserPasswordByIdKeepsValid(s: Store, id: UserId, encoded: string)
    requires Valid(s)
    ensures Valid(UpdateUserPasswordById(s, id, encoded).users)
  {
  }

  /** A rename keeps usernames unique: either the name is unchanged, or it is
      empty, or no record carried it before. */
  lemma UpdateUserByIdKeepsValid(s: Store, id: UserId, args: User)
    requires Valid(s)
    ensures Valid(UpdateUserById(s, id, args).users)
  {
  }

  /** Changing a password by username is changing it by the identifier of the
      username's owner: only that record's password changes. */
  lemma PasswordByUserNameIsById(s: Store, username: string, id: UserId, encoded: string)
    requires Valid(s)
    requires username != ""
    requires id in s && s[id].username == username
    ensures UpdateUserPasswordByUserName(s, username, encoded) == UpdateUserPasswordById(s, id, encoded)
  {
  }

  lemma UpdateUserPasswordByUserNameKeepsValid(s: Store, username: string, encoded: string)
    requires Valid(s)
    ensures Valid(UpdateUserPasswordByUserName(s, username, encoded).users)
  {
  }

  // ------------------------------------------------------------- round trips

  /** A created user with a non-empty username can be resolved both by its
      identifier and by its username, and resolves to the stored record. */
  lemma SaveUserThenLookup(s: Store, user: User, roles: seq<Role>, encoded: string)
    requires Valid(s)
    requires user.username != ""
    requires SaveUser(s, user, roles, encoded).result.Ok?
    ensures var o := SaveUser(s, user, roles, encoded);
      && GetUserById(o.users, user.id) == o.result
      && GetUserByUsername(o.users, user.username) == o.result
      && o.result.value.password == encoded
  {
  }

  /** Once a user with a non-empty username is created, creating another user
      with that username fails and leaves exactly one record carrying it. */
  lemma SaveUserTwiceConflicts(s: Store, user: User, roles: seq<Role>, encoded: string,
                               other: User, otherRoles: seq<Role>, otherEncoded: string)
    requires Valid(s)
    requires user.username != "" && other.username == user.username
    requires SaveUser(s, user, roles, encoded).result.Ok?
    ensures var after := SaveUser(s, user, roles, encoded).users;
      && SaveUser(after, other, otherRoles, otherEncoded) == Reply(after, Err(UserUsernameExisted))
      && |IdsNamed(after, user.username)| == 1
  {
    var after := SaveUser(s, user, roles, encoded).users;
    assert user.id in IdsNamed(after, user.username);
    SaveUserKeepsValid(s, user, roles, encoded);
    UsernameOwnedByOneRecord(after, user.username);
  }

  /** Deleting a user with a non-empty username frees that username: creating a
      user with it afterwards succeeds. */
  lemma DeleteFreesUsername(s: Store, id: UserId, user: User, roles: seq<Role>, encoded: string)
    requires Valid(s)
    requires id in s && s[id].username != ""
    requires user.username == s[id].username
    ensures var after := DeleteUserById(s, id).users;
      && !HasUserByUsername(after, user.username)
      && SaveUser(after, user, roles, encoded).result.Ok?
  {
  }

  /** After a password change by identifier, resolving that identifier yields
      the record with the new credential and nothing else changed. */
  lemma PasswordChangeThenLookup(s: Store, id: UserId, encoded: string)
    requires id in s
    ensures GetUserById(UpdateUserPasswordById(s, id, encoded).users, id) == Ok(s[id].(password := encoded))
  {
  }

  // --------------------------------------------------------- role membership

  /** Adding a role twice has the same effect as adding it once. */
  lemma AddRolesByIdIdempotent(s: Store, id: UserId, role: Role)
    ensures var once := AddRolesById(s, id, role);
      AddRolesById(once.users, id, role) == once
  {
  }

  /** Removing a role the user does not hold changes nothing, unless the
      two-role guard refuses first. */
  lemma RemoveAbsentRoleIsNoop(s: Store, id: UserId, role: Role)
    requires id in s && role !in s[id].roles && |s[id].roles| != 2
    ensures RemoveRolesById(s, id, role) == Reply(s, Ok(s[id]))
  {
    var u := s[id];
    assert u.roles - {role} == u.roles;
    assert u.(roles := u.roles - {role}) == u;
    assert s[id := u] == s;
  }

  /** Adding a role the user lacks and removing it again restores the store,
      provided the addition does not bring the user to exactly two roles. */
  lemma AddThenRemoveRestores(s: Store, id: UserId, role: Role)
    requires id in s && role !in s[id].roles && |s[id].roles| != 1
    ensures var added := AddRolesById(s, id, role);
      RemoveRolesById(added.users, id, role) == Reply(s, Ok(s[id]))
  {
  }

  /** A user holding exactly two roles keeps both: removing either is refused
      and the store stays as it was. After a third role is added, removing one
      of the first two succeeds and leaves the other two. */
  lemma TwoRoleGuardScenario(s: Store, id: UserId, r1: Role, r2: Role, r3: Role)
    requires id in s
    requires s[id].roles == {r1, r2} && r1 != r2
    requires r3 != r1 && r3 != r2
    ensures RemoveRolesById(s, id, r1) == Reply(s, Err(DefaultRoleModifyForbid))
    ensures RemoveRolesById(s, id, r2) == Reply(s, Err(DefaultRoleModifyForbid))
    ensures var added := AddRolesById(s, id, r3);
      && |added.result.value.roles| == 3
      && var removed := RemoveRolesById(added.users, id, r1);
         && removed.result.Ok?
         && removed.result.value.roles == {r2, r3}
         && |removed.result.value.roles| == 2
  {
  }

  // ------------------------------------------------------------------ update

  /** Applying the same update twice has the same effect as applying it once. */
  lemma UpdateUserByIdIdempotent(s: Store, id: UserId, args: User)
    ensures var once := UpdateUserById(s, id, args);
      once.result.Ok? ==> UpdateUserById(once.users, id, args) == once
  {
  }

  /** An update never changes the credential, identifier, creation time or role
      set held in the store, whatever values the argument carries for them. */
  lemma UpdateUserByIdKeepsCredentials(s: Store, id: UserId, args: User)
    requires id in s
    ensures var after := UpdateUserById(s, id, args).users;
      && id in after
      && after[id].password == s[id].password
      && after[id].id == s[id].id
      && after[id].createTime == s[id].createTime
      && after[id].roles == s[id].roles
  {
  }
}
