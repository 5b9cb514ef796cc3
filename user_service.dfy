/** The user service: one object owning the repository's contents, with one
    method per service operation. Each method checks, fetches the record, changes
    it and saves it back, as the service does; its postcondition ties the new
    store and the result to the matching function of `UserStore`, whose
    properties `UserStoreFacts` proves. The password encoder is not part of the
    model: each operation that stores a credential receives the encoder's output
    for the plaintext as `encoded`. */
module Service {
  import opened Entities
  import UserStore
  import UserStoreFacts

  class UserService {
    /** The repository's contents: every user record, by identifier. */
    var users: Store

    ghost predicate Valid()
      reads this
    {
      UserStore.Valid(users)
    }

    constructor (initial: Store)
      requires UserStore.Valid(initial)
      ensures Valid() && users == initial
    {
      users := initial;
    }

    // -------------------------------------------------------------- queries
    // Each query answers as the `UserStore` function of the same name, which
    // documents the rule; the methods read the store field as the service does.

    /** Returns a record carrying `username`; for a non-empty username, the one
        record that carries it. */
    method GetUserByUsername(username: string) returns (r: Result<User>)
      requires Valid()
      ensures r.Err? <==> !UserStore.ExistsByUsername(users, username)
      ensures r.Err? ==> r.error == UsernameNotFound(username)
      ensures r.Ok? ==> r.value.id in users && users[r.value.id] == r.value && r.value.username == username
      ensures username != "" ==> r == UserStore.GetUserByUsername(users, username)
    {
      if !UserStore.ExistsByUsername(users, username) {
        return Err(UsernameNotFound(username));
      }
      var id :| id in users && users[id].username == username;
      r := Ok(users[id]);
      if username != "" {
        UserStoreFacts.LookupByUsernameFindsOwner(users, username, id);
      }
    }

    method HasUserByUsername(username: string) returns (b: bool)
      ensures b == UserStore.HasUserByUsername(users, username)
    {
      if username == "" {
        return false;
      }
      b := UserStore.ExistsByUsername(users, username);
    }

    method GetUserById(userId: UserId) returns (r: Result<User>)
      ensures r == UserStore.GetUserById(users, userId)
    {
      if userId !in users {
        return Err(UserIdNotFound);
      }
      r := Ok(users[userId]);
    }

    method HasUserById(userId: UserId) returns (r: Result<bool>)
      ensures r == UserStore.HasUserById(users, userId)
    {
      if userId == "" {
        return Err(UserIdNotFound);
      }
      r := Ok(userId in users);
    }

    method HasRole(userId: UserId) returns (r: Result<bool>)
      ensures r == UserStore.HasRole(users, userId)
    {
      if userId !in users {
        return Err(UserIdNotFound);
      }
      r := Ok(|users[userId].roles| != 2);
    }

    // ------------------------------------------------------------ mutations

    method SaveUser(user: User, roles: seq<Role>, encoded: string) returns (r: Result<User>)
      requires Valid()
      modifies this
      ensures Valid()
      ensures var o := UserStore.SaveUser(old(users), user, roles, encoded);
        users == o.users && r == o.result
    {
      var taken := HasUserByUsername(user.username);
      if taken {
        return Err(UserUsernameExisted);
      }
      UserStoreFacts.SaveUserKeepsValid(users, user, roles, encoded);
      var entity := user.(password := encoded);
      entity := entity.(roles := set role | role in roles);
      users := users[entity.id := entity];
      r := Ok(entity);
    }

    method DeleteUserById(userId: UserId) returns (r: Result<()>)
      requires Valid()
      modifies this
      ensures Valid()
      ensures var o := UserStore.DeleteUserById(old(users), userId);
        users == o.users && r == o.result
    {
      var found := GetUserById(userId);
      if found.Err? {
        return Err(found.error);
      }
      users := users - {found.value.id};
      r := Ok(());
    }

    method RemoveRolesById(userId: UserId, role: Role) returns (r: Result<User>)
      requires Valid()
      modifies this
      ensures Valid()
      ensures var o := UserStore.RemoveRolesById(old(users), userId, role);
        users == o.users && r == o.result
    {
      var allowed := HasRole(userId);
      if allowed.Err? {
        return Err(allowed.error);
      }
      if !allowed.value {
        return Err(DefaultRoleModifyForbid);
      }
      var found := GetUserById(userId);
      var user := found.value;
      user := user.(roles := user.roles - {role});
      users := users[user.id := user];
      r := Ok(user);
    }

    method UpdateUserById(userId: UserId, args: User) returns (r: Result<User>)
      requires Valid()
      modifies this
      ensures Valid()
      ensures var o := UserStore.UpdateUserById(old(users), userId, args);
        users == o.users && r == o.result
    {
      var found := GetUserById(userId);
      if found.Err? {
        return Err(found.error);
      }
      var user := found.value;
      if args.username != user.username {
        var taken := HasUserByUsername(args.username);
        if taken {
          return Err(UserUsernameExisted);
        }
      }
      // every property but the protected ones is copied from the argument
      user := user.(username := args.username, profile := args.profile);
      users := users[user.id := user];
      r := Ok(user);
    }

    method UpdateUserPasswordById(userId: UserId, encoded: string) returns (r: Result<User>)
      requires Valid()
      modifies this
      ensures Valid()
      ensures var o := UserStore.UpdateUserPasswordById(old(users), userId, encoded);
        users == o.users && r == o.result
    {
      var found := GetUserById(userId);
      if found.Err? {
        return Err(found.error);
      }
      var user := found.value.(password := encoded);
      users := users[user.id := user];
      r := Ok(user);
    }

    method AddRolesById(userId: UserId, role: Role) returns (r: Result<User>)
      requires Valid()
      modifies this
      ensures Valid()
      ensures var o := UserStore.AddRolesById(old(users), userId, role);
        users == o.users && r == o.result
    {
      var found := GetUserById(userId);
      if found.Err? {
        return Err(found.error);
      }
      var user := found.value;
      user := user.(roles := user.roles + {role});
      users := users[user.id := user];
      r := Ok(user);
    }

    method UpdateUserPasswordByUserName(username: string, encoded: string) returns (r: Result<User>)
      requires Valid()
      modifies this
      ensures Valid()
      ensures var o := UserStore.UpdateUserPasswordByUserName(old(users), username, encoded);
        users == o.users && r == o.result
    {
      var present := HasUserByUsername(username);
      if !present {
        return Err(UserNameNotFound);
      }
      var found := GetUserByUsername(username);
      var user := found.value.(password := encoded);
      users := users[user.id := user];
      r := Ok(user);
    }
  }
}
