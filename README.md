# User directory model

A Dafny model of the user directory of the integration-operations back end: the
`UserService` that resolves users by username or identifier, creates users with a
username-uniqueness check, deletes them, updates their profile, changes their
password and adds or removes roles, refusing role removal from a user who holds
exactly two roles.

- `entities.dfy` (module `Entities`): the user record (identifier, username,
  stored password, creation time, the five account flags, role set and the
  remaining profile properties), roles, the store (a map from identifier to
  record) and the typed failures.
- `user_store.dfy` (module `UserStore`): the directory as functions of the store.
  Queries are functions; each mutating operation is a function returning the new
  store together with the operation's result. The store invariant `Valid` says
  that every record is filed under its own identifier and that no two records share
  a non-empty username.
- `user_store_facts.dfy` (module `UserStoreFacts`): lemmas relating the
  operations: every operation keeps `Valid`, create-then-lookup round trips,
  duplicate creation fails, deletion frees a username, role addition and update are
  idempotent, add-then-remove restores the store, and the two-role guard scenario.
- `user_service.dfy` (module `Service`): the class `UserService` holding the
  store in a field, one method per service operation. Each mutating method fetches
  the record, changes it and saves it back as the service does, keeps `Valid`, and
  is proved to leave exactly the store and result of the matching `UserStore`
  function.

The password encoder (BCrypt, salted on every call) is outside the model: every
operation that stores a credential takes the encoder's output for the plaintext as
the parameter `encoded`, so nothing assumes the encoder is deterministic.

"Empty" means the empty string, as both emptiness tests in the service use it. The
empty username is exempt from the uniqueness check: creating a user with it, or
renaming a user to it, skips the check, so several records may carry it; the
invariant therefore only makes non-empty usernames unique, and lookup by the empty
username returns one of the records that carry it (see "Left out").

## Model

| member | source | states |
|---|---|---|
| UserStore.GetUserByUsername | src/main/java/com/rengu/project/integrationoperations/service/UserService.java:54-61 | fails with the username-not-found exception exactly when no record carries the username; otherwise returns a stored record carrying it |
| UserStore.HasUserByUsername | src/main/java/com/rengu/project/integrationoperations/service/UserService.java:64-69 | false for the empty username whatever the store holds; otherwise true exactly when some record carries the username |
| UserStore.SaveUser | src/main/java/com/rengu/project/integrationoperations/service/UserService.java:77-84 | an existing (non-empty) username gives USER_USERNAME_EXISTED with the store unchanged; creation succeeds exactly when the username existence query is false, so an empty username always passes; on success the record stored under its id has the encoder output as password, exactly the supplied roles as role set, and every other field from the argument |
| UserStore.DeleteUserById | src/main/java/com/rengu/project/integrationoperations/service/UserService.java:87-93 | an absent id gives USER_ID_NOT_FOUND with the store unchanged; otherwise exactly that record is removed and every other record is unchanged |
| UserStore.HasRole | src/main/java/com/rengu/project/integrationoperations/service/UserService.java:107-113 | an absent id gives USER_ID_NOT_FOUND; otherwise removal is allowed exactly when the user does not hold exactly two roles |
| UserStore.RemoveRolesById | src/main/java/com/rengu/project/integrationoperations/service/UserService.java:95-113 | absent id gives USER_ID_NOT_FOUND; exactly two roles gives DEFAULT_ROLE_MODIFY_FORBID with the store unchanged; otherwise the role set becomes the old one minus the role and nothing else of the record or the store changes |
| UserStore.UpdateUserById | src/main/java/com/rengu/project/integrationoperations/service/UserService.java:116-126 | absent id gives USER_ID_NOT_FOUND; a changed username that already exists gives USER_USERNAME_EXISTED with the store unchanged; otherwise id, createTime, password, the five flags and roles are kept and username and profile come from the argument |
| UserStore.UpdateUserPasswordById | src/main/java/com/rengu/project/integrationoperations/service/UserService.java:130-134 | absent id gives USER_ID_NOT_FOUND; otherwise only the password changes, to the encoder output |
| UserStore.AddRolesById | src/main/java/com/rengu/project/integrationoperations/service/UserService.java:136-140 | absent id gives USER_ID_NOT_FOUND; otherwise the role set becomes the old one united with the role and nothing else changes |
| UserStore.GetUserById | src/main/java/com/rengu/project/integrationoperations/service/UserService.java:143-149 | fails with USER_ID_NOT_FOUND exactly when the id is absent; otherwise returns the record stored under it |
| UserStore.HasUserById | src/main/java/com/rengu/project/integrationoperations/service/UserService.java:152-157 | the empty id is an error (USER_ID_NOT_FOUND), not false; otherwise true exactly when the id is present |
| UserStore.UpdateUserPasswordByUserName | src/main/java/com/rengu/project/integrationoperations/service/UserService.java:164-171 | USER_NAME_NOT_FOUND exactly when the username existence query is false; otherwise a record carrying the username gets the encoder output as password and nothing else changes; when records are filed under their own ids, the record written is the stored one under that id with only the password changed |
| UserStoreFacts.UsernameOwnedByOneRecord | src/main/java/com/rengu/project/integrationoperations/service/UserService.java:77-84 | in a valid store a non-empty username belongs to at most one record |
| UserStoreFacts.LookupByUsernameFindsOwner | src/main/java/com/rengu/project/integrationoperations/service/UserService.java:54-61 | in a store with unique usernames, lookup of a non-empty username returns the record that carries it |
| UserStoreFacts.SaveUserKeepsValid | src/main/java/com/rengu/project/integrationoperations/service/UserService.java:77-84 | creation keeps records under their own ids and non-empty usernames unique |
| UserStoreFacts.DeleteUserByIdKeepsValid | src/main/java/com/rengu/project/integrationoperations/service/UserService.java:87-93 | deletion keeps the store invariant |
| UserStoreFacts.RemoveRolesByIdKeepsValid | src/main/java/com/rengu/project/integrationoperations/service/UserService.java:95-105 | role removal keeps the store invariant |
| UserStoreFacts.AddRolesByIdKeepsValid | src/main/java/com/rengu/project/integrationoperations/service/UserService.java:136-140 | role addition keeps the store invariant |
| UserStoreFacts.UpdateUserPasswordByIdKeepsValid | src/main/java/com/rengu/project/integrationoperations/service/UserService.java:130-134 | password change by id keeps the store invariant |
| UserStoreFacts.UpdateUserByIdKeepsValid | src/main/java/com/rengu/project/integrationoperations/service/UserService.java:116-126 | a rename onto a free or empty username keeps non-empty usernames unique |
| UserStoreFacts.PasswordByUserNameIsById | src/main/java/com/rengu/project/integrationoperations/service/UserService.java:164-171 | in a valid store, changing the password by a non-empty username is the same operation as changing it by the owner's id |
| UserStoreFacts.UpdateUserPasswordByUserNameKeepsValid | src/main/java/com/rengu/project/integrationoperations/service/UserService.java:164-171 | password change by username keeps the store invariant |
| UserStoreFacts.SaveUserThenLookup | src/main/java/com/rengu/project/integrationoperations/service/UserService.java:77-84 | a created user with a non-empty username resolves by id and by username to the stored record, whose password is the encoder output |
| UserStoreFacts.SaveUserTwiceConflicts | src/main/java/com/rengu/project/integrationoperations/service/UserService.java:77-84 | after a creation with a non-empty username, any second creation with that username fails with USER_USERNAME_EXISTED and exactly one record carries the username |
| UserStoreFacts.DeleteFreesUsername | src/main/java/com/rengu/project/integrationoperations/service/UserService.java:87-93 | after deleting a user, no record carries its non-empty username and creating a user with it succeeds |
| UserStoreFacts.PasswordChangeThenLookup | src/main/java/com/rengu/project/integrationoperations/service/UserService.java:130-134 | after a password change by id, lookup by that id returns the old record with only the password replaced by the encoder output |
| UserStoreFacts.AddRolesByIdIdempotent | src/main/java/com/rengu/project/integrationoperations/service/UserService.java:136-140 | adding the same role twice leaves the same store and result as adding it once |
| UserStoreFacts.RemoveAbsentRoleIsNoop | src/main/java/com/rengu/project/integrationoperations/service/UserService.java:95-105 | removing a role the user does not hold, past the guard, leaves the store unchanged |
| UserStoreFacts.AddThenRemoveRestores | src/main/java/com/rengu/project/integrationoperations/service/UserService.java:95-140 | adding an absent role and then removing it restores the store, unless the addition brings the user to exactly two roles |
| UserStoreFacts.TwoRoleGuardScenario | src/main/java/com/rengu/project/integrationoperations/service/UserService.java:95-113 | with roles {r1, r2}, removing either is refused and the store unchanged; after adding r3 the user has three roles and removing r1 succeeds leaving {r2, r3} |
| UserStoreFacts.UpdateUserByIdIdempotent | src/main/java/com/rengu/project/integrationoperations/service/UserService.java:116-126 | applying the same successful update twice leaves the same store and result as once |
| UserStoreFacts.UpdateUserByIdKeepsCredentials | src/main/java/com/rengu/project/integrationoperations/service/UserService.java:116-126 | whatever the argument carries, an update leaves password, id, createTime and roles of the stored record as they were |
| Service.UserService.constructor | src/main/java/com/rengu/project/integrationoperations/service/UserService.java:41-44 | the service starts over a given valid repository |
| Service.UserService.GetUserByUsername | src/main/java/com/rengu/project/integrationoperations/service/UserService.java:54-61 | fails with the username-not-found exception exactly when no record carries the username; otherwise returns a stored record carrying it, and for a non-empty username the same record as UserStore.GetUserByUsername |
| Service.UserService.HasUserByUsername | src/main/java/com/rengu/project/integrationoperations/service/UserService.java:64-69 | answers as UserStore.HasUserByUsername on the current store |
| Service.UserService.GetUserById | src/main/java/com/rengu/project/integrationoperations/service/UserService.java:143-149 | answers as UserStore.GetUserById on the current store |
| Service.UserService.HasUserById | src/main/java/com/rengu/project/integrationoperations/service/UserService.java:152-157 | answers as UserStore.HasUserById on the current store |
| Service.UserService.HasRole | src/main/java/com/rengu/project/integrationoperations/service/UserService.java:107-113 | answers as UserStore.HasRole on the current store |
| Service.UserService.SaveUser | src/main/java/com/rengu/project/integrationoperations/service/UserService.java:77-84 | keeps the invariant and leaves exactly the store and result of UserStore.SaveUser |
| Service.UserService.DeleteUserById | src/main/java/com/rengu/project/integrationoperations/service/UserService.java:87-93 | keeps the invariant and leaves exactly the store and result of UserStore.DeleteUserById |
| Service.UserService.RemoveRolesById | src/main/java/com/rengu/project/integrationoperations/service/UserService.java:95-105 | keeps the invariant and leaves exactly the store and result of UserStore.RemoveRolesById |
| Service.UserService.UpdateUserById | src/main/java/com/rengu/project/integrationoperations/service/UserService.java:116-126 | keeps the invariant and leaves exactly the store and result of UserStore.UpdateUserById |
| Service.UserService.UpdateUserPasswordById | src/main/java/com/rengu/project/integrationoperations/service/UserService.java:130-134 | keeps the invariant and leaves exactly the store and result of UserStore.UpdateUserPasswordById |
| Service.UserService.AddRolesById | src/main/java/com/rengu/project/integrationoperations/service/UserService.java:136-140 | keeps the invariant and leaves exactly the store and result of UserStore.AddRolesById |
| Service.UserService.UpdateUserPasswordByUserName | src/main/java/com/rengu/project/integrationoperations/service/UserService.java:164-171 | keeps the invariant and leaves exactly the store and result of UserStore.UpdateUserPasswordByUserName |

## Left out

- UserStore.GetUserByUsername: the repository's behaviour when several records carry the same username (only the empty username can be shared) is not modelled; the lookup then returns one of those records, whereas the repository's single-result query would not return one of several matches.
- The password encoder: BCrypt hashing is an external call; each operation receives its output as `encoded`, so the model does not prove that the stored credential differs from the plaintext.
- saveUsers (bulk save, src/main/java/com/rengu/project/integrationoperations/service/UserService.java:72-74): a pass-through to the repository with no checks; it could break username uniqueness and is not modelled.
- getUsers (paged listing, src/main/java/com/rengu/project/integrationoperations/service/UserService.java:159-161): a pass-through to the repository's paging.
- loadUserByUsername (src/main/java/com/rengu/project/integrationoperations/service/UserService.java:48-50): the security framework's adapter onto getUserByUsername.
- The result cache on getUserByUsername (src/main/java/com/rengu/project/integrationoperations/service/UserService.java:53): a framework annotation with no eviction anywhere; lookup is modelled as a plain read of the store.
- Transactions, concurrency and races between check and write: each operation is modelled as one atomic step.
- Identity of entity objects: the service mutates the fetched entity (and, in saveUser, the caller's argument) in place before saving; the model works on record values, so aliasing between the caller's object, the returned object and the stored record is not captured.
- Java null: null usernames, ids and role arrays are not modelled.
- The commented-out default-user and default-role guards: they are not in effect.
- Identifier assignment: the record arrives with its identifier; saving over an existing identifier replaces that record, as the repository's save does.
- The WebSocket broadcaster (util/WebSocketUtil.java): transport plumbing, not part of this model.
