# User lifecycle and access control of the auth service

This project models the core of the auth service's `UserService`. The service registers accounts and serves reads, updates and hard deletes of them. Every read and change is guarded by two checks: self-or-admin and admin-only. After every successful create, update or delete, the service sends one notification to each administrator.

The model has five modules:

- `Types` (Types.dfy): the entities. These are the stored account `User`, the transfer record `UserDto`, the authenticated `Caller`, the `UserDetails` handed to authentication, the `Notification` message, the three lifecycle `Action`s, and the `Error`s the service throws (one per exception message).
- `Access` (Access.dfy): `checkAccess` and `checkAdminAccess` as pure functions of an explicit caller. A caller is an admin when its authorities contain `ROLE_ADMIN`.
- `Notifications` (Notifications.dfy): the admin filter and the fan-out of messages, as functions over the store listing. Its lemmas show three things:
  - Admin position `k` of the listing and message index `|Admins(all[..k])|` correspond one to one, in listing order, so every admin gets exactly one message.
  - The subject names the action and the username unambiguously.
  - The body carries the stored password hash.
- `Repository` (Repository.dfy): the user repository as a value `Store`. It holds a map from id to account, the order in which `findAll` lists them, and the next id a save hands out. The repository calls the service uses are member functions of `Store`. Insert, update and delete each preserve the store's well-formedness. Delete keeps usernames unique; insert does when the new name is free, and update does when the username is unchanged.
- `Service` (UserService.dfy): the class `UserService`.
  - Fields: the `store`, and an `outbox` that collects every message posted to the notification service.
  - Mutating methods: `CreateUser`, `UpdateUser` and `DeleteUser` change `store` and `outbox`; `NotifyAdmins` and its loop `PostEach` append to `outbox`.
  - Reads: `LoadUserByUsername`, `GetUser`, `GetUserByUsername` and `GetAllUsers` are functions of the current state.
  - Invariant: the class invariant `Valid()` says the store is well formed and no two accounts share a username. Every mutating method keeps it.

Three external dependencies become explicit:

- The ambient security context becomes a `Caller` parameter.
- The password encoder becomes a parameter `encode: string -> string` of each call that hashes.
- `restTemplate.postForObject` becomes an append to `outbox`.

Three points of the code the model keeps as written:

- A failed post is not caught (UserService.java:153). The model has no failure path for it.
- The two duplicate rejections carry their own messages (UserService.java:53, 56). They are modelled as `UsernameExists` and `EmailExists`.
- The listing returned to admins, and the account returned by registration, carry the stored hash, as `convertToDTO` copies it.

## Model

| member | source | states |
|---|---|---|
| Access.Authorities | auth-service/src/main/java/com/krainet/auth/service/UserService.java:47 | an account is granted exactly one authority, its role name with the `ROLE_` prefix |
| Access.AuthoritiesGrantAdmin | auth-service/src/main/java/com/krainet/auth/service/UserService.java:44-48 | a caller authenticated from an account's details is an admin exactly when that account's role is ADMIN |
| Access.CheckAccess | auth-service/src/main/java/com/krainet/auth/service/UserService.java:125-132 | passes exactly when the caller holds `ROLE_ADMIN` or its name equals the target's username; otherwise fails with "Access denied" |
| Access.CheckAdminAccess | auth-service/src/main/java/com/krainet/auth/service/UserService.java:134-140 | passes exactly when the caller holds `ROLE_ADMIN`; otherwise fails with "Admin access required" |
| Access.AdminAccessImpliesAccess | auth-service/src/main/java/com/krainet/auth/service/UserService.java:125-140 | a caller passing the admin-only check passes the self-or-admin check for every account |
| Notifications.ActionName | auth-service/src/main/java/com/krainet/auth/service/UserService.java:70-122 | each action word passed at lines 70, 110 and 122 ("Created", "Updated", "Deleted") has seven letters, so subjects and bodies start with a fixed-width action |
| Notifications.Admins | auth-service/src/main/java/com/krainet/auth/service/UserService.java:143-145 | the filtered list holds exactly the listed accounts whose role is ADMIN, and is no longer than the listing |
| Notifications.Fanout | auth-service/src/main/java/com/krainet/auth/service/UserService.java:147-155 | one message per admin of the list: the fan-out has exactly as many messages as admins |
| Notifications.FanoutStep | auth-service/src/main/java/com/krainet/auth/service/UserService.java:147-155 | one more loop iteration appends exactly the next admin's message |
| Notifications.FanoutAt | auth-service/src/main/java/com/krainet/auth/service/UserService.java:148-152 | message `i` goes to admin `i`'s email, with subject and body about the triggering account |
| Notifications.AdminsAppend | auth-service/src/main/java/com/krainet/auth/service/UserService.java:143-145 | filtering distributes over concatenation, so admins keep their listing order |
| Notifications.AdminsCons | auth-service/src/main/java/com/krainet/auth/service/UserService.java:143-145 | the filter keeps a first account exactly when it is an ADMIN, then filters the rest |
| Notifications.AdminPosition | auth-service/src/main/java/com/krainet/auth/service/UserService.java:143-149 | the admin at listing position `k` is the filtered list's element whose index is the number of admins listed before `k` |
| Notifications.AdminPositionsDistinct | auth-service/src/main/java/com/krainet/auth/service/UserService.java:143-149 | two admins at different positions get different message indices, so no admin is messaged twice |
| Notifications.EveryMessageHasAdmin | auth-service/src/main/java/com/krainet/auth/service/UserService.java:143-155 | every message index belongs to an admin position of the listing, so no message goes to a non-admin |
| Notifications.FanoutReachesAdmin | auth-service/src/main/java/com/krainet/auth/service/UserService.java:142-155 | every admin in the listing receives its message, addressed to its email, at the index its position gives |
| Notifications.NoAdminNoMessage | auth-service/src/main/java/com/krainet/auth/service/UserService.java:143-147 | with no ADMIN in the listing the fan-out sends nothing |
| Notifications.SubjectIdentifiesEvent | auth-service/src/main/java/com/krainet/auth/service/UserService.java:150 | equal subjects "<action> user <username>" have equal action and equal username |
| Notifications.TextRevealsHash | auth-service/src/main/java/com/krainet/auth/service/UserService.java:151-152 | the message body carries the account's stored password hash at a fixed offset after the username |
| Repository.Without | auth-service/src/main/java/com/krainet/auth/service/UserService.java:119 | deleting an id from the listing keeps exactly the other ids and keeps the listing free of duplicates |
| Repository.FirstNamed | auth-service/src/main/java/com/krainet/auth/service/UserService.java:42-43 | a username search finds an account of that name, or reports none exactly when no account has it |
| Repository.ListingFacts | auth-service/src/main/java/com/krainet/auth/service/UserService.java:143 | the rows listed for the store's order are exactly the stored accounts, one per id |
| Repository.KeysListed | auth-service/src/main/java/com/krainet/auth/service/UserService.java:90 | a duplicate-free listing of exactly the stored ids has one entry per account |
| Repository.Store.FindAll | auth-service/src/main/java/com/krainet/auth/service/UserService.java:90 | `findAll` lists every stored account exactly once, filed under its own id |
| Repository.Store.FindById | auth-service/src/main/java/com/krainet/auth/service/UserService.java:75 | `findById` finds the account exactly when its id is stored |
| Repository.Store.FindByUsername | auth-service/src/main/java/com/krainet/auth/service/UserService.java:82-83 | `findByUsername` finds an account exactly when `existsByUsername` holds, and with unique usernames it is the one account of that name |
| Repository.Store.Insert | auth-service/src/main/java/com/krainet/auth/service/UserService.java:67 | saving a new account files it under a fresh id, lists it last, keeps the store well formed, and keeps usernames unique when the name was free |
| Repository.Store.Put | auth-service/src/main/java/com/krainet/auth/service/UserService.java:107 | saving an existing account replaces it in place; the listing and the other accounts stay, and usernames stay unique when the name is unchanged |
| Repository.Store.Remove | auth-service/src/main/java/com/krainet/auth/service/UserService.java:119 | delete removes the id from the table and the listing, touches no other account, and never reuses ids |
| Service.ConvertToDto | auth-service/src/main/java/com/krainet/auth/service/UserService.java:158-168 | the transfer record loses nothing: converting it back gives the account, hash included |
| Service.ConvertAll | auth-service/src/main/java/com/krainet/auth/service/UserService.java:90-92 | the listing mapped through `convertToDTO` keeps length and order, element by element |
| Service.ConvertAllMembers | auth-service/src/main/java/com/krainet/auth/service/UserService.java:88-93 | every listed account appears as a record, and every record converts back to a listed account |
| Service.NewAccount | auth-service/src/main/java/com/krainet/auth/service/UserService.java:59-65 | registration stores role USER whatever the record asks for, stores the encoded password, and copies username, email and names |
| Service.Patch | auth-service/src/main/java/com/krainet/auth/service/UserService.java:100-105 | update always overwrites email and names; it replaces the hash only for a non-empty password; id, username and role never change |
| Service.DeletedAccountNotNotified | auth-service/src/main/java/com/krainet/auth/service/UserService.java:119-122 | after a delete, every admin the fan-out reaches is still stored, and the removed account is not among them |
| Service.SelfUpdatingAdminNotified | auth-service/src/main/java/com/krainet/auth/service/UserService.java:107-110 | an admin who updates its own account is sent the update message about its new state |
| Service.NewAccountNotNotified | auth-service/src/main/java/com/krainet/auth/service/UserService.java:65-70 | a registration never notifies the account it creates, as that account is not an admin |
| Service.ExampleStore | auth-service/src/main/java/com/krainet/auth/service/UserService.java:52-67 | the example repository of alice and bob is well formed, has neither carol's username nor her email, and lists alice, bob, carol once carol is saved |
| Service.ExampleFanout | auth-service/src/main/java/com/krainet/auth/service/UserService.java:142-155 | over the listing alice (USER), bob (ADMIN), carol (USER) the fan-out is exactly one message, to bob, with subject "Created user carol" |
| Service.RegistrationExample | auth-service/src/main/java/com/krainet/auth/service/UserService.java:51-72 | `createUser` of carol on a repository holding alice (USER) and bob (ADMIN) succeeds with a USER account under the next id, and posts exactly one message, to bob, with subject "Created user carol" |
| Service.UserService.constructor | auth-service/src/main/java/com/krainet/auth/service/UserService.java:32-38 | the service starts on a well-formed repository with an empty outbox |
| Service.UserService.LoadUserByUsername | auth-service/src/main/java/com/krainet/auth/service/UserService.java:40-49 | fails with "User not found: <name>" exactly when no account has the name; otherwise gives its name and hash, and exactly one authority, `ROLE_` followed by the account's role name, which makes the caller an admin exactly when the account is |
| Service.UserService.GetUser | auth-service/src/main/java/com/krainet/auth/service/UserService.java:74-79 | not-found exactly when the id is absent, whoever calls; access denied exactly when the id is present and the caller is neither admin nor owner; otherwise the account's record |
| Service.UserService.GetUserByUsername | auth-service/src/main/java/com/krainet/auth/service/UserService.java:81-86 | as GetUser, keyed by username: not-found first, then self-or-admin, then the one account of that name |
| Service.UserService.GetAllUsers | auth-service/src/main/java/com/krainet/auth/service/UserService.java:88-93 | refused with "Admin access required" exactly for non-admins; otherwise one record per stored account, each converting back to that account |
| Service.UserService.NotifyAdmins | auth-service/src/main/java/com/krainet/auth/service/UserService.java:142-145 | appends the fan-out over the admins of the store as it is at that moment, re-read from `findAll` |
| Service.UserService.PostEach | auth-service/src/main/java/com/krainet/auth/service/UserService.java:147-155 | the loop appends one message per admin of its list, in order, and nothing else |
| Service.UserService.CreateUser | auth-service/src/main/java/com/krainet/auth/service/UserService.java:51-72 | a taken username, checked first, then a taken email: each fails with no write and no message; otherwise the new USER account is inserted, the admins present after the save are notified "Created", and its record is returned |
| Service.UserService.UpdateUser | auth-service/src/main/java/com/krainet/auth/service/UserService.java:95-112 | not-found, then access denied, with no write and no message; otherwise the patched account replaces the stored one, the admins are notified "Updated", and the new record is returned |
| Service.UserService.DeleteUser | auth-service/src/main/java/com/krainet/auth/service/UserService.java:114-123 | not-found, then access denied, with no write and no message; otherwise a hard delete after which getUser gives not-found for every caller, and the remaining admins are told about the pre-delete account |

## Left out

- HTTP controllers, the React frontend, JWT issuance and the `AuthenticationManager` are not part of this model. They only route requests to the service or issue credentials.
- Mail delivery (`EmailService`, SMTP) is modelled only as the append to `outbox`. The URL of the notification service is not modelled.
- Delivery failures are not modelled: an exception thrown by the post, reaching the caller after the save, has no counterpart. Concurrent registrations and a store-level uniqueness constraint are also out of scope.
- Logging through SLF4J is left out, because it has no effect on state.
- The password encoder is a parameter `encode` of each call that hashes. Its implementation is not part of this model, so the model assumes nothing about it across calls.
- Java `null` values are not modelled, with one exception: a `null` and an empty update password are both written as the empty string, because `updateUser` treats them alike. A request with no authentication in the security context is not modelled either.
- Ids are natural numbers handed out by the store in increasing order. The `User` entity and its id generation strategy are not part of this model.
- Email uniqueness is enforced only at registration, as in the code: `updateUser` does not check it, so the model keeps no email invariant.
- Service.UserService.LoadUserByUsername: Spring's `UserDetails` builder is reduced to username, hash and the one role authority. Its account flags are not modelled.
- The order in which `findAll` lists accounts is the model's choice: insertion order, with a deleted id dropped from its place. An unsorted repository `findAll` promises no order, and in the model it decides only the order of the admin messages and of the `getAllUsers` listing, not which admins receive a message or which accounts are listed.
- Ids are natural numbers, so a negative `Long` id, which `getUser`, `updateUser` and `deleteUser` answer with "User not found", cannot be expressed.
