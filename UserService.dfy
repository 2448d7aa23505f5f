/**
 * The user lifecycle manager: registration, reads, update and delete of
 * accounts against the repository, guarded by the access checks, each
 * successful change followed by the admin fan-out.
 *
 * The caller identity, the password encoder and the notification sink are
 * explicit: a `Caller` parameter, an `encode` parameter, and the `outbox`
 * field that collects every message posted to the notification service.
 */
module Service {
  import opened Types
  import opened Access
  import opened Notifications
  import opened Repository

  /** The account a transfer record describes, field for field. */
  function ToUser(d: UserDto): User {
    User(d.id, d.username, d.password, d.email, d.firstName, d.lastName, d.role)
  }

  /** `convertToDTO`: the projection loses nothing, the stored hash included. */
  function ConvertToDto(u: User): (d: UserDto)
    ensures ToUser(d) == u
  {
    UserDto(u.id, u.username, u.password, u.email, u.firstName, u.lastName, u.role)
  }

  /** The listing mapped through `convertToDTO`, element by element. */
  function ConvertAll(rows: seq<User>): (r: seq<UserDto>)
    ensures |r| == |rows|
    ensures forall i :: 0 <= i < |rows| ==> r[i] == ConvertToDto(rows[i])
  {
    if rows == [] then [] else [ConvertToDto(rows[0])] + ConvertAll(rows[1..])
  }

  /** A row is listed exactly when its transfer record is, and every record converts back to its row. */
  lemma ConvertAllMembers(rows: seq<User>)
    ensures forall u :: u in rows ==> ConvertToDto(u) in ConvertAll(rows)
    ensures forall d :: d in ConvertAll(rows) ==> ToUser(d) in rows
  {
  }

  /**
   * The account registration builds: the role is USER whatever the record
   * asks for, the password is stored encoded, the rest is copied.
   */
  function NewAccount(id: nat, dto: UserDto, encode: string -> string): (u: User)
    ensures u.role == USER && u.id == id
    ensures u.password == encode(dto.password)
    ensures u.username == dto.username && u.email == dto.email
    ensures u.firstName == dto.firstName && u.lastName == dto.lastName
  {
    User(id, dto.username, encode(dto.password), dto.email, dto.firstName, dto.lastName, USER)
  }

  /**
   * The account after an update: email and names are always overwritten,
   * the hash only for a non-empty new password; id, username and role stay.
   */
  function Patch(u: User, dto: UserDto, encode: string -> string): (r: User)
    ensures r.id == u.id && r.username == u.username && r.role == u.role
    ensures r.email == dto.email && r.firstName == dto.firstName && r.lastName == dto.lastName
    ensures dto.password == "" ==> r.password == u.password
    ensures dto.password != "" ==> r.password == encode(dto.password)
  {
    var password := if dto.password != "" then encode(dto.password) else u.password;
    u.(email := dto.email, firstName := dto.firstName, lastName := dto.lastName, password := password)
  }

  /** After a delete, every admin the fan-out reaches is still stored; the removed account is not among them. */
  lemma DeletedAccountNotNotified(s: Store, id: nat)
    requires s.Valid()
    ensures forall x :: x in Admins(s.Remove(id).FindAll()) ==>
      x.id != id && x.id in s.accounts && s.accounts[x.id] == x && x.role == ADMIN
  {
  }

  /** After an update, an admin who changed its own account is sent the update message. */
  lemma SelfUpdatingAdminNotified(s: Store, u: User)
    requires s.Valid() && u.id in s.accounts && u.role == ADMIN
    ensures var sent := Fanout(Admins(s.Put(u).FindAll()), Updated, u);
      exists j :: 0 <= j < |sent| && sent[j] == MessageTo(u, Updated, u)
  {
    var rows := s.Put(u).FindAll();
    assert u == s.Put(u).accounts[u.id];
    assert u in Admins(rows);
    var j :| 0 <= j < |Admins(rows)| && Admins(rows)[j] == u;
    FanoutAt(Admins(rows), j, Updated, u);
  }

  /** A registration never notifies the account it creates: the new account is not an admin. */
  lemma NewAccountNotNotified(s: Store, dto: UserDto, encode: string -> string)
    requires s.Valid()
    ensures NewAccount(s.nextId, dto, encode) !in Admins(s.Insert(NewAccount(s.nextId, dto, encode)).FindAll())
  {
  }

  class UserService {
    var store: Store
    var outbox: seq<Notification>

    /** The repository is well formed and usernames are unique. */
    ghost predicate Valid()
      reads this
    {
      store.Valid() && store.UniqueUsernames()
    }

    constructor (initial: Store)
      requires initial.Valid() && initial.UniqueUsernames()
      ensures Valid() && store == initial && outbox == []
    {
      store := initial;
      outbox := [];
    }

    /**
     * `loadUserByUsername`: the account's name, hash and role authority,
     * so that the authenticated caller is an admin exactly when the account is.
     */
    function LoadUserByUsername(username: string): (r: Result<UserDetails>)
      reads this
      requires Valid()
      ensures r.Err? <==> !store.ExistsByUsername(username)
      ensures r.Err? ==> r.error == UsernameNotFound(username)
      ensures forall k :: k in store.accounts && store.accounts[k].username == username ==>
        && r.Ok? && r.value.username == username && r.value.password == store.accounts[k].password
        && r.value.authorities == Authorities(store.accounts[k].role)
        && (IsAdmin(Caller(username, r.value.authorities)) <==> store.accounts[k].role == ADMIN)
    {
      match store.FindByUsername(username)
      case None => Err(UsernameNotFound(username))
      case Some(user) =>
        AuthoritiesGrantAdmin(username, user.role);
        Ok(UserDetails(user.username, user.password, Authorities(user.role)))
    }

    /** `getUser`: not-found first, then self-or-admin, then the account. */
    function GetUser(id: nat, caller: Caller): (r: Result<UserDto>)
      reads this
      ensures r == Err(UserNotFound) <==> id !in store.accounts
      ensures r == Err(AccessDenied) <==>
        id in store.accounts && !IsAdmin(caller) && store.accounts[id].username != caller.name
      ensures r.Ok? || r == Err(UserNotFound) || r == Err(AccessDenied)
      ensures r.Ok? ==> r.value == ConvertToDto(store.accounts[id])
    {
      match store.FindById(id)
      case None => Err(UserNotFound)
      case Some(user) =>
        match CheckAccess(caller, user)
        case Fail(e) => Err(e)
        case Pass => Ok(ConvertToDto(user))
    }

    /** `getUserByUsername`: as `getUser`, keyed by the unique username. */
    function GetUserByUsername(username: string, caller: Caller): (r: Result<UserDto>)
      reads this
      requires Valid()
      ensures r == Err(UserNotFound) <==> !store.ExistsByUsername(username)
      ensures r == Err(AccessDenied) <==>
        store.ExistsByUsername(username) && !IsAdmin(caller) && username != caller.name
      ensures r.Ok? || r == Err(UserNotFound) || r == Err(AccessDenied)
      ensures r.Ok? ==> forall k :: k in store.accounts && store.accounts[k].username == username ==>
        r.value == ConvertToDto(store.accounts[k])
    {
      match store.FindByUsername(username)
      case None => Err(UserNotFound)
      case Some(user) =>
        match CheckAccess(caller, user)
        case Fail(e) => Err(e)
        case Pass => Ok(ConvertToDto(user))
    }

    /** `getAllUsers`: admin only; then every stored account, once each, as a transfer record. */
    function GetAllUsers(caller: Caller): (r: Result<seq<UserDto>>)
      reads this
      requires Valid()
      ensures r.Err? <==> !IsAdmin(caller)
      ensures r.Err? ==> r.error == AdminAccessRequired
      ensures r.Ok? ==> |r.value| == |store.accounts|
      ensures r.Ok? ==> forall k :: k in store.accounts ==> ConvertToDto(store.accounts[k]) in r.value
      ensures r.Ok? ==> forall d :: d in r.value ==> d.id in store.accounts && ToUser(d) == store.accounts[d.id]
    {
      match CheckAdminAccess(caller)
      case Fail(e) => Err(e)
      case Pass =>
        var rows := store.FindAll();
        ConvertAllMembers(rows);
        Ok(ConvertAll(rows))
    }

    /**
     * `notifyAdmins`: re-reads the listing, keeps its admins in listing
     * order, and posts one message to each about `user`.
     */
    method NotifyAdmins(action: Action, user: User)
      requires store.Valid()
      modifies this`outbox
      ensures outbox == old(outbox) + Fanout(Admins(store.FindAll()), action, user)
    {
      var admins := Admins(store.FindAll());
      PostEach(admins, action, user);
    }

    /** The loop of `notifyAdmins`: one message posted per admin, in order. */
    method PostEach(admins: seq<User>, action: Action, user: User)
      modifies this`outbox
      ensures outbox == old(outbox) + Fanout(admins, action, user)
    {
      ghost var before := outbox;
      for i := 0 to |admins|
        invariant outbox == before + Fanout(admins[..i], action, user)
      {
        var message := MessageTo(admins[i], action, user);
        FanoutStep(admins, i, action, user);
        outbox := outbox + [message];
      }
      assert admins[..|admins|] == admins;
    }

    /**
     * `createUser`: a taken username, then a taken email, is refused before
     * anything is written; otherwise the new USER account is saved and the
     * admins present after the save are told.
     */
    method CreateUser(dto: UserDto, encode: string -> string) returns (r: Result<UserDto>)
      requires Valid()
      modifies this
      ensures Valid()
      ensures old(store.ExistsByUsername(dto.username)) ==> r == Err(UsernameExists) && unchanged(this)
      ensures !old(store.ExistsByUsername(dto.username)) && old(store.ExistsByEmail(dto.email)) ==>
        r == Err(EmailExists) && unchanged(this)
      ensures r.Ok? <==> !old(store.ExistsByUsername(dto.username)) && !old(store.ExistsByEmail(dto.email))
      ensures r.Ok? ==>
        var u := NewAccount(old(store.nextId), dto, encode);
        && store == old(store).Insert(u)
        && outbox == old(outbox) + Fanout(Admins(store.FindAll()), Created, u)
        && r.value == ConvertToDto(u)
    {
      if store.ExistsByUsername(dto.username) {
        return Err(UsernameExists);
      }
      if store.ExistsByEmail(dto.email) {
        return Err(EmailExists);
      }
      var user := NewAccount(store.nextId, dto, encode);
      store := store.Insert(user);
      NotifyAdmins(Created, user);
      r := Ok(ConvertToDto(user));
    }

    /**
     * `updateUser`: not-found, then access, are checked before any write;
     * then the patched account replaces the stored one and the admins are told.
     */
    method UpdateUser(id: nat, dto: UserDto, caller: Caller, encode: string -> string) returns (r: Result<UserDto>)
      requires Valid()
      modifies this
      ensures Valid()
      ensures id !in old(store.accounts) ==> r == Err(UserNotFound) && unchanged(this)
      ensures id in old(store.accounts) && CheckAccess(caller, old(store.accounts[id])).Fail? ==>
        r == Err(AccessDenied) && unchanged(this)
      ensures r.Ok? <==> id in old(store.accounts) && CheckAccess(caller, old(store.accounts[id])).Pass?
      ensures r.Ok? ==>
        var u := Patch(old(store.accounts[id]), dto, encode);
        && store == old(store).Put(u)
        && outbox == old(outbox) + Fanout(Admins(store.FindAll()), Updated, u)
        && r.value == ConvertToDto(u)
    {
      match store.FindById(id)
      case None =>
        return Err(UserNotFound);
      case Some(user) =>
        var access := CheckAccess(caller, user);
        if access.Fail? {
          return Err(access.error);
        }
        var updated := Patch(user, dto, encode);
        store := store.Put(updated);
        NotifyAdmins(Updated, updated);
        r := Ok(ConvertToDto(updated));
    }

    /**
     * `deleteUser`: not-found, then access, are checked before the hard
     * delete; the admins left in the store are told about the removed account.
     */
    method DeleteUser(id: nat, caller: Caller) returns (r: Outcome)
      requires Valid()
      modifies this
      ensures Valid()
      ensures id !in old(store.accounts) ==> r == Fail(UserNotFound) && unchanged(this)
      ensures id in old(store.accounts) && CheckAccess(caller, old(store.accounts[id])).Fail? ==>
        r == Fail(AccessDenied) && unchanged(this)
      ensures r.Pass? <==> id in old(store.accounts) && CheckAccess(caller, old(store.accounts[id])).Pass?
      ensures r.Pass? ==>
        && store == old(store).Remove(id)
        && outbox == old(outbox) + Fanout(Admins(store.FindAll()), Deleted, old(store.accounts[id]))
        && forall c :: GetUser(id, c) == Err(UserNotFound)
    {
      match store.FindById(id)
      case None =>
        return Fail(UserNotFound);
      case Some(user) =>
        var access := CheckAccess(caller, user);
        if access.Fail? {
          return access;
        }
        store := store.Remove(id);
        NotifyAdmins(Deleted, user);
        r := Pass;
    }
  }

  /** The repository of the worked example, before and after carol is saved. */
  lemma ExampleStore(alice: User, bob: User, carol: User)
    requires alice.id == 0 && bob.id == 1 && carol.id == 2
    requires alice.username != bob.username && alice.username != carol.username && bob.username != carol.username
    requires carol.email != alice.email && carol.email != bob.email
    ensures var initial := Store(map[0 := alice, 1 := bob], [0, 1], 2);
      && initial.Valid() && initial.UniqueUsernames()
      && !initial.ExistsByUsername(carol.username) && !initial.ExistsByEmail(carol.email)
      && initial.Insert(carol).FindAll() == [alice, bob, carol]
  {
    var initial := Store(map[0 := alice, 1 := bob], [0, 1], 2);
    assert initial.Valid();
    var after := initial.Insert(carol);
    assert after.accounts == map[0 := alice, 1 := bob, 2 := carol];
    assert after.order == [0, 1, 2];
  }

  /** The fan-out of the worked example: one message, to bob. */
  lemma ExampleFanout(alice: User, bob: User, carol: User)
    requires alice.role == USER && bob.role == ADMIN && carol.role == USER && carol.username == "carol"
    ensures Fanout(Admins([alice, bob, carol]), Created, carol)
      == [Notification(bob.email, "Created user carol", Text(Created, carol))]
  {
    assert [alice, bob, carol][1..] == [bob, carol] && [bob, carol][1..] == [carol] && [carol][1..] == [];
    assert Admins([carol]) == [];
    assert Admins([bob, carol]) == [bob];
    assert Admins([alice, bob, carol]) == [bob];
    assert Fanout([bob], Created, carol) == [MessageTo(bob, Created, carol)] by {
      assert [bob][..0] == [];
    }
    assert Subject(Created, carol) == "Created" + " user " + "carol";
    assert Subject(Created, carol) == "Created user carol";
  }

  /**
   * Worked example: a repository holding alice (a USER, id 0) and bob (an
   * ADMIN, id 1) registers carol. The new account is a USER, and bob, and
   * only bob, is sent one message, whose subject is "Created user carol".
   */
  method RegistrationExample(alice: User, bob: User, dto: UserDto, encode: string -> string)
    returns (r: Result<UserDto>, sent: seq<Notification>)
    requires alice.id == 0 && alice.role == USER && bob.id == 1 && bob.role == ADMIN
    requires alice.username != bob.username && dto.username == "carol"
    requires alice.username != "carol" && bob.username != "carol"
    requires dto.email != alice.email && dto.email != bob.email
    ensures r.Ok? && r.value.role == USER && r.value.username == "carol" && r.value.id == 2
    ensures sent == [Notification(bob.email, "Created user carol", Text(Created, ToUser(r.value)))]
  {
    var carol := NewAccount(2, dto, encode);
    ExampleStore(alice, bob, carol);
    ExampleFanout(alice, bob, carol);
    var service := new UserService(Store(map[0 := alice, 1 := bob], [0, 1], 2));
    r := service.CreateUser(dto, encode);
    sent := service.outbox;
  }
}
