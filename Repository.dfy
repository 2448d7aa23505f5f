/**
 * The user repository the service works against, as a value: a table of
 * accounts keyed by id, the order in which `findAll` lists them, and the
 * next id the store hands out on insert.
 */
module Repository {
  import opened Types

  /** No id occurs twice. */
  predicate Distinct(ids: seq<nat>) {
    forall i, j :: 0 <= i < j < |ids| ==> ids[i] != ids[j]
  }

  /** `ids` with every occurrence of `id` removed, the rest in order. */
  function Without(ids: seq<nat>, id: nat): (r: seq<nat>)
    ensures forall x :: x in r <==> x in ids && x != id
    ensures Distinct(ids) ==> Distinct(r)
  {
    if ids == [] then []
    else if ids[0] == id then Without(ids[1..], id)
    else
      var rest := Without(ids[1..], id);
      assert Distinct(ids) ==> ids[0] !in ids[1..];
      [ids[0]] + rest
  }

  /** The first row of `rows` whose username is `name`. */
  function FirstNamed(rows: seq<User>, name: string): (r: Option<User>)
    ensures r.Some? ==> r.value in rows && r.value.username == name
    ensures r.None? <==> forall u :: u in rows ==> u.username != name
  {
    if rows == [] then None
    else if rows[0].username == name then Some(rows[0])
    else FirstNamed(rows[1..], name)
  }

  datatype Store = Store(accounts: map<nat, User>, order: seq<nat>, nextId: nat) {

    /** Every account is filed under its own id, below the next id, and listed exactly once. */
    ghost predicate Valid() {
      && (forall k :: k in accounts ==> k < nextId && accounts[k].id == k)
      && (forall k :: k in accounts <==> k in order)
      && Distinct(order)
    }

    /** No two accounts share a username. */
    ghost predicate UniqueUsernames() {
      forall j, k :: j in accounts && k in accounts && accounts[j].username == accounts[k].username ==> j == k
    }

    /** `findAll`: every stored account exactly once, in listing order. */
    function FindAll(): (rows: seq<User>)
      requires Valid()
      ensures |rows| == |accounts|
      ensures forall u :: u in rows ==> u.id in accounts && accounts[u.id] == u
      ensures forall k :: k in accounts ==> accounts[k] in rows
    {
      var rows := seq(|order|, i requires 0 <= i < |order| => accounts[order[i]]);
      ListingFacts(accounts, order, nextId, rows);
      rows
    }

    function FindById(id: nat): (r: Option<User>)
      ensures r.Some? <==> id in accounts
      ensures r.Some? ==> r.value == accounts[id]
    {
      if id in accounts then Some(accounts[id]) else None
    }

    /** `existsByUsername`. */
    predicate ExistsByUsername(name: string) {
      exists k :: k in accounts && accounts[k].username == name
    }

    /** `existsByEmail`. */
    predicate ExistsByEmail(email: string) {
      exists k :: k in accounts && accounts[k].email == email
    }

    /** `findByUsername`: with unique usernames, the one account of that name. */
    function FindByUsername(name: string): (r: Option<User>)
      requires Valid()
      ensures r.Some? <==> ExistsByUsername(name)
      ensures r.Some? ==> r.value.username == name && r.value.id in accounts && accounts[r.value.id] == r.value
      ensures UniqueUsernames() ==> forall k :: k in accounts && accounts[k].username == name ==> r == Some(accounts[k])
    {
      var rows := FindAll();
      FirstNamed(rows, name)
    }

    /** `save` of a new account: it is filed under the next id and listed last. */
    function Insert(u: User): (s: Store)
      requires Valid()
      requires u.id == nextId
      ensures s.Valid()
      ensures s.accounts == accounts[u.id := u] && u.id !in accounts
      ensures s.order == order + [u.id] && s.nextId == nextId + 1
      ensures UniqueUsernames() && !ExistsByUsername(u.username) ==> s.UniqueUsernames()
    {
      assert u.id !in order;
      Store(accounts[u.id := u], order + [u.id], nextId + 1)
    }

    /** `save` of an existing account: it replaces the stored one in place. */
    function Put(u: User): (s: Store)
      requires Valid()
      requires u.id in accounts
      ensures s.Valid()
      ensures s.accounts == accounts[u.id := u] && s.order == order && s.nextId == nextId
      ensures UniqueUsernames() && u.username == accounts[u.id].username ==> s.UniqueUsernames()
    {
      Store(accounts[u.id := u], order, nextId)
    }

    /** `delete`: the account leaves the table and the listing; ids are not reused. */
    function Remove(id: nat): (s: Store)
      requires Valid()
      ensures s.Valid()
      ensures s.accounts == accounts - {id} && s.order == Without(order, id) && s.nextId == nextId
      ensures UniqueUsernames() ==> s.UniqueUsernames()
    {
      Store(accounts - {id}, Without(order, id), nextId)
    }
  }

  /** The rows listed for `order` are exactly the stored accounts, one per key. */
  lemma ListingFacts(accounts: map<nat, User>, order: seq<nat>, nextId: nat, rows: seq<User>)
    requires Store(accounts, order, nextId).Valid()
    requires |rows| == |order| && forall i :: 0 <= i < |order| ==> rows[i] == accounts[order[i]]
    ensures |rows| == |accounts|
    ensures forall u :: u in rows ==> u.id in accounts && accounts[u.id] == u
    ensures forall k :: k in accounts ==> accounts[k] in rows
  {
    KeysListed(accounts.Keys, order);
    forall k | k in accounts ensures accounts[k] in rows {
      var i :| 0 <= i < |order| && order[i] == k;
      assert rows[i] == accounts[k];
    }
  }

  /** A duplicate-free listing of exactly the keys `keys` has one entry per key. */
  lemma {:induction false} KeysListed(keys: set<nat>, order: seq<nat>)
    requires forall k :: k in keys <==> k in order
    requires Distinct(order)
    ensures |order| == |keys|
  {
    if order != [] {
      var last := order[|order| - 1];
      var front := order[..|order| - 1];
      assert order == front + [last];
      assert forall k :: k in keys - {last} <==> k in front;
      KeysListed(keys - {last}, front);
    }
  }
}
