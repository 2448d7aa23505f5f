/**
 * The admin notification fan-out: which accounts are notified (every
 * account of role ADMIN, in store listing order) and what each message
 * says about the account that triggered it.
 */
module Notifications {
  import opened Types

  /** The action word put into subject and body. */
  function ActionName(a: Action): (s: string)
    ensures |s| == 7
  {
    match a
    case Created => "Created"
    case Updated => "Updated"
    case Deleted => "Deleted"
  }

  /** Subject line: "<action> user <username>". */
  function Subject(a: Action, u: User): string {
    ActionName(a) + " user " + u.username
  }

  /** Body: "<action> user with username - <username>, password - <hash>, email - <email>". */
  function Text(a: Action, u: User): string {
    ActionName(a) + " user with username - " + u.username + ", password - " + u.password + ", email - " + u.email
  }

  /** The message sent to `admin` about the account `u`. */
  function MessageTo(admin: User, a: Action, u: User): Notification {
    Notification(admin.email, Subject(a, u), Text(a, u))
  }

  /** The accounts of `all` whose role is ADMIN, in the order of `all`. */
  function Admins(all: seq<User>): (r: seq<User>)
    ensures forall x :: x in r <==> x in all && x.role == ADMIN
    ensures |r| <= |all|
  {
    if all == [] then []
    else if all[0].role == ADMIN then [all[0]] + Admins(all[1..])
    else Admins(all[1..])
  }

  /** One message per element of `admins`, in the same order, each about `u`. */
  function Fanout(admins: seq<User>, a: Action, u: User): (r: seq<Notification>)
    ensures |r| == |admins|
  {
    if admins == [] then []
    else Fanout(admins[..|admins| - 1], a, u) + [MessageTo(admins[|admins| - 1], a, u)]
  }

  /** Message number `i` of the fan-out goes to admin number `i`. */
  lemma {:induction false} FanoutAt(admins: seq<User>, i: nat, a: Action, u: User)
    requires i < |admins|
    ensures Fanout(admins, a, u)[i] == MessageTo(admins[i], a, u)
  {
    var n := |admins| - 1;
    if i < n {
      FanoutAt(admins[..n], i, a, u);
    }
  }

  /** Extending the admin prefix by one admin appends exactly that admin's message. */
  lemma FanoutStep(admins: seq<User>, i: nat, a: Action, u: User)
    requires i < |admins|
    ensures Fanout(admins[..i + 1], a, u) == Fanout(admins[..i], a, u) + [MessageTo(admins[i], a, u)]
  {
    assert admins[..i + 1][..i] == admins[..i];
  }

  /** Filtering distributes over concatenation: the admin list keeps the listing order. */
  lemma {:induction false} AdminsAppend(xs: seq<User>, ys: seq<User>)
    ensures Admins(xs + ys) == Admins(xs) + Admins(ys)
  {
    if xs == [] {
      assert xs + ys == ys;
    } else {
      assert (xs + ys)[1..] == xs[1..] + ys;
      AdminsAppend(xs[1..], ys);
    }
  }

  /**
   * The admin at position `k` of the listing is the admin list's element
   * number `|Admins(all[..k])|`, so it receives the message of that index.
   */
  lemma AdminPosition(all: seq<User>, k: nat)
    requires k < |all| && all[k].role == ADMIN
    ensures |Admins(all[..k])| < |Admins(all)|
    ensures Admins(all)[|Admins(all[..k])|] == all[k]
  {
    assert all == all[..k] + ([all[k]] + all[k + 1..]);
    AdminsAppend(all[..k], [all[k]] + all[k + 1..]);
    assert Admins([all[k]] + all[k + 1..]) == [all[k]] + Admins(all[k + 1..]) by {
      assert ([all[k]] + all[k + 1..])[1..] == all[k + 1..];
    }
  }

  /** Two admins at different positions receive messages of different indices. */
  lemma AdminPositionsDistinct(all: seq<User>, k1: nat, k2: nat)
    requires k1 < k2 <= |all| && all[k1].role == ADMIN
    ensures |Admins(all[..k1])| < |Admins(all[..k2])|
  {
    var prefix := all[..k2];
    assert prefix[..k1] == all[..k1];
    AdminPosition(prefix, k1);
  }

  /** The admin list of a listing that starts with `x`. */
  lemma AdminsCons(x: User, rest: seq<User>)
    ensures Admins([x] + rest) == (if x.role == ADMIN then [x] + Admins(rest) else Admins(rest))
  {
  }

  /** Every message index belongs to an admin position `k` of the listing. */
  lemma {:induction false} EveryMessageHasAdmin(all: seq<User>, j: nat) returns (k: nat)
    requires j < |Admins(all)|
    ensures k < |all| && all[k].role == ADMIN
    ensures |Admins(all[..k])| == j && Admins(all)[j] == all[k]
  {
    var x, rest := all[0], all[1..];
    assert all == [x] + rest;
    AdminsCons(x, rest);
    if x.role == ADMIN && j == 0 {
      k := 0;
      assert all[..0] == [];
    } else {
      var j' := if x.role == ADMIN then j - 1 else j;
      var k' := EveryMessageHasAdmin(rest, j');
      k := k' + 1;
      assert all[..k] == [x] + rest[..k'];
      AdminsCons(x, rest[..k']);
    }
  }

  /** Each admin of the listing gets its message, at the index its position gives. */
  lemma FanoutReachesAdmin(all: seq<User>, k: nat, a: Action, u: User)
    requires k < |all| && all[k].role == ADMIN
    ensures |Admins(all[..k])| < |Fanout(Admins(all), a, u)|
    ensures Fanout(Admins(all), a, u)[|Admins(all[..k])|] == MessageTo(all[k], a, u)
  {
    AdminPosition(all, k);
    FanoutAt(Admins(all), |Admins(all[..k])|, a, u);
  }

  /** With no admin in the listing, the fan-out sends nothing. */
  lemma NoAdminNoMessage(all: seq<User>, a: Action, u: User)
    requires forall x :: x in all ==> x.role != ADMIN
    ensures Fanout(Admins(all), a, u) == []
  {
  }

  /** The subject names the action and the account's username unambiguously. */
  lemma SubjectIdentifiesEvent(a1: Action, u1: User, a2: Action, u2: User)
    requires Subject(a1, u1) == Subject(a2, u2)
    ensures a1 == a2 && u1.username == u2.username
  {
    var s1, s2 := Subject(a1, u1), Subject(a2, u2);
    assert s1[..7] == ActionName(a1) && s2[..7] == ActionName(a2);
    assert s1[13..] == u1.username && s2[13..] == u2.username;
    match a1
    case Created => assert ActionName(a2) == "Created";
    case Updated => assert ActionName(a2) == "Updated";
    case Deleted => assert ActionName(a2) == "Deleted";
  }

  /**
   * The body carries the account's stored password hash at a fixed offset
   * after the username: every admin learns the hash.
   */
  lemma TextRevealsHash(a: Action, u: User)
    ensures var k := |ActionName(a) + " user with username - " + u.username + ", password - "|;
      k + |u.password| <= |Text(a, u)| && Text(a, u)[k..k + |u.password|] == u.password
  {
  }
}
