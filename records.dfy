/** The rows of the hosted tables `users`, `invite_links` and
    `tier_requirements`, the in-memory store that stands for them, and the
    query shapes the components use: an equality filter, `.single()` and
    `Array.prototype.find` over tier requirements. */
module Records {
  import opened Wrappers

  /** A row of `users`.  `passwordHash` holds the encoded password;
      `invitedBy` is the id of the inviting user, if any. */
  datatype User = User(
    id: nat,
    username: string,
    passwordHash: string,
    ipAddress: string,
    invitedBy: Option<nat>,
    currentTier: int,
    totalInvites: int)

  /** A row of `invite_links`: the invite code owned by user `userId`. */
  datatype InviteLink = InviteLink(id: nat, userId: nat, inviteCode: string)

  /** A row of `tier_requirements`. */
  datatype TierRequirement = TierRequirement(
    tier: int,
    contentDescription: string,
    priceUsd: real,
    requiredInvites: int)

  // ---------------------------------------------------------------------
  // queries

  /** The rows satisfying `p`, in their stored order (`.eq(column, value)`). */
  function Filter<T(!new)>(rows: seq<T>, p: T -> bool): (r: seq<T>)
    ensures |r| <= |rows|
    ensures forall x :: x in r <==> x in rows && p(x)
  {
    if rows == [] then []
    else if p(rows[0]) then [rows[0]] + Filter(rows[1..], p)
    else Filter(rows[1..], p)
  }

  /** Nothing passes a filter that no row satisfies. */
  lemma {:induction false} FilterNone<T(!new)>(rows: seq<T>, p: T -> bool)
    requires forall x :: x in rows ==> !p(x)
    ensures Filter(rows, p) == []
  {
    if rows != [] {
      assert rows[0] in rows;
      FilterNone(rows[1..], p);
    }
  }

  /** `.single()`: the row when exactly one matched, no data otherwise. */
  function SingleRow<T>(rows: seq<T>): Option<T> {
    if |rows| == 1 then Some(rows[0]) else None
  }

  /** No two rows both satisfy `p`. */
  ghost predicate AtMostOne<T(!new)>(rows: seq<T>, p: T -> bool) {
    forall i, j :: 0 <= i < j < |rows| && p(rows[i]) ==> !p(rows[j])
  }

  /** When at most one row can match, `.single()` finds a row exactly when
      some row matches, and the row it finds is a matching stored row. */
  lemma {:induction false} SingleIffExists<T(!new)>(rows: seq<T>, p: T -> bool)
    requires AtMostOne(rows, p)
    ensures SingleRow(Filter(rows, p)).Some? <==> exists x :: x in rows && p(x)
    ensures SingleRow(Filter(rows, p)).Some? ==>
              SingleRow(Filter(rows, p)).value in rows && p(SingleRow(Filter(rows, p)).value)
  {
    if rows != [] {
      var rest := rows[1..];
      assert AtMostOne(rest, p) by {
        forall i, j | 0 <= i < j < |rest| && p(rest[i]) ensures !p(rest[j]) {
          assert rest[i] == rows[i + 1] && rest[j] == rows[j + 1];
        }
      }
      SingleIffExists(rest, p);
      if p(rows[0]) {
        assert forall x :: x in rest ==> !p(x) by {
          forall x | x in rest ensures !p(x) {
            var j :| 0 <= j < |rest| && rest[j] == x;
            assert rows[j + 1] == x;
          }
        }
        FilterNone(rest, p);
        assert Filter(rows, p) == [rows[0]];
      } else {
        assert forall x :: x in rows && p(x) ==> x in rest by {
          forall x | x in rows && p(x) ensures x in rest {
            var j :| 0 <= j < |rows| && rows[j] == x;
            assert j != 0;
            assert rest[j - 1] == x;
          }
        }
      }
    }
  }

  /** `tierRequirements.find(t => t.tier === n)`: the first requirement for tier `n`. */
  function FindTier(reqs: seq<TierRequirement>, n: int): (r: Option<TierRequirement>)
    ensures r.None? <==> forall i :: 0 <= i < |reqs| ==> reqs[i].tier != n
    ensures r.Some? ==> exists i :: 0 <= i < |reqs| && reqs[i] == r.value && r.value.tier == n &&
                          forall j :: 0 <= j < i ==> reqs[j].tier != n
  {
    if reqs == [] then None
    else if reqs[0].tier == n then Some(reqs[0])
    else
      var r := FindTier(reqs[1..], n);
      assert forall i :: 1 <= i < |reqs| ==> reqs[i] == reqs[1..][i - 1];
      r
  }

  /** A user holds tier `tier` when their current tier is at least that number. */
  predicate Unlocked(user: User, tier: int) {
    user.currentTier >= tier
  }

  /** Unlocking is monotone: holding a tier means holding every lower one. */
  lemma UnlockedDownward(user: User, t: int, t': int)
    requires Unlocked(user, t) && t' <= t
    ensures Unlocked(user, t')
  {
  }

  /** Only the current tier matters, never the invite count. */
  lemma UnlockedIgnoresInvites(u: User, v: User, tier: int)
    requires u.currentTier == v.currentTier
    ensures Unlocked(u, tier) == Unlocked(v, tier)
  {
  }

  // ---------------------------------------------------------------------
  // the store

  /** The store's tables as one value. */
  datatype Tables = Tables(users: seq<User>, inviteLinks: seq<InviteLink>, nextId: nat)

  predicate SameIp(ip: string, u: User) { u.ipAddress == ip }
  predicate SameName(name: string, u: User) { u.username == name }
  predicate HasCode(code: string, l: InviteLink) { l.inviteCode == code }
  predicate OwnedBy(userId: nat, l: InviteLink) { l.userId == userId }

  function UsersWithIp(users: seq<User>, ip: string): seq<User> {
    Filter(users, (u: User) => SameIp(ip, u))
  }

  function UsersNamed(users: seq<User>, name: string): seq<User> {
    Filter(users, (u: User) => SameName(name, u))
  }

  function LinksWithCode(links: seq<InviteLink>, code: string): seq<InviteLink> {
    Filter(links, (l: InviteLink) => HasCode(code, l))
  }

  function LinksOf(links: seq<InviteLink>, userId: nat): seq<InviteLink> {
    Filter(links, (l: InviteLink) => OwnedBy(userId, l))
  }

  /** Every id in the tables was handed out before `nextId`. */
  ghost predicate IdsIssued(t: Tables) {
    && (forall i :: 0 <= i < |t.users| ==> t.users[i].id < t.nextId)
    && (forall i :: 0 <= i < |t.inviteLinks| ==>
          t.inviteLinks[i].id < t.nextId && t.inviteLinks[i].userId < t.nextId)
  }

  /** The intended invariants: one account per IP address, unique usernames. */
  ghost predicate Unique(users: seq<User>) {
    forall i, j :: 0 <= i < j < |users| ==>
      users[i].ipAddress != users[j].ipAddress && users[i].username != users[j].username
  }

  /** The hosted store, replaced by in-memory tables.  Ids stand for the
      generated row ids: each insert takes the next unused number. */
  class Store {
    var users: seq<User>
    var inviteLinks: seq<InviteLink>
    var nextId: nat

    function Snapshot(): Tables
      reads this
    {
      Tables(users, inviteLinks, nextId)
    }

    ghost predicate Valid()
      reads this
    {
      IdsIssued(Snapshot())
    }

    constructor ()
      ensures Valid() && users == [] && inviteLinks == [] && nextId == 0
    {
      users, inviteLinks, nextId := [], [], 0;
    }

    /** `insert(...).select().single()` on `users`: one new row with a fresh id
        and the column defaults 0 for the tier and the invite count. */
    method InsertUser(username: string, passwordHash: string, ip: string, invitedBy: Option<nat>)
      returns (u: User)
      requires Valid()
      modifies this
      ensures Valid()
      ensures u == User(old(nextId), username, passwordHash, ip, invitedBy, 0, 0)
      ensures users == old(users) + [u] && inviteLinks == old(inviteLinks)
      ensures nextId == old(nextId) + 1
    {
      u := User(nextId, username, passwordHash, ip, invitedBy, 0, 0);
      users := users + [u];
      nextId := nextId + 1;
    }

    /** The remote procedure `create_user_invite_link`: one new invite link with
        the code the server mints (`code`) for user `userId`. */
    method CreateUserInviteLink(userId: nat, code: string)
      requires Valid() && userId < nextId
      modifies this
      ensures Valid()
      ensures inviteLinks == old(inviteLinks) + [InviteLink(old(nextId), userId, code)]
      ensures users == old(users) && nextId == old(nextId) + 1
    {
      inviteLinks := inviteLinks + [InviteLink(nextId, userId, code)];
      nextId := nextId + 1;
    }
  }
}
