/**
 * The persisted state behind the routes: the Users collection, keyed by
 * ObjectId, and the PointClaims collection, an append-only ledger in
 * insertion order. Route handlers read it through the query functions below
 * and change it through the methods of the route modules.
 */
module Db {
  import opened PointClaims
  import Ordering

  /** A stored user; `password` holds the hash, never the plain text. */
  datatype User = User(
    name: string,
    email: string,
    password: string,
    totalPoints: int,
    isActive: bool,
    createdAt: nat)

  /** A user document together with its id, as a query returns it. */
  datatype Account = Account(id: ObjectId, user: User)

  /** The `{id, name, points}` projection that claim, registration and update responses carry. */
  datatype UserSummary = UserSummary(id: ObjectId, name: string, points: int)

  /** An error response: HTTP status and the `error` message. */
  datatype HttpError = HttpError(status: int, message: string)

  /** Sort key of the leaderboard queries, `{totalPoints: -1}`. */
  function TotalPoints(a: Account): int {
    a.user.totalPoints
  }

  /** Sort key of the history queries, `{createdAt: -1}`. */
  function CreatedAt(c: PointClaim): int {
    c.createdAt
  }

  function AccountId(a: Account): int {
    a.id
  }

  /** `m` is the smallest id of `s`. */
  predicate IsMin(s: set<ObjectId>, m: ObjectId) {
    m in s && forall x :: x in s ==> m <= x
  }

  lemma {:induction false} MinExists(s: set<ObjectId>)
    requires s != {}
    ensures exists m :: IsMin(s, m)
  {
    var y :| y in s;
    if s != {y} {
      var t := s - {y};
      MinExists(t);
      var m :| IsMin(t, m);
      var least := if y < m then y else m;
      forall x | x in s ensures least <= x {
        if x != y { assert x in t; }
      }
      assert IsMin(s, least);
    } else {
      assert IsMin(s, y);
    }
  }

  /** The smallest id of a non-empty set. */
  function MinId(s: set<ObjectId>): (m: ObjectId)
    requires s != {}
    ensures m in s && forall x :: x in s ==> m <= x
  {
    MinExists(s);
    var m :| IsMin(s, m);
    m
  }

  /**
   * The ids of `s` in ascending order. Ids are allocated in increasing order,
   * so this is the natural (insertion) order in which a query without a sort
   * meets the documents.
   */
  function IdsInOrder(s: set<ObjectId>): (r: seq<ObjectId>)
    ensures |r| == |s|
    ensures forall x :: x in r <==> x in s
    ensures forall i, j :: 0 <= i < j < |r| ==> r[i] < r[j]
    decreases |s|
  {
    if s == {} then []
    else
      var m := MinId(s);
      var rest := IdsInOrder(s - {m});
      PrependMin(s, m, rest);
      [m] + rest
  }

  /** Putting the smallest id in front of the ascending rest gives `s` in ascending order. */
  lemma PrependMin(s: set<ObjectId>, m: ObjectId, rest: seq<ObjectId>)
    requires m in s && forall x :: x in s ==> m <= x
    requires |rest| == |s - {m}|
    requires forall x :: x in rest <==> x in s - {m}
    requires forall i, j :: 0 <= i < j < |rest| ==> rest[i] < rest[j]
    ensures var r := [m] + rest;
      && |r| == |s|
      && (forall x :: x in r <==> x in s)
      && (forall i, j :: 0 <= i < j < |r| ==> r[i] < r[j])
  {
    var r := [m] + rest;
    assert |s - {m}| == |s| - 1;
    forall j | 0 <= j < |rest| ensures m < rest[j] {
      assert rest[j] in rest;
      assert rest[j] in s - {m};
    }
    assert forall j :: 1 <= j < |r| ==> r[j] == rest[j - 1];
    forall x | x in s ensures x in r {
      if x != m {
        assert x in s - {m};
      }
    }
  }

  /** An id larger than every id in `s`. */
  function FreshId(s: set<ObjectId>): (n: ObjectId)
    ensures forall x :: x in s ==> x < n
  {
    var ids := IdsInOrder(s);
    if ids == [] then 0
    else
      assert forall x :: x in s ==> x in ids;
      ids[|ids| - 1] + 1
  }

  /** The active users among `ids`, in the order of `ids`. */
  function ActiveAmong(users: map<ObjectId, User>, ids: seq<ObjectId>): (r: seq<Account>)
    requires forall i :: 0 <= i < |ids| ==> ids[i] in users
    ensures forall i :: 0 <= i < |r| ==>
      r[i].id in ids && r[i].user == users[r[i].id] && r[i].user.isActive
  {
    if ids == [] then []
    else
      var rest := ActiveAmong(users, ids[1..]);
      if users[ids[0]].isActive then [Account(ids[0], users[ids[0]])] + rest else rest
  }

  /** No active user among `ids` is dropped. */
  lemma {:induction false} ActiveAmongComplete(users: map<ObjectId, User>, ids: seq<ObjectId>)
    requires forall i :: 0 <= i < |ids| ==> ids[i] in users
    ensures forall i :: 0 <= i < |ids| && users[ids[i]].isActive ==> Account(ids[i], users[ids[i]]) in ActiveAmong(users, ids)
  {
    if ids != [] {
      ActiveAmongComplete(users, ids[1..]);
      forall i | 1 <= i < |ids| ensures ids[i] == ids[1..][i - 1] { }
    }
  }

  /** Filtering ascending ids leaves the accounts in ascending id order. */
  lemma {:induction false} ActiveAmongOrdered(users: map<ObjectId, User>, ids: seq<ObjectId>)
    requires forall i :: 0 <= i < |ids| ==> ids[i] in users
    requires forall i, j :: 0 <= i < j < |ids| ==> ids[i] < ids[j]
    ensures Ordering.StrictlyIncreasing(ActiveAmong(users, ids), AccountId)
  {
    if ids != [] {
      var rest := ActiveAmong(users, ids[1..]);
      ActiveAmongOrdered(users, ids[1..]);
      if users[ids[0]].isActive {
        forall i | 0 <= i < |rest| ensures ids[0] < rest[i].id {
          var k :| 0 <= k < |ids[1..]| && ids[1..][k] == rest[i].id;
          assert ids[1 + k] == rest[i].id;
        }
        Ordering.PrependKeepsIncreasing(Account(ids[0], users[ids[0]]), rest, AccountId);
      }
    }
  }

  /** `User.find({isActive: true})` before any sort: the active users in natural order. */
  function ActiveAccounts(users: map<ObjectId, User>): (r: seq<Account>)
    ensures forall i :: 0 <= i < |r| ==> r[i].id in users && r[i].user == users[r[i].id] && r[i].user.isActive
  {
    ActiveAmong(users, IdsInOrder(users.Keys))
  }

  /** Every active user is found exactly once, in ascending id order. */
  lemma ActiveAccountsSelects(users: map<ObjectId, User>)
    ensures forall id :: id in users && users[id].isActive ==> Account(id, users[id]) in ActiveAccounts(users)
    ensures Ordering.StrictlyIncreasing(ActiveAccounts(users), AccountId)
  {
    var ids := IdsInOrder(users.Keys);
    ActiveAmongComplete(users, ids);
    ActiveAmongOrdered(users, ids);
    forall id | id in users && users[id].isActive
      ensures Account(id, users[id]) in ActiveAccounts(users)
    {
      var k :| 0 <= k < |ids| && ids[k] == id;
    }
  }

  /** The ids of the active users, as `User.countDocuments({isActive: true})` counts them. */
  ghost function ActiveIds(users: map<ObjectId, User>): set<ObjectId> {
    set id | id in users && users[id].isActive
  }

  /** A strictly increasing sequence of ids has as many elements as its set of ids. */
  lemma {:induction false} IncreasingIdsCount(s: seq<Account>)
    requires Ordering.StrictlyIncreasing(s, AccountId)
    ensures |set i | 0 <= i < |s| :: s[i].id| == |s|
  {
    if s != [] {
      var rest := s[1..];
      IncreasingIdsCount(rest);
      var ids := set i | 0 <= i < |s| :: s[i].id;
      var restIds := set i | 0 <= i < |rest| :: rest[i].id;
      assert ids == {s[0].id} + restIds by {
        forall x | x in ids ensures x in {s[0].id} + restIds {
          var i :| 0 <= i < |s| && s[i].id == x;
          if i > 0 { assert rest[i - 1].id == x; }
        }
      }
      assert s[0].id !in restIds;
    }
  }

  /**
   * A sequence holding only active users, with their stored data, and holding
   * every active user has exactly the active ids as its ids.
   */
  lemma IdsOfActiveSelection(users: map<ObjectId, User>, a: seq<Account>)
    requires forall i :: 0 <= i < |a| ==> a[i].id in users && a[i].user == users[a[i].id] && a[i].user.isActive
    requires forall id :: id in users && users[id].isActive ==> Account(id, users[id]) in a
    ensures (set i | 0 <= i < |a| :: a[i].id) == ActiveIds(users)
  {
    var ids := set i | 0 <= i < |a| :: a[i].id;
    forall id | id in ActiveIds(users) ensures id in ids {
      assert Account(id, users[id]) in a;
      var i :| 0 <= i < |a| && a[i] == Account(id, users[id]);
      assert a[i].id == id;
    }
    forall id | id in ids ensures id in ActiveIds(users) {
      var i :| 0 <= i < |a| && a[i].id == id;
    }
  }

  /** The ids the active query returns are the active ids. */
  lemma ActiveQueryIds(users: map<ObjectId, User>)
    ensures (set i | 0 <= i < |ActiveAccounts(users)| :: ActiveAccounts(users)[i].id) == ActiveIds(users)
  {
    ActiveAccountsSelects(users);
    IdsOfActiveSelection(users, ActiveAccounts(users));
  }

  /** Counting the active users directly agrees with the length of the active query. */
  lemma ActiveCount(users: map<ObjectId, User>)
    ensures |ActiveAccounts(users)| == |ActiveIds(users)|
  {
    ActiveAccountsSelects(users);
    IncreasingIdsCount(ActiveAccounts(users));
    ActiveQueryIds(users);
  }

  /** `User.find({isActive: true}).sort({totalPoints: -1})`: the active users, highest total first. */
  function Leaders(users: map<ObjectId, User>): (r: seq<Account>)
    ensures multiset(r) == multiset(ActiveAccounts(users))
    ensures Ordering.NonIncreasing(r, TotalPoints)
  {
    Ordering.SortDesc(ActiveAccounts(users), TotalPoints)
  }

  /** The ranked users are exactly the active ones. */
  lemma LeadersAreTheActiveUsers(users: map<ObjectId, User>)
    ensures forall k :: 0 <= k < |Leaders(users)| ==>
      Leaders(users)[k].id in users && users[Leaders(users)[k].id] == Leaders(users)[k].user &&
      Leaders(users)[k].user.isActive
    ensures forall id :: id in users && users[id].isActive ==> Account(id, users[id]) in Leaders(users)
    ensures |Leaders(users)| == |ActiveIds(users)|
  {
    var r := Leaders(users);
    var a := ActiveAccounts(users);
    ActiveAccountsSelects(users);
    ActiveCount(users);
    forall k | 0 <= k < |r| ensures r[k] in a {
      assert r[k] in multiset(a);
    }
    forall id | id in users && users[id].isActive ensures Account(id, users[id]) in r {
      assert Account(id, users[id]) in multiset(r);
    }
    assert |r| == |multiset(r)| == |multiset(a)| == |a|;
  }

  /**
   * In a non-increasing sequence that holds every active user, no active
   * user's total exceeds that of the first element.
   */
  lemma HeadOutranksActive(users: map<ObjectId, User>, r: seq<Account>)
    requires r != [] && Ordering.NonIncreasing(r, TotalPoints)
    requires forall id :: id in users && users[id].isActive ==> Account(id, users[id]) in r
    ensures forall id :: id in users && users[id].isActive ==> users[id].totalPoints <= r[0].user.totalPoints
  {
    forall id | id in users && users[id].isActive
      ensures users[id].totalPoints <= r[0].user.totalPoints
    {
      var k :| 0 <= k < |r| && r[k] == Account(id, users[id]);
      assert TotalPoints(r[0]) >= TotalPoints(r[k]);
    }
  }

  /** The first of the ranked users is an active user whose total no active user exceeds. */
  lemma FirstLeaderIsTop(users: map<ObjectId, User>)
    requires Leaders(users) != []
    ensures Leaders(users)[0].id in users && users[Leaders(users)[0].id] == Leaders(users)[0].user
    ensures Leaders(users)[0].user.isActive
    ensures forall id :: id in users && users[id].isActive ==> users[id].totalPoints <= Leaders(users)[0].user.totalPoints
  {
    LeadersAreTheActiveUsers(users);
    HeadOutranksActive(users, Leaders(users));
  }

  /** The ledger entries that target `id`, in ledger order: `PointClaim.find({userId})`. */
  function ForUser(ledger: seq<PointClaim>, id: ObjectId): (r: seq<PointClaim>)
    ensures |r| <= |ledger|
    ensures forall i :: 0 <= i < |r| ==> r[i].userId == id
  {
    if ledger == [] then []
    else
      var last := ledger[|ledger| - 1];
      var prefix := ForUser(ledger[..|ledger| - 1], id);
      if last.userId == id then prefix + [last] else prefix
  }

  /** `ForUser` keeps exactly the entries targeting `id`, none invented and none lost. */
  lemma {:induction false} ForUserSelects(ledger: seq<PointClaim>, id: ObjectId)
    ensures multiset(ForUser(ledger, id)) <= multiset(ledger)
    ensures forall c :: c in ledger && c.userId == id ==> c in ForUser(ledger, id)
  {
    if ledger != [] {
      var init := ledger[..|ledger| - 1];
      var last := ledger[|ledger| - 1];
      ForUserSelects(init, id);
      assert ledger == init + [last];
      assert multiset(ledger) == multiset(init) + multiset{last};
    }
  }

  /** An entry selected for `id` is a ledger entry that targets `id`. */
  lemma SelectedIsInLedger(ledger: seq<PointClaim>, id: ObjectId, c: PointClaim)
    requires c in ForUser(ledger, id)
    ensures c in ledger && c.userId == id
  {
    ForUserSelects(ledger, id);
    assert c in multiset(ForUser(ledger, id));
  }

  /** Selecting by target keeps the ledger's creation order. */
  lemma {:induction false} ForUserKeepsOrder(ledger: seq<PointClaim>, id: ObjectId)
    requires Ordering.StrictlyIncreasing(ledger, CreatedAt)
    ensures Ordering.StrictlyIncreasing(ForUser(ledger, id), CreatedAt)
  {
    if ledger != [] {
      var init := ledger[..|ledger| - 1];
      var last := ledger[|ledger| - 1];
      var prefix := ForUser(init, id);
      ForUserKeepsOrder(init, id);
      ForUserSelects(init, id);
      if last.userId == id {
        forall i | 0 <= i < |prefix| ensures CreatedAt(prefix[i]) < CreatedAt(last) {
          assert prefix[i] in multiset(init);
          var k :| 0 <= k < |init| && init[k] == prefix[i];
          assert ledger[k] == init[k];
        }
        Ordering.AppendKeepsIncreasing(prefix, last, CreatedAt);
      }
    }
  }

  /** The sum of the points of the ledger entries targeting `id`. */
  function PointsFor(ledger: seq<PointClaim>, id: ObjectId): int {
    if ledger == [] then 0
    else
      var last := ledger[|ledger| - 1];
      PointsFor(ledger[..|ledger| - 1], id) + (if last.userId == id then last.points else 0)
  }

  /** The sum of all ledger points, the `$sum: '$points'` aggregate (0 on an empty ledger). */
  function Awarded(ledger: seq<PointClaim>): int {
    if ledger == [] then 0
    else Awarded(ledger[..|ledger| - 1]) + ledger[|ledger| - 1].points
  }

  /** Appending one claim adds its points to its target's sum and to no one else's. */
  lemma PointsForAppend(ledger: seq<PointClaim>, c: PointClaim, id: ObjectId)
    ensures PointsFor(ledger + [c], id) == PointsFor(ledger, id) + (if c.userId == id then c.points else 0)
    ensures Awarded(ledger + [c]) == Awarded(ledger) + c.points
  {
    assert (ledger + [c])[..|ledger|] == ledger;
  }

  /** A user's ledger sum is the total of that user's own claims, the ones the scoped history lists. */
  lemma {:induction false} PointsForIsAwardedToUser(ledger: seq<PointClaim>, id: ObjectId)
    ensures PointsFor(ledger, id) == Awarded(ForUser(ledger, id))
  {
    if ledger != [] {
      var init := ledger[..|ledger| - 1];
      var last := ledger[|ledger| - 1];
      PointsForIsAwardedToUser(init, id);
      if last.userId == id {
        PointsForAppend(ForUser(init, id), last, id);
      }
    }
  }

  /** A user no claim targets has a ledger sum of zero. */
  lemma {:induction false} PointsForUntargeted(ledger: seq<PointClaim>, id: ObjectId)
    requires forall i :: 0 <= i < |ledger| ==> ledger[i].userId != id
    ensures PointsFor(ledger, id) == 0
  {
    if ledger != [] {
      PointsForUntargeted(ledger[..|ledger| - 1], id);
    }
  }

  /** With every claim inside the schema's range, the total lies between 1 and 10 per claim. */
  lemma {:induction false} AwardedBounds(ledger: seq<PointClaim>)
    requires forall i :: 0 <= i < |ledger| ==> ValidClaim(ledger[i])
    ensures MinPoints * |ledger| <= Awarded(ledger) <= MaxPoints * |ledger|
  {
    if ledger != [] {
      AwardedBounds(ledger[..|ledger| - 1]);
      assert ValidClaim(ledger[|ledger| - 1]);
    }
  }

  /** Each user's current total, by id: the base totals of a store opened on `users`. */
  ghost function Totals(users: map<ObjectId, User>): (b: map<ObjectId, int>)
    ensures b.Keys == users.Keys
    ensures forall id :: id in users ==> b[id] == users[id].totalPoints
  {
    map id | id in users :: users[id].totalPoints
  }

  /** Before any claim, every user's total is its own base. */
  lemma EmptyLedgerBalances(initial: map<ObjectId, User>)
    ensures Balanced(initial, Totals(initial), [])
  {
  }

  /**
   * Ids are below the next id to hand out, every claim targets a stored user,
   * is valid and is older than the clock, and the ledger is in creation order.
   */
  ghost predicate WellFormed(users: map<ObjectId, User>, ledger: seq<PointClaim>, clock: nat, nextId: ObjectId) {
    && (forall id :: id in users ==> id < nextId)
    && (forall i :: 0 <= i < |ledger| ==>
          ledger[i].userId in users && ValidClaim(ledger[i]) &&
          ledger[i].createdAt < clock && ledger[i].id < nextId)
    && Ordering.StrictlyIncreasing(ledger, CreatedAt)
  }

  /** Every user's total is its base total plus the points of the claims targeting it. */
  ghost predicate Balanced(users: map<ObjectId, User>, base: map<ObjectId, int>, ledger: seq<PointClaim>) {
    && base.Keys == users.Keys
    && forall id :: id in users ==> users[id].totalPoints == base[id] + PointsFor(ledger, id)
  }

  /** No two users share a name or an email. */
  ghost predicate DistinctAccounts(users: map<ObjectId, User>) {
    forall a, b :: a in users && b in users && a != b ==>
      users[a].name != users[b].name && users[a].email != users[b].email
  }

  /**
   * Registering `u` at the next id, with a base total equal to its total,
   * when no claim targets that id and nobody has its name or email: the
   * store stays well formed, balanced if it was, and with distinct accounts
   * if it had them.
   */
  lemma RegisterKeepsInvariants(users: map<ObjectId, User>, base: map<ObjectId, int>, ledger: seq<PointClaim>,
                                clock: nat, nextId: ObjectId, u: User)
    requires WellFormed(users, ledger, clock, nextId)
    requires forall k :: k in users ==> users[k].name != u.name && users[k].email != u.email
    ensures nextId !in users
    ensures WellFormed(users[nextId := u], ledger, clock + 1, nextId + 1)
    ensures Balanced(users, base, ledger) ==> Balanced(users[nextId := u], base[nextId := u.totalPoints], ledger)
    ensures DistinctAccounts(users) ==> DistinctAccounts(users[nextId := u])
  {
    assert forall i :: 0 <= i < |ledger| ==> ledger[i].userId != nextId;
    PointsForUntargeted(ledger, nextId);
  }

  /**
   * Appending the valid claim `c`, stamped with the current clock and the
   * next id, and adding its points to its target's total: the store stays
   * well formed, balanced if it was, and with distinct accounts if it had
   * them.
   */
  lemma AwardKeepsInvariants(users: map<ObjectId, User>, base: map<ObjectId, int>, ledger: seq<PointClaim>,
                             clock: nat, nextId: ObjectId, c: PointClaim)
    requires WellFormed(users, ledger, clock, nextId)
    requires c.userId in users && ValidClaim(c) && c.createdAt == clock && c.id == nextId
    ensures var t := users[c.userId];
      var after := users[c.userId := t.(totalPoints := t.totalPoints + c.points)];
      && WellFormed(after, ledger + [c], clock + 1, nextId + 1)
      && (Balanced(users, base, ledger) ==> Balanced(after, base, ledger + [c]))
      && (DistinctAccounts(users) ==> DistinctAccounts(after))
  {
    var t := users[c.userId];
    var after := users[c.userId := t.(totalPoints := t.totalPoints + c.points)];
    var longer := ledger + [c];
    assert forall i :: 0 <= i < |ledger| ==> longer[i] == ledger[i];
    forall id | id in after ensures PointsFor(longer, id) == PointsFor(ledger, id) + (if id == c.userId then c.points else 0) {
      PointsForAppend(ledger, c, id);
    }
  }

  /** The two collections, with the counters that stand in for the clock and the ObjectId generator. */
  class Store {
    var users: map<ObjectId, User>
    var ledger: seq<PointClaim>
    /** The next timestamp; every write takes the current value and advances it. */
    var clock: nat
    /** The next ObjectId to hand out. */
    var nextId: ObjectId
    /** Each user's total before any claim in the ledger was applied. */
    ghost var base: map<ObjectId, int>

    // The three predicates below are the store's invariants read off its
    // fields. Each is stated once, on plain values, by the module-level
    // predicate it calls, so that the lemmas about registration and awards
    // (`RegisterKeepsInvariants`, `AwardKeepsInvariants`) can reason about the
    // next state before the fields are assigned.

    /**
     * Referential integrity and the shape of the ledger: every claim targets
     * a stored user, lies in the schema's range, was stamped by the clock,
     * and the ledger is in strictly increasing creation order.
     */
    ghost predicate Valid()
      reads this
    {
      WellFormed(users, ledger, clock, nextId)
    }

    /** Every user's total is its base total plus the points of the claims targeting it. */
    ghost predicate Consistent()
      reads this
    {
      Balanced(users, base, ledger)
    }

    /** No two users share a name or an email. */
    ghost predicate UniqueAccounts()
      reads this
    {
      DistinctAccounts(users)
    }

    /** A store holding the users `initial` and an empty ledger, with the clock at `now`. */
    constructor (initial: map<ObjectId, User>, now: nat)
      ensures Valid() && Consistent()
      ensures users == initial && ledger == [] && clock == now
      ensures base == Totals(initial)
    {
      users := initial;
      ledger := [];
      clock := now;
      nextId := FreshId(initial.Keys);
      base := Totals(initial);
      new;
      EmptyLedgerBalances(initial);
    }
  }
}
