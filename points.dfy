/**
 * The points routes (server/routes/points.js): claiming an award for a
 * user, the global and per-user claim history with pagination, and the
 * leaderboard statistics.
 */
module PointsRoutes {
  import opened Wrappers
  import opened PointClaims
  import opened Db
  import Ordering

  /** The authenticated actor that the auth middleware attaches to the request. */
  datatype Actor = Actor(id: ObjectId, name: string)

  /** The `claim` object of a claim response. */
  datatype ClaimView = ClaimView(id: ObjectId, points: int, userName: string, claimedBy: string, timestamp: nat)

  datatype ClaimResponse = ClaimResponse(message: string, claim: ClaimView, user: UserSummary)

  const ClaimSucceeded: string := "Points claimed successfully"

  /**
   * `Math.floor(Math.random() * 10) + 1`, with the random draw `random` taken
   * from [0, 1): always a whole number of points from 1 to 10.
   */
  function DrawPoints(random: real): (p: int)
    requires 0.0 <= random < 1.0
    ensures MinPoints <= p <= MaxPoints
  {
    (random * 10.0).Floor + 1
  }

  /**
   * Each award `p` is drawn exactly when the random value falls in
   * [(p-1)/10, p/10): ten intervals of equal width, so a uniform draw makes
   * every award equally likely.
   */
  lemma DrawnExactlyOnItsInterval(random: real, p: int)
    requires 0.0 <= random < 1.0
    requires MinPoints <= p <= MaxPoints
    ensures DrawPoints(random) == p <==> (p - 1) as real / 10.0 <= random < p as real / 10.0
  {
    var f := (random * 10.0).Floor;
    assert f as real <= random * 10.0 < f as real + 1.0;
    assert (p - 1) as real / 10.0 <= random < p as real / 10.0 <==> (p - 1) as real <= random * 10.0 < p as real;
  }

  /** The description a claim handler stores: "Points claimed by " and the actor's name. */
  function ClaimDescription(actorName: string): string {
    "Points claimed by " + actorName
  }

  /** The draft a successful claim hands to the schema is always accepted. */
  lemma ClaimDraftAccepted(target: ObjectId, actor: Actor, p: int, id: ObjectId, now: nat)
    requires MinPoints <= p <= MaxPoints
    ensures Create(Draft(Some(target), Some(p), Some(actor.id), Some(ClaimDescription(actor.name))), id, now)
         == Ok(PointClaim(id, target, p, actor.id, ClaimDescription(actor.name), now, now))
  {
  }

  /**
   * POST /claim. A missing `userId` is refused with 400 and an unknown one
   * with 404, both changing nothing. Otherwise the drawn award is recorded as
   * one new ledger entry for the target, claimed by the actor, and added to
   * the target's total, and the response reports the claim and the new total.
   */
  method Claim(store: Store, actor: Actor, userId: Option<ObjectId>, random: real)
    returns (r: Result<ClaimResponse, HttpError>)
    requires store.Valid()
    requires 0.0 <= random < 1.0
    modifies store
    ensures store.Valid()
    ensures store.base == old(store.base)
    ensures old(store.Consistent()) ==> store.Consistent()
    ensures old(store.UniqueAccounts()) ==> store.UniqueAccounts()
    ensures userId.None? ==> r == Err(HttpError(400, "User ID is required")) && unchanged(store)
    ensures userId.Some? && userId.value !in old(store.users) ==>
      r == Err(HttpError(404, "User not found")) && unchanged(store)
    ensures userId.Some? && userId.value in old(store.users) ==>
      var id, p := userId.value, DrawPoints(random);
      var target := old(store.users)[id];
      var c := PointClaim(old(store.nextId), id, p, actor.id, ClaimDescription(actor.name),
                          old(store.clock), old(store.clock));
      && store.ledger == old(store.ledger) + [c]
      && store.users == old(store.users)[id := target.(totalPoints := target.totalPoints + p)]
      && store.clock == old(store.clock) + 1
      && store.nextId == old(store.nextId) + 1
      && r == Ok(ClaimResponse(ClaimSucceeded,
                               ClaimView(c.id, p, target.name, actor.name, c.createdAt),
                               UserSummary(id, target.name, target.totalPoints + p)))
    ensures r.Ok? ==> MinPoints <= r.value.claim.points <= MaxPoints
    ensures r.Ok? ==> r.value.user.points == old(store.users)[userId.value].totalPoints + r.value.claim.points
  {
    if userId.None? {
      return Err(HttpError(400, "User ID is required"));
    }
    var id := userId.value;
    if id !in store.users {
      return Err(HttpError(404, "User not found"));
    }
    var target := store.users[id];
    var points := DrawPoints(random);
    var draft := Draft(Some(id), Some(points), Some(actor.id), Some(ClaimDescription(actor.name)));
    var saved := Create(draft, store.nextId, store.clock);
    var claim := saved.value;

    SaveAward(store, claim);
    var updated := store.users[id];
    r := Ok(ClaimResponse(ClaimSucceeded,
                          ClaimView(claim.id, points, updated.name, actor.name, claim.createdAt),
                          UserSummary(id, updated.name, updated.totalPoints)));
  }

  /**
   * `pointClaim.save()` followed by the atomic increment
   * `User.findByIdAndUpdate(userId, {$inc: {totalPoints: points}})`: the
   * claim, stamped with the clock and the next id, is appended to the ledger
   * and its points are added to its target's total. The two writes are one
   * step here and share one tick of the clock.
   */
  method SaveAward(store: Store, claim: PointClaim)
    requires store.Valid()
    requires claim.userId in store.users && ValidClaim(claim)
    requires claim.createdAt == store.clock && claim.id == store.nextId
    modifies store
    ensures store.Valid()
    ensures old(store.Consistent()) ==> store.Consistent()
    ensures old(store.UniqueAccounts()) ==> store.UniqueAccounts()
    ensures var t := old(store.users)[claim.userId];
      store.users == old(store.users)[claim.userId := t.(totalPoints := t.totalPoints + claim.points)]
    ensures store.ledger == old(store.ledger) + [claim]
    ensures store.base == old(store.base)
    ensures store.clock == old(store.clock) + 1 && store.nextId == old(store.nextId) + 1
  {
    AwardKeepsInvariants(store.users, store.base, store.ledger, store.clock, store.nextId, claim);
    var t := store.users[claim.userId];
    store.users, store.ledger, store.clock, store.nextId :=
      store.users[claim.userId := t.(totalPoints := t.totalPoints + claim.points)],
      store.ledger + [claim], store.clock + 1, store.nextId + 1;
  }

  // ---------------------------------------------------------------- history

  /** The defaults of the `limit` and `page` query parameters. */
  const HistoryLimit: int := 50
  const UserHistoryLimit: int := 20
  const FirstPage: int := 1

  datatype Pagination = Pagination(current: int, total: int, hasNext: bool, hasPrev: bool)

  datatype HistoryPage<E> = HistoryPage(history: seq<E>, pagination: Pagination)

  /** An entry of GET /history, with the target's and the actor's names resolved. */
  datatype HistoryEntry = HistoryEntry(id: ObjectId, userName: Option<string>, points: int,
                                       claimedBy: Option<string>, timestamp: nat, description: string)

  /** An entry of GET /history/:userId, where the target is implied. */
  datatype UserHistoryEntry = UserHistoryEntry(id: ObjectId, points: int, claimedBy: Option<string>,
                                               timestamp: nat, description: string)

  /** `populate(..., 'name')`: the referenced user's name, when that user exists. */
  function NameOf(users: map<ObjectId, User>, id: ObjectId): (r: Option<string>)
    ensures r.Some? <==> id in users
    ensures r.Some? ==> r.value == users[id].name
  {
    if id in users then Some(users[id].name) else None
  }

  /** `Math.ceil(count / limit)`: the number of pages of `limit` entries that `count` entries fill. */
  function PageCount(count: nat, limit: int): (q: nat)
    requires limit >= 1
  {
    (count + limit - 1) / limit
  }

  /** The page count is the ceiling of `count / limit`: the least `q` with `count <= q * limit`. */
  lemma PageCountIsCeiling(count: nat, limit: int)
    requires limit >= 1
    ensures var q := PageCount(count, limit);
      count <= q * limit && (q == 0 || (q - 1) * limit < count)
  {
    var q := PageCount(count, limit);
    assert count + limit - 1 == q * limit + (count + limit - 1) % limit;
  }

  /**
   * The number of entries before `page`: `(page - 1) * limit`, written as
   * one `limit` per earlier page.
   */
  function SkipOf(page: int, limit: int): (skip: nat)
    requires page >= 1 && limit >= 1
    decreases page
  {
    if page == 1 then 0 else SkipOf(page - 1, limit) + limit
  }

  /** The skip is the product the handlers compute. */
  lemma {:induction false} SkipOfIsProduct(page: int, limit: int)
    requires page >= 1 && limit >= 1
    ensures SkipOf(page, limit) == (page - 1) * limit
    decreases page
  {
    if page > 1 {
      SkipOfIsProduct(page - 1, limit);
    }
  }

  /** `.skip(skip).limit(limit)`: MongoDB skips first, whatever the order of the calls. */
  function Slice<T>(s: seq<T>, skip: nat, limit: nat): (r: seq<T>)
    ensures |r| <= limit
    ensures |r| == if skip >= |s| then 0 else if |s| - skip < limit then |s| - skip else limit
    ensures forall i :: 0 <= i < |r| ==> skip + i < |s| && r[i] == s[skip + i]
  {
    if skip >= |s| then []
    else if |s| - skip < limit then s[skip..]
    else s[skip..skip + limit]
  }

  /** The claims of one page, newest first: `.sort({createdAt: -1})` then skip and limit. */
  function Window(claims: seq<PointClaim>, page: int, limit: int): (r: seq<PointClaim>)
    requires page >= 1 && limit >= 1
    ensures |r| <= limit
    ensures forall i :: 0 <= i < |r| ==>
      SkipOf(page, limit) + i < |claims| && r[i] == Ordering.SortDesc(claims, CreatedAt)[SkipOf(page, limit) + i]
  {
    Slice(Ordering.SortDesc(claims, CreatedAt), SkipOf(page, limit), limit)
  }

  /** The pagination block for `page` of `count` entries when `returned` entries were listed. */
  function Paginate(count: nat, page: int, limit: int, returned: nat): Pagination
    requires page >= 1 && limit >= 1
  {
    Pagination(page, PageCount(count, limit), SkipOf(page, limit) + returned < count, page > 1)
  }

  function GlobalEntry(users: map<ObjectId, User>, c: PointClaim): HistoryEntry {
    HistoryEntry(c.id, NameOf(users, c.userId), c.points, NameOf(users, c.claimedBy), c.createdAt, c.description)
  }

  function ScopedEntry(users: map<ObjectId, User>, c: PointClaim): UserHistoryEntry {
    UserHistoryEntry(c.id, c.points, NameOf(users, c.claimedBy), c.createdAt, c.description)
  }

  /** `pointClaims.map(claim => ({...}))` for the global history. */
  function GlobalEntries(users: map<ObjectId, User>, cs: seq<PointClaim>): (r: seq<HistoryEntry>)
    ensures |r| == |cs| && forall i :: 0 <= i < |cs| ==> r[i] == GlobalEntry(users, cs[i])
  {
    seq(|cs|, i requires 0 <= i < |cs| => GlobalEntry(users, cs[i]))
  }

  /** `pointClaims.map(claim => ({...}))` for the per-user history. */
  function ScopedEntries(users: map<ObjectId, User>, cs: seq<PointClaim>): (r: seq<UserHistoryEntry>)
    ensures |r| == |cs| && forall i :: 0 <= i < |cs| ==> r[i] == ScopedEntry(users, cs[i])
  {
    seq(|cs|, i requires 0 <= i < |cs| => ScopedEntry(users, cs[i]))
  }

  /** The `i`-th element of a slice of the reversed `s` is `s`'s element `skip + i` from the end. */
  lemma SliceOfReverse<T>(s: seq<T>, skip: nat, limit: nat)
    ensures var r := Slice(Ordering.Reverse(s), skip, limit);
      forall i :: 0 <= i < |r| ==> skip + i < |s| && r[i] == s[|s| - 1 - (skip + i)]
  {
  }

  /**
   * A page of a log with increasing creation times is a reversed slice of
   * the log, `skip` entries from its end.
   */
  lemma WindowNewestFirst(claims: seq<PointClaim>, page: int, limit: int, skip: nat)
    requires page >= 1 && limit >= 1 && skip == SkipOf(page, limit)
    requires Ordering.StrictlyIncreasing(claims, CreatedAt)
    ensures var w := Window(claims, page, limit);
      && (forall i :: 0 <= i < |w| ==> skip + i < |claims| && w[i] == claims[|claims| - 1 - (skip + i)])
      && Ordering.StrictlyDecreasing(w, CreatedAt)
  {
    var w := Window(claims, page, limit);
    Ordering.SortOfIncreasingIsReverse(claims, CreatedAt);
    assert w == Slice(Ordering.Reverse(claims), skip, limit);
    SliceOfReverse(claims, skip, limit);
    ReversedSliceDecreasing(claims, skip, w);
  }

  /** Elements taken from the end of an increasing log, moving backwards, are decreasing. */
  lemma ReversedSliceDecreasing(claims: seq<PointClaim>, skip: nat, w: seq<PointClaim>)
    requires Ordering.StrictlyIncreasing(claims, CreatedAt)
    requires forall i :: 0 <= i < |w| ==> skip + i < |claims| && w[i] == claims[|claims| - 1 - (skip + i)]
    ensures Ordering.StrictlyDecreasing(w, CreatedAt)
  {
    var n := |claims|;
    forall i, j | 0 <= i < j < |w| ensures CreatedAt(w[i]) > CreatedAt(w[j]) {
      var a, b := w[i], w[j];
      assert a == claims[n - 1 - (skip + i)] && b == claims[n - 1 - (skip + j)];
    }
  }

  /**
   * GET /history?limit&page (defaults 50 and 1): one page of the whole
   * ledger, newest first, with its pagination block.
   */
  function History(ledger: seq<PointClaim>, users: map<ObjectId, User>, limit: Option<int>, page: Option<int>)
    : (r: HistoryPage<HistoryEntry>)
    requires limit.GetOr(HistoryLimit) >= 1 && page.GetOr(FirstPage) >= 1
    ensures var l, p := limit.GetOr(HistoryLimit), page.GetOr(FirstPage);
      var w := Window(ledger, p, l);
      && |r.history| == |w| <= l
      && (forall i :: 0 <= i < |w| ==> r.history[i] == GlobalEntry(users, w[i]))
      && r.pagination == Paginate(|ledger|, p, l, |w|)
  {
    var l, p := limit.GetOr(HistoryLimit), page.GetOr(FirstPage);
    var claims := Window(ledger, p, l);
    HistoryPage(GlobalEntries(users, claims), Paginate(|ledger|, p, l, |claims|))
  }

  /**
   * GET /history/:userId?limit&page (defaults 20 and 1): one page of the
   * claims targeting `userId`, newest first; the count is of those claims only.
   */
  function UserHistory(ledger: seq<PointClaim>, users: map<ObjectId, User>, userId: ObjectId,
                       limit: Option<int>, page: Option<int>)
    : (r: HistoryPage<UserHistoryEntry>)
    requires limit.GetOr(UserHistoryLimit) >= 1 && page.GetOr(FirstPage) >= 1
    ensures var l, p := limit.GetOr(UserHistoryLimit), page.GetOr(FirstPage);
      var mine := ForUser(ledger, userId);
      var w := Window(mine, p, l);
      && |r.history| == |w| <= l
      && (forall i :: 0 <= i < |w| ==> r.history[i] == ScopedEntry(users, w[i]))
      && r.pagination == Paginate(|mine|, p, l, |w|)
  {
    var l, p := limit.GetOr(UserHistoryLimit), page.GetOr(FirstPage);
    var mine := ForUser(ledger, userId);
    var claims := Window(mine, p, l);
    HistoryPage(ScopedEntries(users, claims), Paginate(|mine|, p, l, |claims|))
  }

  /** Products keep the order of their first factor. */
  lemma MulMonotone(a: int, b: int, l: int)
    requires a <= b && l >= 0
    ensures a * l <= b * l
  {
    assert b * l - a * l == (b - a) * l;
  }

  /**
   * The pagination block means what it says: `hasNext` exactly when a later
   * page exists, `hasPrev` exactly when the page is not the first, and a page
   * lists something exactly when it is within the page count.
   */
  lemma PaginationMeaning<T>(s: seq<T>, page: int, limit: int)
    requires page >= 1 && limit >= 1
    ensures var listed := Slice(s, SkipOf(page, limit), limit);
      var pg := Paginate(|s|, page, limit, |listed|);
      && pg.current == page
      && (pg.hasNext <==> page < pg.total)
      && (pg.hasPrev <==> page > 1)
      && (listed != [] <==> page <= pg.total)
  {
    var skip := SkipOf(page, limit);
    var listed := Slice(s, skip, limit);
    var q := PageCount(|s|, limit);
    SkipOfIsProduct(page, limit);
    PageCountIsCeiling(|s|, limit);
    assert skip + limit == page * limit;
    if page < q {
      MulMonotone(page, q - 1, limit);
    } else {
      MulMonotone(q, page, limit);
    }
    if page <= q {
      MulMonotone(page - 1, q - 1, limit);
    } else {
      MulMonotone(q, page - 1, limit);
    }
  }

  /** Every entry `k` is listed on page `k / limit + 1`, at position `k % limit`. */
  lemma PagesCoverEverything<T>(s: seq<T>, limit: int, k: nat)
    requires limit >= 1 && k < |s|
    ensures var page := k / limit + 1;
      var listed := Slice(s, SkipOf(page, limit), limit);
      k % limit < |listed| && listed[k % limit] == s[k]
  {
    var page := k / limit + 1;
    SkipOfIsProduct(page, limit);
    assert SkipOf(page, limit) + k % limit == k;
  }

  /** Every claim on a page is one of the paged claims. */
  lemma WindowDrawsFrom(claims: seq<PointClaim>, page: int, limit: int)
    requires page >= 1 && limit >= 1
    ensures var w := Window(claims, page, limit);
      forall i :: 0 <= i < |w| ==> w[i] in claims
  {
    var w := Window(claims, page, limit);
    var sorted := Ordering.SortDesc(claims, CreatedAt);
    forall i | 0 <= i < |w| ensures w[i] in claims {
      assert w[i] in multiset(sorted);
    }
  }

  /**
   * `h` lists, newest first, the entries for `log` read backwards from
   * `skip` entries before its end: entry `i` shows claim `|log| - 1 - (skip + i)`,
   * and the timestamps strictly decrease.
   */
  ghost predicate GlobalPageNewestFirst(h: seq<HistoryEntry>, log: seq<PointClaim>, users: map<ObjectId, User>, skip: nat) {
    && (forall i :: 0 <= i < |h| ==> skip + i < |log| && h[i] == GlobalEntry(users, log[|log| - 1 - (skip + i)]))
    && (forall i, j :: 0 <= i < j < |h| ==> h[i].timestamp > h[j].timestamp)
  }

  /** The same for the per-user entries. */
  ghost predicate UserPageNewestFirst(h: seq<UserHistoryEntry>, log: seq<PointClaim>, users: map<ObjectId, User>, skip: nat) {
    && (forall i :: 0 <= i < |h| ==> skip + i < |log| && h[i] == ScopedEntry(users, log[|log| - 1 - (skip + i)]))
    && (forall i, j :: 0 <= i < j < |h| ==> h[i].timestamp > h[j].timestamp)
  }

  /** The global entries for a page of an increasing log list it backwards, newest first. */
  lemma GlobalPageOrder(log: seq<PointClaim>, users: map<ObjectId, User>, page: int, limit: int,
                        skip: nat, h: seq<HistoryEntry>)
    requires page >= 1 && limit >= 1 && skip == SkipOf(page, limit)
    requires Ordering.StrictlyIncreasing(log, CreatedAt)
    requires h == GlobalEntries(users, Window(log, page, limit))
    ensures GlobalPageNewestFirst(h, log, users, skip)
  {
    var w := Window(log, page, limit);
    WindowNewestFirst(log, page, limit, skip);
    forall i, j | 0 <= i < j < |h| ensures h[i].timestamp > h[j].timestamp {
      assert CreatedAt(w[i]) > CreatedAt(w[j]);
    }
  }

  /** The per-user entries for a page of an increasing log list it backwards, newest first. */
  lemma UserPageOrder(log: seq<PointClaim>, users: map<ObjectId, User>, page: int, limit: int,
                      skip: nat, h: seq<UserHistoryEntry>)
    requires page >= 1 && limit >= 1 && skip == SkipOf(page, limit)
    requires Ordering.StrictlyIncreasing(log, CreatedAt)
    requires h == ScopedEntries(users, Window(log, page, limit))
    ensures UserPageNewestFirst(h, log, users, skip)
  {
    var w := Window(log, page, limit);
    WindowNewestFirst(log, page, limit, skip);
    forall i, j | 0 <= i < j < |h| ensures h[i].timestamp > h[j].timestamp {
      assert CreatedAt(w[i]) > CreatedAt(w[j]);
    }
  }

  /** When creation times increase along the ledger, a history page is a reversed slice of it. */
  lemma HistoryNewestFirst(ledger: seq<PointClaim>, users: map<ObjectId, User>, limit: Option<int>, page: Option<int>)
    requires limit.GetOr(HistoryLimit) >= 1 && page.GetOr(FirstPage) >= 1
    requires Ordering.StrictlyIncreasing(ledger, CreatedAt)
    ensures GlobalPageNewestFirst(History(ledger, users, limit, page).history, ledger, users,
                                  SkipOf(page.GetOr(FirstPage), limit.GetOr(HistoryLimit)))
  {
    var l, p := limit.GetOr(HistoryLimit), page.GetOr(FirstPage);
    var h := GlobalEntries(users, Window(ledger, p, l));
    assert History(ledger, users, limit, page).history == h;
    GlobalPageOrder(ledger, users, p, l, SkipOf(p, l), h);
  }

  /** The i-th entry of `h` shows `w[i]`, a claim of `ledger` that targets `userId`. */
  ghost predicate ShowsClaimsOf(h: seq<UserHistoryEntry>, w: seq<PointClaim>, ledger: seq<PointClaim>,
                                userId: ObjectId, users: map<ObjectId, User>) {
    && |h| == |w|
    && forall i :: 0 <= i < |h| ==> w[i] in ledger && w[i].userId == userId && h[i] == ScopedEntry(users, w[i])
  }

  /** The entries of claims that target `userId` show claims that target `userId`. */
  lemma EntriesOfTargeted(ledger: seq<PointClaim>, users: map<ObjectId, User>, userId: ObjectId,
                          w: seq<PointClaim>, h: seq<UserHistoryEntry>)
    requires forall i :: 0 <= i < |w| ==> w[i] in ledger && w[i].userId == userId
    requires h == ScopedEntries(users, w)
    ensures ShowsClaimsOf(h, w, ledger, userId, users)
  {
  }

  /**
   * The per-user history lists only claims of the ledger that target that
   * user: entry i shows claim i of the page of that user's claims.
   */
  lemma UserHistoryOnlyTarget(ledger: seq<PointClaim>, users: map<ObjectId, User>, userId: ObjectId,
                              limit: Option<int>, page: Option<int>)
    requires limit.GetOr(UserHistoryLimit) >= 1 && page.GetOr(FirstPage) >= 1
    ensures ShowsClaimsOf(UserHistory(ledger, users, userId, limit, page).history,
                          Window(ForUser(ledger, userId), page.GetOr(FirstPage), limit.GetOr(UserHistoryLimit)),
                          ledger, userId, users)
  {
    var l, p := limit.GetOr(UserHistoryLimit), page.GetOr(FirstPage);
    var mine := ForUser(ledger, userId);
    var w := Window(mine, p, l);
    forall i | 0 <= i < |w| ensures w[i] in ledger && w[i].userId == userId {
      WindowDrawsFrom(mine, p, l);
      SelectedIsInLedger(ledger, userId, w[i]);
    }
    var h := ScopedEntries(users, w);
    EntriesOfTargeted(ledger, users, userId, w, h);
    assert UserHistory(ledger, users, userId, limit, page).history == h;
  }

  /** The per-user history is a reversed slice of that user's claims, newest first. */
  lemma UserHistoryNewestFirst(ledger: seq<PointClaim>, users: map<ObjectId, User>, userId: ObjectId,
                               limit: Option<int>, page: Option<int>)
    requires limit.GetOr(UserHistoryLimit) >= 1 && page.GetOr(FirstPage) >= 1
    requires Ordering.StrictlyIncreasing(ledger, CreatedAt)
    ensures UserPageNewestFirst(UserHistory(ledger, users, userId, limit, page).history, ForUser(ledger, userId), users,
                                SkipOf(page.GetOr(FirstPage), limit.GetOr(UserHistoryLimit)))
  {
    var l, p := limit.GetOr(UserHistoryLimit), page.GetOr(FirstPage);
    var mine := ForUser(ledger, userId);
    ForUserKeepsOrder(ledger, userId);
    UserPageOrder(mine, users, p, l, SkipOf(p, l), ScopedEntries(users, Window(mine, p, l)));
  }

  /**
   * Five claims stamped 1 to 5, two per page: the first page holds the
   * claims stamped 5 and 4 with a next page and no previous one; the third
   * page holds the claim stamped 1 with a previous page and no next one.
   */
  lemma FiveClaimsTwoPerPage(ledger: seq<PointClaim>, users: map<ObjectId, User>)
    requires |ledger| == 5
    requires forall i :: 0 <= i < 5 ==> ledger[i].createdAt == i + 1
    ensures History(ledger, users, Some(2), Some(1))
         == HistoryPage([GlobalEntry(users, ledger[4]), GlobalEntry(users, ledger[3])], Pagination(1, 3, true, false))
    ensures History(ledger, users, Some(2), Some(3))
         == HistoryPage([GlobalEntry(users, ledger[0])], Pagination(3, 3, false, true))
  {
    HistoryNewestFirst(ledger, users, Some(2), Some(1));
    HistoryNewestFirst(ledger, users, Some(2), Some(3));
  }

  // ------------------------------------------------------------------ stats

  datatype TopUser = TopUser(name: string, points: int)

  datatype Stats = Stats(totalUsers: nat, totalClaims: nat, totalPointsAwarded: int, topUser: Option<TopUser>)

  /**
   * GET /stats: the number of active users and of claims, the sum of all
   * awarded points, and the active user with the highest total, if any.
   */
  function GetStats(users: map<ObjectId, User>, ledger: seq<PointClaim>): (r: Stats)
    ensures r.totalClaims == |ledger|
    ensures r.totalUsers == |ActiveIds(users)|
    ensures r.topUser.None? <==> ActiveIds(users) == {}
    ensures r.topUser.Some? ==> exists id :: (id in users && users[id].isActive &&
      users[id].name == r.topUser.value.name && users[id].totalPoints == r.topUser.value.points)
    ensures r.topUser.Some? ==> forall id :: id in users && users[id].isActive ==>
      users[id].totalPoints <= r.topUser.value.points
  {
    LeadersAreTheActiveUsers(users);
    var leaders := Leaders(users);
    if leaders == [] then
      assert forall id :: id in users && users[id].isActive ==> Account(id, users[id]) in leaders;
      Stats(0, |ledger|, Awarded(ledger), None)
    else
      FirstLeaderIsTop(users);
      assert leaders[0].id in ActiveIds(users);
      Stats(|leaders|, |ledger|, Awarded(ledger), Some(TopUser(leaders[0].user.name, leaders[0].user.totalPoints)))
  }

  /** `totalPointsAwarded` is the ledger sum, between 1 and 10 points per claim. */
  lemma StatsAwardedBounds(store: Store)
    requires store.Valid()
    ensures var st := GetStats(store.users, store.ledger);
      st.totalPointsAwarded == Awarded(store.ledger) &&
      MinPoints * st.totalClaims <= st.totalPointsAwarded <= MaxPoints * st.totalClaims
  {
    AwardedBounds(store.ledger);
  }
}
