/**
 * The user routes (server/routes/users.js): the ranked list of active users,
 * lookup by id, registration, and the direct points increment.
 */
module UsersRoutes {
  import opened Wrappers
  import opened PointClaims
  import opened Db
  import Ordering
  import PointsRoutes

  /** At most this many users are listed. */
  const ListCap: nat := 100

  /** An entry of GET /users. */
  datatype ListedUser = ListedUser(id: ObjectId, name: string, points: int, rank: int, joinedAt: nat)

  /** A success answer of POST /users or PATCH /users/:id/points: its status, message and user. */
  datatype UserReply = UserReply(status: int, message: string, user: UserSummary)

  const UserCreated: string := "User created successfully"
  const PointsUpdated: string := "Points updated successfully"

  /** The body of GET /users/:id. */
  datatype Profile = Profile(id: ObjectId, name: string, points: int, joinedAt: nat)

  function Listing(r: Ordering.Ranked<Account>): ListedUser {
    ListedUser(r.item.id, r.item.user.name, r.item.user.totalPoints, r.rank, r.item.user.createdAt)
  }

  /** `users.map((user, index) => ({...}))`. */
  function Listings(ranked: seq<Ordering.Ranked<Account>>): (r: seq<ListedUser>)
    ensures |r| == |ranked| && forall i :: 0 <= i < |r| ==> r[i] == Listing(ranked[i])
  {
    seq(|ranked|, i requires 0 <= i < |ranked| => Listing(ranked[i]))
  }

  /** The listing of an ordered query: its first 100 accounts, ranked 1, 2, ... in order. */
  function Listed(ordered: seq<Account>): (r: seq<ListedUser>)
    ensures |r| <= ListCap
    ensures forall i :: 0 <= i < |r| ==> r[i].rank == i + 1
  {
    Listings(Ordering.WithRanks(Ordering.Take(ordered, ListCap), 1))
  }

  /**
   * GET /users: the active users, highest total first, at most 100 of them,
   * the i-th with rank i + 1.
   */
  function ListUsers(users: map<ObjectId, User>): (r: seq<ListedUser>)
    ensures |r| <= ListCap
    ensures forall i :: 0 <= i < |r| ==> r[i].rank == i + 1
  {
    Listed(Leaders(users))
  }

  /** `r` shows the first `min(|ordered|, 100)` accounts of `ordered`, the i-th ranked i + 1. */
  ghost predicate ListsTopOf(r: seq<ListedUser>, ordered: seq<Account>) {
    && |r| == (if |ordered| < ListCap then |ordered| else ListCap)
    && forall i :: 0 <= i < |r| ==>
         r[i] == ListedUser(ordered[i].id, ordered[i].user.name, ordered[i].user.totalPoints, i + 1, ordered[i].user.createdAt)
  }

  /** The listing of an ordered query shows its head, in order. */
  lemma ListedFollows(ordered: seq<Account>)
    ensures ListsTopOf(Listed(ordered), ordered)
  {
    var ranked := Ordering.WithRanks(Ordering.Take(ordered, ListCap), 1);
    assert forall i :: 0 <= i < |ranked| ==> ranked[i].item == ordered[i] && ranked[i].rank == i + 1;
  }

  /** The i-th listed user is the i-th of the ranking. */
  lemma ListUsersFollowsLeaders(users: map<ObjectId, User>)
    ensures ListsTopOf(ListUsers(users), Leaders(users))
  {
    ListedFollows(Leaders(users));
  }

  /** The user `id` with `points` is listed, or 100 users are listed and each has at least `points`. */
  ghost predicate ListedOrOutranked(r: seq<ListedUser>, id: ObjectId, points: int) {
    || (exists i :: 0 <= i < |r| && r[i].id == id)
    || (|r| == ListCap && forall i :: 0 <= i < |r| ==> r[i].points >= points)
  }

  /** A listing of a non-increasing ranking leaves out only accounts outranked by every listed one. */
  lemma TopOfRanking(ordered: seq<Account>, r: seq<ListedUser>, k: nat)
    requires Ordering.NonIncreasing(ordered, TotalPoints)
    requires ListsTopOf(r, ordered)
    requires k < |ordered|
    ensures ListedOrOutranked(r, ordered[k].id, ordered[k].user.totalPoints)
  {
    if k < |r| {
      assert r[k].id == ordered[k].id;
    } else {
      forall i | 0 <= i < |r| ensures r[i].points >= ordered[k].user.totalPoints {
        assert TotalPoints(ordered[i]) >= TotalPoints(ordered[k]);
      }
    }
  }

  /**
   * Every entry of `r` is an active user of `users` with its stored name,
   * total and join time, and the points never increase down the list.
   */
  ghost predicate ListsActiveInOrder(r: seq<ListedUser>, users: map<ObjectId, User>) {
    && (forall i :: 0 <= i < |r| ==>
          r[i].id in users && users[r[i].id].isActive && r[i].name == users[r[i].id].name &&
          r[i].points == users[r[i].id].totalPoints && r[i].joinedAt == users[r[i].id].createdAt)
    && (forall i, j :: 0 <= i < j < |r| ==> r[i].points >= r[j].points)
  }

  /** The listing of a non-increasing ranking of active accounts lists active users in order. */
  lemma ListingOfActive(ordered: seq<Account>, r: seq<ListedUser>, users: map<ObjectId, User>)
    requires Ordering.NonIncreasing(ordered, TotalPoints)
    requires forall k :: 0 <= k < |ordered| ==>
      ordered[k].id in users && users[ordered[k].id] == ordered[k].user && ordered[k].user.isActive
    requires ListsTopOf(r, ordered)
    ensures ListsActiveInOrder(r, users)
  {
    forall i, j | 0 <= i < j < |r| ensures r[i].points >= r[j].points {
      assert TotalPoints(ordered[i]) >= TotalPoints(ordered[j]);
    }
  }

  /**
   * Only active users are listed, each with its stored name, total and join
   * time, in non-increasing order of points, and as many as there are active
   * users up to 100.
   */
  lemma ListUsersActiveAndOrdered(users: map<ObjectId, User>)
    ensures |ListUsers(users)| == (if |ActiveIds(users)| < ListCap then |ActiveIds(users)| else ListCap)
    ensures ListsActiveInOrder(ListUsers(users), users)
  {
    LeadersAreTheActiveUsers(users);
    ListUsersFollowsLeaders(users);
    ListingOfActive(Leaders(users), ListUsers(users), users);
  }

  /**
   * The listing is the top of the ranking: an active user missing from it is
   * outranked by every listed user, and that can only happen once 100 users
   * are listed.
   */
  lemma ListUsersIsTop(users: map<ObjectId, User>, id: ObjectId)
    requires id in users && users[id].isActive
    ensures ListedOrOutranked(ListUsers(users), id, users[id].totalPoints)
  {
    var leaders := Leaders(users);
    assert Account(id, users[id]) in leaders by { LeadersAreTheActiveUsers(users); }
    var k :| 0 <= k < |leaders| && leaders[k] == Account(id, users[id]);
    ListUsersFollowsLeaders(users);
    TopOfRanking(leaders, ListUsers(users), k);
  }

  /** GET /users/:id: the user's profile, or 404 when no user has that id (active or not). */
  function GetUser(users: map<ObjectId, User>, id: ObjectId): (r: Result<Profile, HttpError>)
    ensures r.Ok? <==> id in users
    ensures r.Ok? ==> r.value == Profile(id, users[id].name, users[id].totalPoints, users[id].createdAt)
    ensures r.Err? ==> r.error == HttpError(404, "User not found")
  {
    if id !in users then Err(HttpError(404, "User not found"))
    else Ok(Profile(id, users[id].name, users[id].totalPoints, users[id].createdAt))
  }

  /** A stored user collides with a registration for `name` and `email`. */
  predicate Collides(u: User, name: string, email: string) {
    u.email == email || u.name == name
  }

  /** `found` is a user that collides, and no user with a smaller id does. */
  ghost predicate FirstToCollide(users: map<ObjectId, User>, found: ObjectId, name: string, email: string) {
    && found in users && Collides(users[found], name, email)
    && forall id :: id in users && id < found ==> !Collides(users[id], name, email)
  }

  /**
   * `User.findOne({$or: [{email}, {name}]})`: the first colliding user in
   * natural order, which is ascending id order since ids are allocated in
   * increasing order; none when no user has that email or that name.
   */
  function FindExisting(users: map<ObjectId, User>, name: string, email: string): (r: Option<ObjectId>)
    ensures r.None? <==> forall id :: id in users ==> !Collides(users[id], name, email)
    ensures r.Some? ==> FirstToCollide(users, r.value, name, email)
  {
    var hits := set id | id in users.Keys && Collides(users[id], name, email);
    assert forall id :: id in users && Collides(users[id], name, email) ==> id in hits;
    if hits == {} then None else Some(MinId(hits))
  }

  const EmailTaken: string := "Email already registered"
  const NameTaken: string := "Username already taken"
  const MissingFields: string := "Please provide name, email, and password"

  /** The conflict message is decided by the user that was found. */
  function ConflictMessage(existing: User, email: string): string {
    if existing.email == email then EmailTaken else NameTaken
  }

  /**
   * What a conflicting registration is told: "Username already taken" when
   * no user has the email, "Email already registered" when no user has the
   * name, and in any case the message names a field that really collides.
   */
  lemma ConflictMessageNamesACollision(users: map<ObjectId, User>, name: string, email: string)
    requires FindExisting(users, name, email).Some?
    ensures var msg := ConflictMessage(users[FindExisting(users, name, email).value], email);
      && (msg == EmailTaken ==> exists id :: id in users && users[id].email == email)
      && (msg == NameTaken ==> exists id :: id in users && users[id].name == name)
      && ((forall id :: id in users ==> users[id].email != email) ==> msg == NameTaken)
      && ((forall id :: id in users ==> users[id].name != name) ==> msg == EmailTaken)
  {
  }

  /**
   * The checks POST /users makes before writing anything: all three fields
   * present, then no stored user with that email or that name. The error
   * answered, if any; every refusal is a 400.
   */
  function RegistrationError(users: map<ObjectId, User>, name: string, email: string, password: string)
    : (e: Option<HttpError>)
    ensures e.Some? ==> e.value.status == 400
  {
    if name == "" || email == "" || password == "" then Some(HttpError(400, MissingFields))
    else
      match FindExisting(users, name, email)
      case Some(found) => Some(HttpError(400, ConflictMessage(users[found], email)))
      case None => None
  }

  /** A registration is admitted exactly when all fields are given and nobody has the name or the email. */
  lemma RegistrationAdmitted(users: map<ObjectId, User>, name: string, email: string, password: string)
    ensures RegistrationError(users, name, email, password).None? <==>
      name != "" && email != "" && password != "" &&
      forall id :: id in users ==> users[id].name != name && users[id].email != email
  {
  }

  /**
   * Why a registration is refused: a missing field is reported as such,
   * before any lookup; otherwise the message is one of the two conflict
   * messages and names a field some stored user really has.
   */
  lemma RegistrationRefusals(users: map<ObjectId, User>, name: string, email: string, password: string)
    ensures (name == "" || email == "" || password == "") ==>
      RegistrationError(users, name, email, password) == Some(HttpError(400, MissingFields))
    ensures var e := RegistrationError(users, name, email, password);
      (e.Some? && name != "" && email != "" && password != "") ==>
        && (e.value.message == EmailTaken || e.value.message == NameTaken)
        && (e.value.message == EmailTaken ==> exists id :: id in users && users[id].email == email)
        && (e.value.message == NameTaken ==> exists id :: id in users && users[id].name == name)
  {
    if name != "" && email != "" && password != "" && FindExisting(users, name, email).Some? {
      ConflictMessageNamesACollision(users, name, email);
    }
  }

  /**
   * `new User({name, email, password}).save()`: stores a new user at the next
   * id, with 0 points, the active flag and the current time, and changes
   * nothing else. Given that nobody has the name or the email, the store
   * stays well formed and balanced and its accounts stay distinct.
   */
  method SaveUser(store: Store, name: string, email: string, hashed: string) returns (id: ObjectId)
    requires store.Valid()
    requires forall k :: k in store.users ==> store.users[k].name != name && store.users[k].email != email
    modifies store
    ensures store.Valid()
    ensures old(store.Consistent()) ==> store.Consistent()
    ensures old(store.UniqueAccounts()) ==> store.UniqueAccounts()
    ensures id == old(store.nextId) && id !in old(store.users)
    ensures store.users == old(store.users)[id := User(name, email, hashed, 0, true, old(store.clock))]
    ensures |store.users| == |old(store.users)| + 1
    ensures store.ledger == old(store.ledger) && store.base == old(store.base)[id := 0]
    ensures store.nextId == id + 1 && store.clock == old(store.clock) + 1
  {
    id := store.nextId;
    var user := User(name, email, hashed, 0, true, store.clock);
    RegisterKeepsInvariants(store.users, store.base, store.ledger, store.clock, store.nextId, user);
    store.users := store.users[id := user];
    store.base := store.base[id := 0];
    store.nextId := store.nextId + 1;
    store.clock := store.clock + 1;
  }

  /**
   * POST /users. A refused registration (see `RegistrationError`) is answered
   * with its error and changes nothing. Otherwise exactly one user is added
   * at the next id, with the hashed password, 0 points and the active flag
   * set; the store stays well formed and balanced, and no two users share a
   * name or an email afterwards if none did before. `hashed` is what
   * `bcrypt.hash(password, salt)` yields for this request; the salt is
   * random, so the hash is an input rather than a function of the password.
   */
  method CreateUser(store: Store, name: string, email: string, password: string, hashed: string)
    returns (r: Result<UserReply, HttpError>)
    requires store.Valid()
    modifies store
    ensures store.Valid()
    ensures store.ledger == old(store.ledger)
    ensures old(store.Consistent()) ==> store.Consistent()
    ensures old(store.UniqueAccounts()) ==> store.UniqueAccounts()
    ensures RegistrationError(old(store.users), name, email, password).Some? ==>
      r == Err(RegistrationError(old(store.users), name, email, password).value) && unchanged(store)
    ensures RegistrationError(old(store.users), name, email, password).None? ==>
      var id := old(store.nextId);
      && id !in old(store.users)
      && store.users == old(store.users)[id := User(name, email, hashed, 0, true, old(store.clock))]
      && store.base == old(store.base)[id := 0]
      && store.nextId == id + 1 && store.clock == old(store.clock) + 1
      && r == Ok(UserReply(201, UserCreated, UserSummary(id, name, 0)))
    ensures r.Ok? ==> |store.users| == |old(store.users)| + 1
  {
    var refusal := RegistrationError(store.users, name, email, password);
    if refusal.Some? {
      return Err(refusal.value);
    }
    RegistrationAdmitted(store.users, name, email, password);
    var id := SaveUser(store, name, email, hashed);
    r := Ok(UserReply(201, UserCreated, UserSummary(id, name, 0)));
  }

  const InvalidPoints: string := "Invalid points value"

  /**
   * PATCH /users/:id/points. A missing, non-numeric or negative value is
   * refused with 400 and an unknown id with 404, both changing nothing.
   * Otherwise only that user's total grows by `points`, and nothing is
   * written to the ledger: any positive increment leaves a total that the
   * ledger does not account for.
   */
  method UpdatePoints(store: Store, id: ObjectId, points: Option<int>)
    returns (r: Result<UserReply, HttpError>)
    requires store.Valid()
    modifies store
    ensures store.Valid()
    ensures store.ledger == old(store.ledger) && store.base == old(store.base)
    ensures old(store.UniqueAccounts()) ==> store.UniqueAccounts()
    ensures (points.None? || points.value < 0) ==> r == Err(HttpError(400, InvalidPoints)) && unchanged(store)
    ensures points.Some? && points.value >= 0 && id !in old(store.users) ==>
      r == Err(HttpError(404, "User not found")) && unchanged(store)
    ensures points.Some? && points.value >= 0 && id in old(store.users) ==>
      var u := old(store.users)[id];
      && store.users == old(store.users)[id := u.(totalPoints := u.totalPoints + points.value)]
      && store.clock == old(store.clock) && store.nextId == old(store.nextId)
      && r == Ok(UserReply(200, PointsUpdated, UserSummary(id, u.name, u.totalPoints + points.value)))
    ensures r.Ok? && points.value > 0 && old(store.Consistent()) ==> !store.Consistent()
    ensures r.Ok? && points.value == 0 && old(store.Consistent()) ==> store.Consistent()
  {
    if points.None? || points.value < 0 {
      return Err(HttpError(400, InvalidPoints));
    }
    if id !in store.users {
      return Err(HttpError(404, "User not found"));
    }
    var u := store.users[id];
    store.users := store.users[id := u.(totalPoints := u.totalPoints + points.value)];
    r := Ok(UserReply(200, PointsUpdated, UserSummary(id, u.name, u.totalPoints + points.value)));
  }

  /** The stats' top user is the user ranked first by the listing. */
  lemma StatsTopIsRankOne(users: map<ObjectId, User>, ledger: seq<PointClaim>)
    ensures var top := PointsRoutes.GetStats(users, ledger).topUser;
      var r := ListUsers(users);
      && (top.Some? <==> r != [])
      && (top.Some? ==> top.value.name == r[0].name && top.value.points == r[0].points && r[0].rank == 1)
  {
    LeadersAreTheActiveUsers(users);
    ListUsersFollowsLeaders(users);
  }

  /**
   * The stats and the listing run two separate queries, and MongoDB may break
   * ties between equal totals differently in each. Whatever order of the
   * active users the listing's sort returns, as long as it is non-increasing,
   * the stats' top user exists exactly when that order is non-empty and has
   * the same points as its first user.
   */
  lemma StatsTopPointsAnyTieOrder(users: map<ObjectId, User>, ledger: seq<PointClaim>, other: seq<Account>)
    requires multiset(other) == multiset(ActiveAccounts(users))
    requires Ordering.NonIncreasing(other, TotalPoints)
    ensures var top := PointsRoutes.GetStats(users, ledger).topUser;
      && (top.Some? <==> other != [])
      && (top.Some? ==> top.value.points == other[0].user.totalPoints)
  {
    var leaders := Leaders(users);
    if other != [] {
      Ordering.HeadKeysAgree(other, leaders, TotalPoints);
    } else {
      assert |leaders| == |multiset(leaders)| == |multiset(other)| == 0;
    }
  }
}
