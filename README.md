# taskmoney points ledger, modelled in Dafny

taskmoney is a small leaderboard application. An Express server keeps users
(name, email, hashed password, a running `totalPoints`, an `isActive` flag)
and an append-only ledger of point claims in MongoDB. An authenticated actor
"claims" a random award of 1 to 10 points for a target user. The claim is
recorded as a `PointClaim` document and added to the target's total. The
server also serves the ranked user list, the global and per-user claim
history with pagination, summary statistics, registration, and a direct
points increment. A React component draws the leaderboard from the user list.

The model has seven modules:

- `Wrappers` holds `Option` and `Result`.
- `Ordering` holds a generic stable sort, highest key first, as an insertion
  sort proved to be a permutation. It also proves that a sorted permutation
  is unique, that sorting a log with increasing keys reverses it, and it
  defines rank numbering and `limit`/`slice`.
- `PointClaims` models the claim schema: its required paths, the 1..10 range,
  the default description and the timestamps.
- `Db` holds the stored state. `Store` is a class whose fields are the user
  map, the ledger, a clock and the next ObjectId. Its ghost invariants say
  that the ledger is well formed and in creation order, and that every
  user's total equals a base amount plus the points of the claims targeting
  that user. `Db` also holds the queries: active users in natural order, the
  ranking by total, claims by target, and point sums.
- `PointsRoutes` models server/routes/points.js: `Claim` as a module-level
  method that takes the store as an argument and changes it, and the two
  history handlers and the stats handler as functions.
- `UsersRoutes` models server/routes/users.js: the listing and the lookup by
  id as functions, registration and the points increment as module-level
  methods that take the store as an argument and change it.
- `Leaderboard` models client/src/components/Leaderboard.jsx: the sorted
  copy, the podium/list split with its rank arithmetic, and the
  rank-to-icon/style lookups.

Some inputs come from outside the code. Each becomes a parameter:

- The authenticated actor is an `Actor(id, name)` value.
- `Math.random()` is a real number in [0, 1).
- The bcrypt hash of the password is an input `hashed`. `bcrypt.hash` salts
  with a random salt, so the stored hash is not a function of the password.
- The clock is the store's counter. Registration stamps the new user with
  its current value and advances it by one. A claim stamps the new claim
  with it and advances it by one; the claim's two writes (saving the claim
  and incrementing the total) are one step and share that tick. The direct
  points increment leaves the clock as it is: the User model's `updatedAt`
  is not part of this model.
- ObjectIds are natural numbers handed out in increasing order. The model
  assumes that a query without a sort meets documents in ascending id
  order. MongoDB does not promise this natural order; see the
  `UsersRoutes.FindExisting` line under "## Left out".

## Model

| member | source | states |
|---|---|---|
| PointClaims.Violations | server/models/PointClaim.js:3-19 | a path is rejected exactly when `userId` or `claimedBy` is missing, or `points` is missing or outside 1..10 |
| PointClaims.Create | server/models/PointClaim.js:3-26 | saving succeeds exactly when every required path is present and the points are in range; the stored claim has the draft's fields, the default description "Points claimed" when none is given, and both timestamps equal to the save time; a failure names every failing path |
| Ordering.SortDesc | client/src/components/Leaderboard.jsx:5 | the result is a permutation of the input in non-increasing key order |
| Ordering.SortOfIncreasingIsReverse | server/routes/points.js:76 | sorting a log whose keys strictly increase, newest first, gives the log reversed |
| Ordering.SortedPermutationUnique | server/routes/points.js:76 | two strictly decreasing permutations of the same elements are equal, so the newest-first order is fully determined |
| Ordering.PrependKeepsNonIncreasing | client/src/components/Leaderboard.jsx:5 | an element whose key is no smaller than any key of a non-increasing sequence can go in front and the order stays non-increasing |
| Ordering.PrependKeepsIncreasing | server/routes/users.js:10 | an element whose key is below every key of a strictly increasing sequence can go in front and the order stays strictly increasing |
| Ordering.AppendKeepsIncreasing | server/routes/points.js:111 | an element whose key exceeds every key of a strictly increasing sequence can go at the end and the order stays strictly increasing |
| Ordering.WithRanks | server/routes/users.js:16-20 | the i-th element keeps its item and gets rank `first + i` |
| Ordering.Take | server/routes/users.js:13 | `limit(n)` keeps the first min(n, length) elements, as a prefix |
| Db.IdsInOrder | server/routes/users.js:65-67 | the natural order of a collection lists every id exactly once, ascending |
| Db.MinId | server/routes/users.js:65-67 | the smallest id of a non-empty set: a member of the set no smaller than any other, the first document `findOne` meets in the assumed natural order |
| Db.MinExists | server/routes/users.js:65-67 | every non-empty set of ids has a smallest element |
| Db.PrependMin | server/routes/users.js:65-67 | the smallest id in front of the ascending rest of the set lists the whole set once each, ascending |
| Db.FreshId | server/routes/users.js:81-87 | the id handed to a new document is larger than every stored id |
| Db.ActiveAccounts | server/routes/users.js:10 | the query `{isActive: true}` returns only active users, each with its stored document |
| Db.ActiveAccountsSelects | server/routes/users.js:10 | the active query misses no active user and returns each once, in ascending id order |
| Db.IdsOfActiveSelection | server/routes/points.js:143 | a sequence holding only active users with their stored data, and every active user, has exactly the active ids as its ids |
| Db.ActiveQueryIds | server/routes/points.js:143 | the ids the active query returns are the ids `countDocuments({isActive: true})` counts |
| Db.ActiveCount | server/routes/points.js:143 | counting the active users gives the length of the active query |
| Db.Leaders | server/routes/users.js:10-12 | the active users sorted by `totalPoints` descending, as a permutation of the active query |
| Db.LeadersAreTheActiveUsers | server/routes/users.js:10-12 | the ranking holds exactly the active users, with their stored documents, once each |
| Db.HeadOutranksActive | server/routes/points.js:149-151 | in a non-increasing sequence holding every active user, no active user's total exceeds the first element's |
| Db.FirstLeaderIsTop | server/routes/points.js:149-151 | the first ranked user is active and no active user has a higher total |
| Db.ForUser | server/routes/points.js:111 | `find({userId})` returns only claims that target the user |
| Db.ForUserSelects | server/routes/points.js:111 | `find({userId})` invents no claim and misses none that targets the user |
| Db.ForUserKeepsOrder | server/routes/points.js:111-113 | selecting by target keeps the ledger's creation order |
| Db.PointsFor | server/routes/points.js:37-40 | the sum of the points of the ledger claims that target a user, the amount the `$inc` updates have added to that user's total; its meaning is proved by `PointsForAppend`, `PointsForIsAwardedToUser` and `PointsForUntargeted` |
| Db.Awarded | server/routes/points.js:145-147 | the `$sum` of `points` over all claims, 0 for an empty ledger; bounded by `AwardedBounds` |
| Db.PointsForAppend | server/routes/points.js:34-40 | appending a claim adds its points to its target's sum, to nobody else's, and to the overall sum |
| Db.PointsForIsAwardedToUser | server/routes/points.js:111-117 | a user's ledger sum is the sum of the claims the per-user history pages through |
| Db.PointsForUntargeted | server/routes/users.js:81-87 | a user no claim targets has a ledger sum of 0 |
| Db.AwardedBounds | server/routes/points.js:145-147 | with every claim in the schema's range, the total awarded lies between 1 and 10 points per claim |
| Db.RegisterKeepsInvariants | server/routes/users.js:81-87 | adding a user at the next id, with a base equal to its total, keeps the ledger well formed, keeps every total equal to base plus ledger sum, and keeps names and emails distinct when nobody had the new name or email |
| Db.AwardKeepsInvariants | server/routes/points.js:27-40 | appending a valid claim stamped with the clock and the next id, and adding its points to its target, keeps the ledger well formed and in creation order, keeps every total equal to base plus ledger sum, and keeps names and emails distinct |
| Db.Store.constructor | server/routes/points.js:1-6 | the two collections the routes use, opened on a set of users: an empty ledger, a next id above every stored id, base totals equal to the current totals, well formed and balanced |
| Db.Store.Valid | server/models/PointClaim.js:3-26 | the store-level name of `WellFormed`: every claim targets a stored user, is in the schema's range, was stamped before the clock, ids are below the next id, and the ledger is in creation order |
| Db.Store.Consistent | server/routes/points.js:34-40 | the store-level name of `Balanced`: every total is its base plus the points of the claims targeting that user |
| Db.Store.UniqueAccounts | server/routes/users.js:64-73 | the store-level name of `DistinctAccounts`: no two users share a name or an email, which registration's check maintains |
| PointsRoutes.DrawPoints | server/routes/points.js:24 | the award is a whole number from 1 to 10 |
| PointsRoutes.DrawnExactlyOnItsInterval | server/routes/points.js:24 | award p is drawn exactly when the random value lies in [(p-1)/10, p/10), ten equal intervals |
| PointsRoutes.ClaimDescription | server/routes/points.js:31 | the description the claim handler stores: "Points claimed by " followed by the actor's name |
| PointsRoutes.ClaimDraftAccepted | server/routes/points.js:27-34 | the claim document the handler builds always passes the schema's validation |
| PointsRoutes.Claim | server/routes/points.js:9-65 | missing `userId` gives 400 "User ID is required" and an unknown target gives 404 "User not found", both with no change; otherwise exactly one claim (target, actor, drawn points, "Points claimed by <actor>") is appended, only the target's total grows by the award, and the response carries the claim and the new total; keeps the store valid, balanced and its accounts distinct |
| PointsRoutes.SaveAward | server/routes/points.js:34-40 | saving the claim and incrementing its target changes exactly the target's total (by the claim's points), the ledger (by appending the claim), the clock and the next id; the store stays well formed, balanced and its accounts distinct |
| PointsRoutes.NameOf | server/routes/points.js:74-75 | `populate` yields the referenced user's name exactly when that user exists |
| PointsRoutes.PageCount | server/routes/points.js:93 | `Math.ceil(total / limit)` in integer arithmetic; `PageCountIsCeiling` proves it is the ceiling |
| PointsRoutes.SkipOf | server/routes/points.js:71 | the number of entries before page `page`, one `limit` per earlier page; `SkipOfIsProduct` proves it is `(page - 1) * limit` |
| PointsRoutes.PageCountIsCeiling | server/routes/points.js:93 | `Math.ceil(count / limit)`: the page count `q` is the least with `count <= q * limit` |
| PointsRoutes.SkipOfIsProduct | server/routes/points.js:71 | the number of entries skipped before page `page` is `(page - 1) * limit` |
| PointsRoutes.Slice | server/routes/points.js:77-78 | skip, then limit: at most `limit` entries, the ones from position `skip` on |
| PointsRoutes.Window | server/routes/points.js:73-78 | a page holds at most `limit` claims, those at positions skip, skip+1, ... of the newest-first order |
| PointsRoutes.Paginate | server/routes/points.js:91-96 | the pagination block: the requested page, the page count, `hasNext` when the entries skipped plus the entries listed fall short of the count, `hasPrev` when the page is past the first; its meaning is proved by `PaginationMeaning` |
| PointsRoutes.GlobalEntry | server/routes/points.js:83-90 | a global history entry: the claim's id, points, timestamp and description, with the target's and the actor's names resolved by `populate` |
| PointsRoutes.ScopedEntry | server/routes/points.js:120-126 | a per-user history entry: the claim's id, points, timestamp and description, with the actor's name resolved by `populate` |
| PointsRoutes.GlobalEntries | server/routes/points.js:83-90 | one global history entry per claim of the page, in the page's order |
| PointsRoutes.ScopedEntries | server/routes/points.js:120-126 | one per-user history entry per claim of the page, in the page's order |
| PointsRoutes.SliceOfReverse | server/routes/points.js:76-78 | the i-th entry of a page of the reversed log is the log's entry `skip + i` places from its end |
| PointsRoutes.ReversedSliceDecreasing | server/routes/points.js:76-78 | entries taken backwards from a log with increasing timestamps have strictly decreasing timestamps |
| PointsRoutes.WindowNewestFirst | server/routes/points.js:76-78 | on a log in creation order, a page is a reversed slice of the log with strictly decreasing timestamps |
| PointsRoutes.History | server/routes/points.js:68-102 | with defaults limit 50 and page 1, a page of the whole ledger, newest first, each entry with both names resolved, and its pagination block over the full count |
| PointsRoutes.UserHistory | server/routes/points.js:105-138 | with defaults limit 20 and page 1, a page of the user's claims only, newest first, counted over that user's claims |
| PointsRoutes.PaginationMeaning | server/routes/points.js:91-96 | `hasNext` holds exactly when a later page exists, `hasPrev` exactly when the page is not the first, and a page lists something exactly when it is within the page count |
| PointsRoutes.PagesCoverEverything | server/routes/points.js:71-78 | every entry appears on page `k / limit + 1` at position `k % limit` |
| PointsRoutes.WindowDrawsFrom | server/routes/points.js:73-78 | every claim on a page is a claim of the paged collection |
| PointsRoutes.GlobalPageOrder | server/routes/points.js:73-90 | the entries of a page of a log in creation order are the log's claims `skip`, `skip + 1`, ... from its end, with strictly decreasing timestamps |
| PointsRoutes.UserPageOrder | server/routes/points.js:111-126 | the same for the per-user entries |
| PointsRoutes.HistoryNewestFirst | server/routes/points.js:70-90 | on a ledger in creation order, the i-th entry of page `page` describes the ledger claim `(page - 1) * limit + i` places from the end, and timestamps strictly decrease down the page |
| PointsRoutes.UserHistoryOnlyTarget | server/routes/points.js:111-126 | entry i of a per-user history page describes claim i of the page of that user's claims, and that claim is a ledger claim that targets the user |
| PointsRoutes.EntriesOfTargeted | server/routes/points.js:120-126 | the entries of a list of ledger claims that all target a user describe exactly those claims, one for one |
| PointsRoutes.UserHistoryNewestFirst | server/routes/points.js:108-126 | on a ledger in creation order, the i-th entry of page `page` describes the user's claim `(page - 1) * limit + i` places from the end of that user's claims, and timestamps strictly decrease down the page |
| PointsRoutes.FiveClaimsTwoPerPage | server/routes/points.js:68-102 | five claims, two per page: page 1 lists the two newest claims with a next page and no previous one; page 3 lists the oldest claim with a previous page and no next one |
| PointsRoutes.GetStats | server/routes/points.js:141-168 | counts the active users and all claims; the top user is absent exactly when no user is active, and otherwise is an active user whose total no active user exceeds |
| PointsRoutes.StatsAwardedBounds | server/routes/points.js:145-157 | `totalPointsAwarded` is the ledger sum, 0 on an empty ledger, and between 1 and 10 points per claim |
| UsersRoutes.Listing | server/routes/users.js:16-22 | one entry of GET /users: the user's id, name, total, rank and join time |
| UsersRoutes.Listings | server/routes/users.js:16-22 | `users.map(...)`: one entry per ranked user, in order |
| UsersRoutes.Listed | server/routes/users.js:13-23 | the listing of an ordered query holds at most 100 entries, the i-th ranked i + 1 |
| UsersRoutes.ListedFollows | server/routes/users.js:13-23 | the listing of an ordered query is its first min(100, n) accounts, each with its id, name, total, rank and join time |
| UsersRoutes.ListUsers | server/routes/users.js:8-24 | at most 100 entries, the i-th ranked i + 1 |
| UsersRoutes.ListUsersFollowsLeaders | server/routes/users.js:13-23 | the listing is the first min(100, n) users of the ranking, each with its id, name, total, rank and join time |
| UsersRoutes.TopOfRanking | server/routes/users.js:12-13 | from a non-increasing ranking, an account is listed or else 100 accounts are listed and each has at least its total |
| UsersRoutes.ListingOfActive | server/routes/users.js:10-23 | the listing of a non-increasing ranking of active accounts shows active users with their stored fields, points never increasing |
| UsersRoutes.ListUsersActiveAndOrdered | server/routes/users.js:10-13 | only active users are listed, with their stored fields, in non-increasing order of points, and all of them up to 100 |
| UsersRoutes.ListUsersIsTop | server/routes/users.js:12-13 | an active user is either listed or outranked by every listed user, and the latter only when 100 users are listed |
| UsersRoutes.GetUser | server/routes/users.js:31-48 | the profile of a stored user, active or not; 404 "User not found" exactly when the id is unknown |
| UsersRoutes.FindExisting | server/routes/users.js:65-67 | nothing exactly when no stored user has the email or the name; otherwise a user that has one of them, and no user with a smaller id has either |
| UsersRoutes.ConflictMessage | server/routes/users.js:71 | "Email already registered" when the found user has the email, "Username already taken" otherwise |
| UsersRoutes.ConflictMessageNamesACollision | server/routes/users.js:69-73 | the conflict message names a field that really collides; "Username already taken" when no user has the email, "Email already registered" when no user has the name |
| UsersRoutes.RegistrationError | server/routes/users.js:59-73 | every refusal of a registration is a 400 |
| UsersRoutes.RegistrationAdmitted | server/routes/users.js:59-73 | a registration is admitted exactly when name, email and password are all given and no stored user has the name or the email |
| UsersRoutes.RegistrationRefusals | server/routes/users.js:59-73 | a missing field is reported as "Please provide name, email, and password" before any lookup; any other refusal is one of the two conflict messages and names a field some stored user has |
| UsersRoutes.SaveUser | server/routes/users.js:81-87 | saving a new user stores it at the next id with the hashed password, 0 points, the active flag and the current time, and changes nothing else; the store stays well formed and balanced, and names and emails stay distinct |
| UsersRoutes.CreateUser | server/routes/users.js:55-96 | a refused registration answers the refusal and changes nothing; otherwise exactly one user is added at the next id, with the given hash, 0 points and the active flag, and the answer is status 201 with "User created successfully" and the new user's id, name and 0 points; keeps the store valid and balanced, and keeps names and emails distinct |
| UsersRoutes.UpdatePoints | server/routes/users.js:104-134 | a missing or negative value gives 400 "Invalid points value" and an unknown id gives 404, both with no change; otherwise only that user's total grows by the value, the ledger is untouched, and the answer carries "Points updated successfully" and the new total; any positive increment breaks the ledger balance |
| UsersRoutes.StatsTopIsRankOne | server/routes/points.js:149-161 | the stats' top user exists exactly when the listing is non-empty, and has the name and points of the listing's rank-1 entry when both come from the model's one ranking |
| UsersRoutes.StatsTopPointsAnyTieOrder | server/routes/points.js:149-151 | whatever non-increasing order of the active users the listing's separate query returns, the stats' top user exists exactly when that order is non-empty and has the points of its first user |
| Ordering.HeadKeysAgree | server/routes/users.js:12 | two non-increasing orderings of the same elements start with the same key, however they order ties |
| Leaderboard.SortedPlayers | client/src/components/Leaderboard.jsx:5 | the sorted copy is a permutation of the users in non-increasing order of points |
| Leaderboard.Podium | client/src/components/Leaderboard.jsx:57-58 | the podium holds the first min(3, n) sorted users ranked `index + 1` |
| Leaderboard.Rankings | client/src/components/Leaderboard.jsx:82-86 | the list holds the sorted users from position 3 on, ranked `index + 4`, and is empty for three users or fewer |
| Leaderboard.RanksContiguous | client/src/components/Leaderboard.jsx:54-86 | podium then list are the sorted users ranked 1..n with no gap or repeat |
| Leaderboard.RankedSplitJoins | client/src/components/Leaderboard.jsx:57-86 | the first k players ranked from 1 followed by the others ranked from k + 1 number all the players in order |
| Leaderboard.ShowsPlaceholder | client/src/components/Leaderboard.jsx:113 | the "No users yet" placeholder is shown when the sorted copy is empty |
| Leaderboard.PlaceholderOnlyWhenEmpty | client/src/components/Leaderboard.jsx:113-116 | the "No users yet" placeholder shows exactly when podium and list are both empty, which is exactly when there are no users |
| Leaderboard.SectionRanks | client/src/components/Leaderboard.jsx:57-86 | podium ranks are 1 to 3 and list ranks are 4 or more |
| Leaderboard.RankIcon | client/src/components/Leaderboard.jsx:7-18 | an icon of size 24 exactly for ranks 1 to 3, none otherwise |
| Leaderboard.RankStyle | client/src/components/Leaderboard.jsx:20-31 | the default card style exactly for ranks other than 1 to 3 |
| Leaderboard.PointsStyle | client/src/components/Leaderboard.jsx:33-44 | the default points style exactly for ranks other than 1 to 3 |
| Leaderboard.PodiumStylesDistinct | client/src/components/Leaderboard.jsx:7-44 | two different podium ranks get different icons, card styles and points styles |
| Leaderboard.PodiumCardsAreSpecial | client/src/components/Leaderboard.jsx:57-70 | every podium card gets an icon and non-default styles |

## Left out

- Authentication (`auth` middleware, 401 responses): the middleware's code is not part of this model. The actor is a parameter.
- The 500 "Server error ..." catch-all paths: they come from database failures and exceptions, which are not modelled. The claim document the handler builds is proved to pass validation (`ClaimDraftAccepted`), so validation never raises there.
- bcrypt salt and hash (server/routes/users.js:76-78): the hash is the input `hashed`, since the salt is random and the hashing algorithm is not the point of the model.
- Math.random: the draw is a real parameter in [0, 1). Floating-point rounding of `Math.random() * 10` is not modelled; the reals are exact.
- Concurrency: each handler is modelled as one atomic step. In the source, the claim's `save` and `$inc` are two separate writes, and registration's `findOne` and `save` race with other requests.
- Query-string coercion: `limit` and `page` arrive as strings and are coerced by JavaScript. The model takes them as optional integers, applies the defaults, and requires them to be at least 1. Zero, negative and non-numeric values (a NaN or Infinity page count, a negative `skip` that MongoDB rejects) are therefore not modelled.
- PointsRoutes.History: a claim whose target or actor document no longer exists makes the source crash on `claim.userId.name` or `claim.claimedBy.name` and answer 500. The model resolves names to `Option` and lists such entries with `None` instead.
- PointsRoutes.UserHistory: likewise, a claim whose actor document no longer exists makes the source crash on `claim.claimedBy.name` (server/routes/points.js:123) and answer 500; the model lists the entry with `None` as the actor's name.
- UsersRoutes.UpdatePoints: `typeof points === 'number'` also admits fractions, NaN and Infinity. The model takes an optional integer.
- ObjectId cast errors on malformed ids (a 500 in the source): ids are natural numbers here.
- UsersRoutes.FindExisting: the model takes `findOne`'s natural order to be ascending id order, so the user found, and with it the conflict message, is the colliding user with the smallest id. MongoDB does not guarantee any natural order; in the source, when one user has the email and another the name, either message may be answered. `ConflictMessageNamesACollision` holds whichever user is found.
- UsersRoutes.StatsTopIsRankOne: its name clause relies on the model's one deterministic ranking (`Leaders`) serving both the stats and the listing. In the source these are two separate queries whose order among equal totals MongoDB does not fix, so only the existence and the points of the top user are guaranteed to agree; `StatsTopPointsAnyTieOrder` proves that guarantee for any tie order.
- Tie order: among equal totals or equal timestamps, the contracts promise sortedness and permutation only, not which tied element comes first.
- The User model (server/models/User.js) is not part of this model. Its defaults are taken as `totalPoints` 0 and `isActive` true for new users, and names and emails are not assumed unique at the schema level.
- Empty strings stand for the missing or falsy `name`, `email` and `password` of a registration.
- Leaderboard rendering: markup, the initial letter in upper case, `toLocaleString`, and the "Leaderboard" heading are left out. Only the sorted copy, the sections with their ranks, and the three rank lookups are modelled.
- The remaining client files and the API client are UI state, rendering, timers or network plumbing.

## Notes on the source

- A name or email that is already in use is answered with 400, not with a separate conflict status. Which of the two messages appears depends on the first matching user in natural order. The model takes that to be the user with the smallest id.
- GET /users/:id looks a user up by id whether or not the user is active, while the listing and the stats count only active users.
- PATCH /users/:id/points changes a total without writing a ledger entry. After a positive increment, "total = base + sum of claims" no longer holds. `UpdatePoints` proves exactly that.
