/**
 * The leaderboard panel of the client: it sorts a copy of the users it is
 * given by points, highest first, shows the first three as podium cards
 * ranked 1 to 3 and the others as a list ranked from 4 on, and picks an icon
 * and two style classes from a card's rank. Only the rank arithmetic and the
 * rank-to-style lookups are modelled; the markup is not.
 */
module Leaderboard {
  import opened Wrappers
  import Ordering

  /** A user as the panel receives it. */
  datatype Player = Player(id: nat, name: string, points: int)

  function Points(p: Player): int {
    p.points
  }

  /** Number of podium cards. */
  const PodiumSize: nat := 3

  /**
   * `[...users].sort((a, b) => b.points - a.points)`: a copy of the players
   * in non-increasing order of points. Dafny sequences are values, so the
   * caller's sequence is left as it was, as the spread copy leaves the
   * component's prop.
   */
  function SortedPlayers(users: seq<Player>): (r: seq<Player>)
    ensures multiset(r) == multiset(users)
    ensures |r| == |users|
    ensures forall i, j :: 0 <= i < j < |r| ==> r[i].points >= r[j].points
  {
    var r := Ordering.SortDesc(users, Points);
    assert forall i, j :: 0 <= i < j < |r| ==> Points(r[i]) >= Points(r[j]);
    r
  }

  /** The podium: the first (at most) three sorted players, ranked `index + 1`. */
  function Podium(users: seq<Player>): (r: seq<Ordering.Ranked<Player>>)
    ensures var sorted := SortedPlayers(users);
      && |r| == (if |sorted| < PodiumSize then |sorted| else PodiumSize)
      && forall i :: 0 <= i < |r| ==> r[i] == Ordering.Ranked(sorted[i], i + 1)
  {
    var sorted := SortedPlayers(users);
    Ordering.WithRanks(Ordering.Take(sorted, PodiumSize), 1)
  }

  /**
   * The list under the podium: the sorted players from position 3 on,
   * ranked `index + 4`; it is not shown at all for three players or fewer.
   */
  function Rankings(users: seq<Player>): (r: seq<Ordering.Ranked<Player>>)
    ensures var sorted := SortedPlayers(users);
      && |r| == (if |sorted| > PodiumSize then |sorted| - PodiumSize else 0)
      && forall i :: 0 <= i < |r| ==> r[i] == Ordering.Ranked(sorted[PodiumSize + i], PodiumSize + 1 + i)
  {
    var sorted := SortedPlayers(users);
    if |sorted| > PodiumSize then Ordering.WithRanks(sorted[PodiumSize..], PodiumSize + 1) else []
  }

  /** The "No users yet" placeholder is shown when the sorted copy is empty. */
  predicate ShowsPlaceholder(users: seq<Player>) {
    |SortedPlayers(users)| == 0
  }

  /** `rows` are the players of `sorted` in order, numbered 1, 2, ..., n. */
  ghost predicate RanksInOrder(rows: seq<Ordering.Ranked<Player>>, sorted: seq<Player>) {
    && |rows| == |sorted|
    && forall i :: 0 <= i < |rows| ==> rows[i].item == sorted[i] && rows[i].rank == i + 1
  }

  /**
   * The first `k` players ranked from 1, followed by the others ranked from
   * `k + 1`, number all the players in order.
   */
  lemma RankedSplitJoins(sorted: seq<Player>, top: seq<Ordering.Ranked<Player>>,
                         rest: seq<Ordering.Ranked<Player>>, k: nat)
    requires |top| == (if |sorted| < k then |sorted| else k)
    requires |rest| == (if |sorted| > k then |sorted| - k else 0)
    requires forall i :: 0 <= i < |top| ==> top[i] == Ordering.Ranked(sorted[i], i + 1)
    requires forall i :: 0 <= i < |rest| ==> rest[i] == Ordering.Ranked(sorted[k + i], k + 1 + i)
    ensures RanksInOrder(top + rest, sorted)
  {
    var rows := top + rest;
    forall i | 0 <= i < |rows| ensures rows[i].item == sorted[i] && rows[i].rank == i + 1 {
      if i < |top| {
        assert rows[i] == top[i];
      } else {
        assert rows[i] == rest[i - k];
      }
    }
  }

  /**
   * Podium and list together rank every player exactly once: they are the
   * sorted players numbered 1, 2, ..., n in order.
   */
  lemma RanksContiguous(users: seq<Player>)
    ensures |Podium(users) + Rankings(users)| == |users|
    ensures RanksInOrder(Podium(users) + Rankings(users), SortedPlayers(users))
  {
    RankedSplitJoins(SortedPlayers(users), Podium(users), Rankings(users), PodiumSize);
  }

  /**
   * The placeholder is shown exactly when podium and list are both empty,
   * which is exactly when there are no users.
   */
  lemma PlaceholderOnlyWhenEmpty(users: seq<Player>)
    ensures ShowsPlaceholder(users) <==> Podium(users) == [] && Rankings(users) == []
    ensures ShowsPlaceholder(users) <==> users == []
  {
  }

  /** Every podium card has rank 1, 2 or 3; every list row has rank 4 or more. */
  lemma SectionRanks(users: seq<Player>)
    ensures forall i :: 0 <= i < |Podium(users)| ==> 1 <= Podium(users)[i].rank <= PodiumSize
    ensures forall i :: 0 <= i < |Rankings(users)| ==> Rankings(users)[i].rank > PodiumSize
  {
  }

  /** The lucide icons the podium uses. */
  datatype Shape = Trophy | Medal | Award

  /** An icon with its colour class and size. */
  datatype Icon = Icon(shape: Shape, color: string, size: nat)

  const IconSize: nat := 24

  /** `getRankIcon`: a trophy, a medal or an award for ranks 1 to 3, nothing otherwise. */
  function RankIcon(rank: int): (r: Option<Icon>)
    ensures r.Some? <==> 1 <= rank <= PodiumSize
    ensures r.Some? ==> r.value.size == IconSize
  {
    match rank
    case 1 => Some(Icon(Trophy, "text-yellow-500", IconSize))
    case 2 => Some(Icon(Medal, "text-gray-400", IconSize))
    case 3 => Some(Icon(Award, "text-amber-600", IconSize))
    case _ => None
  }

  /** The card classes of ranks 1, 2 and 3, and of every other rank. */
  const GoldCard: string := "bg-gradient-to-r from-yellow-50 to-orange-50 border-yellow-200 shadow-lg"
  const SilverCard: string := "bg-gradient-to-r from-gray-50 to-slate-50 border-gray-200 shadow-md"
  const BronzeCard: string := "bg-gradient-to-r from-amber-50 to-yellow-50 border-amber-200 shadow-md"
  const DefaultRankStyle: string := "bg-white border-gray-200 hover:shadow-md"

  /** `getRankStyle`: the card classes for a rank. */
  function RankStyle(rank: int): (s: string)
    ensures s == DefaultRankStyle <==> !(1 <= rank <= PodiumSize)
  {
    match rank
    case 1 => GoldCard
    case 2 => SilverCard
    case 3 => BronzeCard
    case _ => DefaultRankStyle
  }

  /** The points-line classes of ranks 1, 2 and 3, and of every other rank. */
  const GoldPoints: string := "text-yellow-600 font-bold"
  const SilverPoints: string := "text-gray-600 font-bold"
  const BronzePoints: string := "text-amber-600 font-bold"
  const DefaultPointsStyle: string := "text-gray-700 font-semibold"

  /** `getPointsStyle`: the classes of the points line for a rank. */
  function PointsStyle(rank: int): (s: string)
    ensures s == DefaultPointsStyle <==> !(1 <= rank <= PodiumSize)
  {
    match rank
    case 1 => GoldPoints
    case 2 => SilverPoints
    case 3 => BronzePoints
    case _ => DefaultPointsStyle
  }

  /**
   * Ranks 1, 2 and 3 each get their own icon, card style and points style,
   * so any two different podium ranks look different in all three.
   */
  lemma PodiumStylesDistinct(a: int, b: int)
    requires 1 <= a <= PodiumSize && 1 <= b <= PodiumSize && a != b
    ensures RankIcon(a) != RankIcon(b)
    ensures RankIcon(a).value.shape != RankIcon(b).value.shape
    ensures RankStyle(a) != RankStyle(b)
    ensures PointsStyle(a) != PointsStyle(b)
  {
  }

  /** Every podium card carries an icon and special styles. */
  lemma PodiumCardsAreSpecial(users: seq<Player>, i: nat)
    requires i < |Podium(users)|
    ensures var rank := Podium(users)[i].rank;
      && RankIcon(rank).Some?
      && RankStyle(rank) != DefaultRankStyle
      && PointsStyle(rank) != DefaultPointsStyle
  {
  }
}
