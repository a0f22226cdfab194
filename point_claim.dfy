/**
 * The PointClaim document (server/models/PointClaim.js): a target user, the
 * claiming actor, the points awarded and a description, with creation and
 * update timestamps. Creating a document applies the description default and
 * runs the schema's validators.
 */
module PointClaims {
  import opened Wrappers

  /** A MongoDB ObjectId. Ids are handed out in increasing order. */
  type ObjectId = nat

  /** The bounds the schema puts on `points`. */
  const MinPoints: int := 1
  const MaxPoints: int := 10

  /** The description stored when none is supplied. */
  const DefaultDescription: string := "Points claimed"

  /** A stored claim: every required path is present. */
  datatype PointClaim = PointClaim(
    id: ObjectId,
    userId: ObjectId,
    points: int,
    claimedBy: ObjectId,
    description: string,
    createdAt: nat,
    updatedAt: nat)

  /** The fields handed to `new PointClaim({...})`; any of them may be absent. */
  datatype Draft = Draft(
    userId: Option<ObjectId>,
    points: Option<int>,
    claimedBy: Option<ObjectId>,
    description: Option<string>)

  /** The schema paths a validator can reject. */
  datatype Path = UserIdPath | PointsPath | ClaimedByPath

  /** A stored claim satisfies the schema's range on `points`. */
  predicate ValidClaim(c: PointClaim) {
    MinPoints <= c.points <= MaxPoints
  }

  predicate PointsAccepted(p: Option<int>) {
    p.Some? && MinPoints <= p.value <= MaxPoints
  }

  /** The paths whose validator fails on `d`: a missing reference, or points missing or out of range. */
  function Violations(d: Draft): (v: set<Path>)
    ensures UserIdPath in v <==> d.userId.None?
    ensures ClaimedByPath in v <==> d.claimedBy.None?
    ensures PointsPath in v <==> !PointsAccepted(d.points)
  {
    (if d.userId.None? then {UserIdPath} else {})
    + (if PointsAccepted(d.points) then {} else {PointsPath})
    + (if d.claimedBy.None? then {ClaimedByPath} else {})
  }

  /**
   * Builds and validates a document with id `id` at time `now`, as
   * `new PointClaim(d).save()` does: a validation error names every failing
   * path; otherwise the stored claim carries the draft's fields, the default
   * description when none was given, and both timestamps set to `now`.
   */
  function Create(d: Draft, id: ObjectId, now: nat): (r: Result<PointClaim, set<Path>>)
    ensures r.Ok? <==> d.userId.Some? && d.claimedBy.Some? && PointsAccepted(d.points)
    ensures r.Ok? ==> ValidClaim(r.value)
    ensures r.Ok? ==> (r.value.id == id && r.value.userId == d.userId.value &&
                       r.value.claimedBy == d.claimedBy.value && r.value.points == d.points.value)
    ensures r.Ok? ==> r.value.description == (if d.description.Some? then d.description.value else DefaultDescription)
    ensures r.Ok? ==> r.value.createdAt == now && r.value.updatedAt == now
    ensures r.Err? ==> r.error != {} && r.error == Violations(d)
  {
    var v := Violations(d);
    if v != {} then Err(v)
    else Ok(PointClaim(id, d.userId.value, d.points.value, d.claimedBy.value,
                       d.description.GetOr(DefaultDescription), now, now))
  }
}
