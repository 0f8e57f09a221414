/**
 * The engineer actor: walks to points the player clicks, repairs one energy
 * source at a time, and points out broken sources nearby.
 *
 * Distances come from the physics engine in the game; here they are inputs.
 * The delayed call that finishes a repair is the explicit step
 * `CompleteRepair`, which receives the source captured when the repair
 * started. Energy sources are known only by identity and by the few fields
 * the engineer reads.
 */
module Engineer {

  import opened Wrappers

  /** Identity of an energy source. */
  type SourceId = nat

  datatype Point = Point(x: real, y: real)

  /** The text shown above the engineer. */
  datatype Label = Idle | Moving | Repairing | RepairNeededNearby

  datatype EngineerState = EngineerState(
    repairing: bool,
    currentTarget: Option<SourceId>,
    moveTarget: Option<Point>,
    status: Label)

  /** What the engineer sees of one energy source during an update. */
  datatype SourceView = SourceView(id: SourceId, broken: bool, repairing: bool, distance: real)

  /** The answer of `StartRepair`: the game returns nothing when the engineer
      is busy, `true` when a repair starts and `false` when out of range. */
  datatype RepairStart = Busy | Started | OutOfRange

  const RepairRange: real := 50.0

  /** Distance below which a walk counts as arrived. */
  const ArrivalRadius: real := 5.0

  /** Invariant: a repair is in progress exactly when there is a target. */
  predicate Valid(e: EngineerState)
  {
    e.repairing <==> e.currentTarget.Some?
  }

  function Init(): (e: EngineerState)
    ensures Valid(e) && !e.repairing && e.moveTarget == None && e.status == Idle
  {
    EngineerState(false, None, None, Idle)
  }

  /** Sets a walking target, unless a repair is in progress. */
  function MoveTo(e: EngineerState, p: Point): (r: EngineerState)
    ensures e.repairing ==> r == e
    ensures !e.repairing ==> r.moveTarget == Some(p) && r.status == Moving
    ensures r.repairing == e.repairing && r.currentTarget == e.currentTarget
  {
    if e.repairing then e
    else e.(moveTarget := Some(p), status := Moving)
  }

  /** The pointer handler: it walks only when not repairing. */
  function PointerDown(e: EngineerState, p: Point): (r: EngineerState)
    ensures e.repairing ==> r == e
    ensures !e.repairing ==> r.moveTarget == Some(p)
  {
    if !e.repairing then MoveTo(e, p) else e
  }

  /** The handler's own guard repeats the one inside `MoveTo`. */
  lemma PointerDownIsMoveTo(e: EngineerState, p: Point)
    ensures PointerDown(e, p) == MoveTo(e, p)
  {
  }

  /** Starts repairing `source` at the given distance, if idle and within the
      repair range (inclusive). A busy engineer ignores the request. */
  function StartRepair(e: EngineerState, source: SourceId, distance: real): (r: (EngineerState, RepairStart))
    ensures e.repairing ==> r == (e, Busy)
    ensures !e.repairing && distance <= RepairRange ==>
              && r.1 == Started
              && r.0.repairing
              && r.0.currentTarget == Some(source)
              && r.0.status == Repairing
              && r.0.moveTarget == e.moveTarget
    ensures !e.repairing && distance > RepairRange ==> r == (e, OutOfRange)
    ensures Valid(e) ==> Valid(r.0)
  {
    if e.repairing then (e, Busy)
    else if distance <= RepairRange then
      (e.(repairing := true, currentTarget := Some(source), status := Repairing), Started)
    else (e, OutOfRange)
  }

  /** The delayed call that ends a repair of `captured`. It acts only while
      `captured` is still the current target; the boolean says whether the
      source's own repair completion was invoked. */
  function CompleteRepair(e: EngineerState, captured: SourceId): (r: (EngineerState, bool))
    ensures r.1 <==> e.currentTarget == Some(captured)
    ensures r.1 ==> !r.0.repairing && r.0.currentTarget == None && r.0.status == Idle
    ensures !r.1 ==> r.0 == e
    ensures r.0.moveTarget == e.moveTarget
    ensures Valid(e) ==> Valid(r.0)
  {
    if e.currentTarget == Some(captured) then
      (e.(repairing := false, currentTarget := None, status := Idle), true)
    else (e, false)
  }

  /** A source the engineer would point out: broken, not being repaired and
      within twice the repair range. */
  predicate NeedsRepairNearby(s: SourceView)
  {
    s.broken && !s.repairing && s.distance <= RepairRange * 2.0
  }

  /** Index of the first source from `i` on, in list order, that needs repair
      nearby. */
  function FirstNearbyBroken(sources: seq<SourceView>, i: nat): (r: Option<nat>)
    requires i <= |sources|
    decreases |sources| - i
    ensures r.Some? ==>
              && i <= r.value < |sources|
              && NeedsRepairNearby(sources[r.value])
              && forall j :: i <= j < r.value ==> !NeedsRepairNearby(sources[j])
    ensures r.None? ==> forall j :: i <= j < |sources| ==> !NeedsRepairNearby(sources[j])
  {
    if i == |sources| then None
    else if NeedsRepairNearby(sources[i]) then Some(i)
    else FirstNearbyBroken(sources, i + 1)
  }

  /** One frame: the arrival check (skipped while repairing; arrival is a
      distance strictly below 5), then, when not repairing, the search for a
      broken source nearby, whose index is returned. */
  function Update(e: EngineerState, distanceToTarget: real, sources: seq<SourceView>)
    : (r: (EngineerState, Option<nat>))
    ensures r.0.repairing == e.repairing && r.0.currentTarget == e.currentTarget
    ensures e.repairing ==> r == (e, None)
    ensures !e.repairing && e.moveTarget.Some? && distanceToTarget < ArrivalRadius ==>
              r.0.moveTarget == None
    ensures !(e.moveTarget.Some? && distanceToTarget < ArrivalRadius) ==>
              r.0.moveTarget == e.moveTarget
    ensures r.1.Some? ==>
              && r.1.value < |sources|
              && NeedsRepairNearby(sources[r.1.value])
              && (forall j :: 0 <= j < r.1.value ==> !NeedsRepairNearby(sources[j]))
              && r.0.status == RepairNeededNearby
    ensures !e.repairing && r.1.None? ==> forall j :: 0 <= j < |sources| ==> !NeedsRepairNearby(sources[j])
    ensures !e.repairing && r.1.None? ==>
              r.0.status == (if e.moveTarget.Some? && distanceToTarget < ArrivalRadius then Idle else e.status)
  {
    if e.repairing then (e, None)
    else
      var arrived := e.moveTarget.Some? && distanceToTarget < ArrivalRadius;
      var e1 := if arrived then e.(moveTarget := None, status := Idle) else e;
      var hint := FirstNearbyBroken(sources, 0);
      (if hint.Some? then e1.(status := RepairNeededNearby) else e1, hint)
  }

  /** A started repair finished by its own delayed call leaves the engineer
      idle again, with the walking target it had. */
  lemma RepairRoundTrip(e: EngineerState, source: SourceId, distance: real)
    requires Valid(e) && !e.repairing && distance <= RepairRange
    ensures
      var started := StartRepair(e, source, distance).0;
      var done := CompleteRepair(started, source);
      && done.1
      && done.0 == e.(status := Idle)
  {
  }

  /** A second repair request during a repair neither replaces the target nor
      stops the first repair from completing. */
  lemma SecondRequestIgnored(e: EngineerState, first: SourceId, second: SourceId, d1: real, d2: real)
    requires Valid(e) && !e.repairing && d1 <= RepairRange
    ensures
      var s1 := StartRepair(e, first, d1).0;
      var s2 := StartRepair(s1, second, d2);
      && s2 == (s1, Busy)
      && CompleteRepair(s2.0, first).1
  {
  }

  /** A stale completion call, left over from an earlier repair of another
      source, neither ends the repair in progress nor stops that repair's own
      call from ending it later. */
  lemma StaleCompletionKeepsRepair(e: EngineerState, stale: SourceId, target: SourceId)
    requires Valid(e) && e.currentTarget == Some(target) && stale != target
    ensures
      var afterStale := CompleteRepair(e, stale);
      && !afterStale.1 && afterStale.0.repairing
      && CompleteRepair(afterStale.0, target) == CompleteRepair(e, target)
      && CompleteRepair(afterStale.0, target).1
  {
  }
}
