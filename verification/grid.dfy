/**
 * The energy grid of one game session: a store of energy bounded by
 * `maxCapacity`, a fixed roster of three consumer buildings served on their
 * own cadences, an overload flag that follows the capacity, a one-way
 * blackout latch and a demand spike that multiplies consumption.
 *
 * Every timer callback of the game is an explicit step here: `ConsumeEnergy`
 * is the one-second consumption tick, `CheckDemandSpike` the ten-second spike
 * check (its random draw is the `roll` argument) and `EndDemandSpike` the
 * delayed call that ends a spike. Warnings and game-over notifications that
 * the grid sends to its scene are returned as a sequence of events.
 */
module Grid {

  import opened Wrappers
  import opened Counting

  /** Static configuration, supplied by the scene when the grid is built. */
  datatype Config = Config(
    maxCapacity: real,
    overloadThreshold: real,
    blackoutThreshold: real,
    baseConsumption: real,
    demandSpikeMultiplier: real)

  /** One consumer of the roster. Only `lastConsumption` (milliseconds) ever
      changes; `failurePoints` is stored but never read. */
  datatype Building = Building(
    name: string,
    consumption: real,
    interval: int,
    lastConsumption: int,
    failurePoints: int)

  datatype GridState = GridState(
    config: Config,
    currentCapacity: real,
    currentConsumption: real,
    overloaded: bool,
    blackout: bool,
    demandSpikeActive: bool,
    buildings: seq<Building>,
    buildingFailures: nat,
    maxFailures: nat)

  datatype Warning = BuildingOutage(building: string) | Overload | DemandSpike

  /** Why the grid asks the scene to end the game. `OverSupply` and
      `Depletion` are the two blackout causes, `TooManyFailures` the
      building-failure limit. */
  datatype Cause = TooManyFailures | OverSupply | Depletion

  datatype Event = ShowWarning(warning: Warning) | GameOver(cause: Cause)

  /** A grid after one step, with the events the step emitted, in order. */
  datatype Transition = Transition(grid: GridState, events: seq<Event>)

  /** Colour of the fill bar of the grid display. */
  datatype FillColour = Green | Yellow | Red

  /** One input the timers or the players can deliver to the grid. */
  datatype Step = Add(amount: real) | Tick(now: int) | SpikeCheck(roll: bool) | SpikeEnd

  const MaxFailures: nat := 5

  const Roster: seq<Building> := [
    Building("Krankenhaus", 5.0, 10000, 0, 2),
    Building("E-Auto-Ladestation", 3.0, 10000, 0, 1),
    Building("Fabrik", 10.0, 15000, 0, 1)
  ]

  // ---------------------------------------------------------------------
  // Helpers
  // ---------------------------------------------------------------------

  function Min(a: real, b: real): real { if a <= b then a else b }

  function Max(a: real, b: real): real { if a >= b then a else b }

  predicate IsOutage(e: Event) { e.ShowWarning? && e.warning.BuildingOutage? }

  predicate IsFailureGameOver(e: Event) { e == GameOver(TooManyFailures) }

  predicate IsBlackout(e: Event) { e == GameOver(OverSupply) || e == GameOver(Depletion) }

  // ---------------------------------------------------------------------
  // State and invariant
  // ---------------------------------------------------------------------

  /** The consumption rate in force with or without a demand spike. */
  function SpikeConsumption(c: Config, spike: bool): real
  {
    if spike then c.baseConsumption * c.demandSpikeMultiplier else c.baseConsumption
  }

  /** Configurations under which no step drives the capacity out of range. */
  predicate ValidConfig(c: Config)
  {
    && 0.0 <= c.maxCapacity
    && 0.0 <= c.baseConsumption
    && 0.0 <= c.demandSpikeMultiplier
  }

  /** Two rosters with the same buildings in the same order, differing at
      most in their `lastConsumption` times. */
  predicate SameRoster(a: seq<Building>, b: seq<Building>)
  {
    && |a| == |b|
    && forall j :: 0 <= j < |a| ==>
         a[j].(lastConsumption := 0) == b[j].(lastConsumption := 0)
  }

  predicate Valid(g: GridState)
  {
    && ValidConfig(g.config)
    && 0.0 <= g.currentCapacity <= g.config.maxCapacity
    && g.currentConsumption == SpikeConsumption(g.config, g.demandSpikeActive)
    && SameRoster(g.buildings, Roster)
  }

  /** The grid as the constructor leaves it: empty, all flags clear, the
      standard roster never served. */
  function Init(c: Config): (g: GridState)
    ensures g.config == c && g.currentConsumption == c.baseConsumption
    ensures ValidConfig(c) ==> Valid(g)
    ensures g.currentCapacity == 0.0 && g.buildingFailures == 0
    ensures !g.overloaded && !g.blackout && !g.demandSpikeActive
    ensures g.maxFailures == 5 && |g.buildings| == 3
    ensures forall j :: 0 <= j < |g.buildings| ==>
              g.buildings[j] == Roster[j]
  {
    GridState(c, 0.0, c.baseConsumption, false, false, false, Roster, 0, MaxFailures)
  }

  // ---------------------------------------------------------------------
  // Status check
  // ---------------------------------------------------------------------

  /** Re-evaluates the overload flag and the blackout latch against the
      current capacity. */
  function CheckStatus(g: GridState): (r: Transition)
    ensures r.grid.overloaded <==> g.currentCapacity >= g.config.overloadThreshold
    ensures ShowWarning(Overload) in r.events <==>
              !g.overloaded && g.currentCapacity >= g.config.overloadThreshold
    ensures r.grid.blackout <==>
              g.blackout || g.currentCapacity >= g.config.blackoutThreshold || g.currentCapacity == 0.0
    ensures GameOver(OverSupply) in r.events <==>
              !g.blackout && g.currentCapacity >= g.config.blackoutThreshold
    ensures GameOver(Depletion) in r.events <==>
              !g.blackout && g.currentCapacity < g.config.blackoutThreshold && g.currentCapacity == 0.0
    ensures Count(r.events, IsBlackout) == (if !g.blackout && r.grid.blackout then 1 else 0)
    ensures Count(r.events, IsOutage) == 0 && Count(r.events, IsFailureGameOver) == 0
    ensures |r.events| ==
              (if !g.overloaded && g.currentCapacity >= g.config.overloadThreshold then 1 else 0)
              + (if !g.blackout && r.grid.blackout then 1 else 0)
    ensures !g.overloaded && g.currentCapacity >= g.config.overloadThreshold ==>
              r.events[0] == ShowWarning(Overload)
    ensures !g.blackout && r.grid.blackout ==> IsBlackout(r.events[|r.events| - 1])
    ensures r.grid == g.(overloaded := r.grid.overloaded, blackout := r.grid.blackout)
  {
    var cap := g.currentCapacity;
    var c := g.config;
    var overloadEdge := cap >= c.overloadThreshold && !g.overloaded;
    var overloaded :=
      if overloadEdge then true
      else if cap < c.overloadThreshold && g.overloaded then false
      else g.overloaded;
    var cause: Option<Cause> :=
      if cap >= c.blackoutThreshold && !g.blackout then Some(OverSupply)
      else if cap == 0.0 && !g.blackout then Some(Depletion)
      else None;
    var warnings := if overloadEdge then [ShowWarning(Overload)] else [];
    var gameOvers := if cause.Some? then [GameOver(cause.value)] else [];
    CountAppend(warnings, gameOvers, IsBlackout);
    CountAppend(warnings, gameOvers, IsOutage);
    CountAppend(warnings, gameOvers, IsFailureGameOver);
    Transition(g.(overloaded := overloaded, blackout := g.blackout || cause.Some?), warnings + gameOvers)
  }

  // ---------------------------------------------------------------------
  // Energy in
  // ---------------------------------------------------------------------

  /** Adds energy, capped at the maximum capacity, then checks the status.
      The answer is always `true`, also once the grid has blacked out. */
  function AddEnergy(g: GridState, amount: real): (r: (Transition, bool))
    ensures r.1
    ensures r.0.grid.currentCapacity <= g.config.maxCapacity
    ensures r.0.grid.currentCapacity <= g.currentCapacity + amount
    ensures r.0.grid.currentCapacity == g.currentCapacity + amount
         || r.0.grid.currentCapacity == g.config.maxCapacity
    ensures r.0.grid.overloaded <==> r.0.grid.currentCapacity >= g.config.overloadThreshold
    ensures ShowWarning(Overload) in r.0.events <==>
              !g.overloaded && r.0.grid.currentCapacity >= g.config.overloadThreshold
    ensures r.0.grid.blackout <==>
              || g.blackout
              || r.0.grid.currentCapacity >= g.config.blackoutThreshold
              || r.0.grid.currentCapacity == 0.0
    ensures GameOver(OverSupply) in r.0.events <==>
              !g.blackout && r.0.grid.currentCapacity >= g.config.blackoutThreshold
    ensures GameOver(Depletion) in r.0.events <==>
              && !g.blackout
              && r.0.grid.currentCapacity < g.config.blackoutThreshold
              && r.0.grid.currentCapacity == 0.0
    ensures |r.0.events| ==
              (if !g.overloaded && r.0.grid.currentCapacity >= g.config.overloadThreshold then 1 else 0)
              + (if !g.blackout && r.0.grid.blackout then 1 else 0)
    ensures !g.overloaded && r.0.grid.currentCapacity >= g.config.overloadThreshold ==>
              r.0.events[0] == ShowWarning(Overload)
    ensures !g.blackout && r.0.grid.blackout ==> IsBlackout(r.0.events[|r.0.events| - 1])
    ensures Count(r.0.events, IsBlackout) == (if !g.blackout && r.0.grid.blackout then 1 else 0)
    ensures Count(r.0.events, IsOutage) == 0 && Count(r.0.events, IsFailureGameOver) == 0
    ensures r.0.grid == g.(currentCapacity := r.0.grid.currentCapacity,
                           overloaded := r.0.grid.overloaded,
                           blackout := r.0.grid.blackout)
    ensures Valid(g) && 0.0 <= amount ==> Valid(r.0.grid)
  {
    var filled := g.(currentCapacity := Min(g.currentCapacity + amount, g.config.maxCapacity));
    (CheckStatus(filled), true)
  }

  // ---------------------------------------------------------------------
  // Consumption tick
  // ---------------------------------------------------------------------

  /** Whether a building's cadence has elapsed at time `now`. */
  predicate Due(b: Building, now: int)
  {
    now - b.lastConsumption >= b.interval
  }

  /** What a building draws when served: its own rate, multiplied while a
      demand spike is active. */
  function Demand(g: GridState, b: Building): real
  {
    if g.demandSpikeActive then b.consumption * g.config.demandSpikeMultiplier else b.consumption
  }

  lemma DemandNonNegative(g: GridState, b: Building)
    requires Valid(g) && 0.0 <= b.consumption
    ensures 0.0 <= Demand(g, b)
  {
    if g.demandSpikeActive {
      MulNonNegative(b.consumption, g.config.demandSpikeMultiplier);
    }
  }

  lemma MulNonNegative(x: real, y: real)
    requires 0.0 <= x && 0.0 <= y
    ensures 0.0 <= x * y
  {
  }

  /** On a valid grid no building draws a negative amount. */
  lemma RosterDemandNonNegative(g: GridState, j: nat)
    requires Valid(g) && j < |g.buildings|
    ensures 0.0 <= Demand(g, g.buildings[j])
  {
    assert g.buildings[j].(lastConsumption := 0) == Roster[j].(lastConsumption := 0);
    DemandNonNegative(g, g.buildings[j]);
  }

  /** Names of the buildings reported in outage warnings, in order. */
  function OutageNames(evs: seq<Event>): seq<string>
  {
    if |evs| == 0 then []
    else (if IsOutage(evs[0]) then [evs[0].warning.building] else []) + OutageNames(evs[1..])
  }

  lemma {:induction false} OutageNamesAppend(a: seq<Event>, b: seq<Event>)
    ensures OutageNames(a + b) == OutageNames(a) + OutageNames(b)
  {
    if |a| == 0 {
      assert a + b == b;
    } else {
      assert (a + b)[1..] == a[1..] + b;
      OutageNamesAppend(a[1..], b);
    }
  }

  lemma {:induction false} OutageNamesCount(evs: seq<Event>)
    ensures |OutageNames(evs)| == Count(evs, IsOutage)
  {
    if |evs| > 0 {
      OutageNamesCount(evs[1..]);
    }
  }

  // A reference for one round of service, computed on the roster alone: the
  // capacity left and the buildings that fell short when buildings `i .. j-1`
  // are served in roster order from the grid's capacity.

  /** Capacity left once buildings `i .. j-1` have been served in order. */
  function Leftover(g: GridState, now: int, i: nat, j: nat): real
    requires i <= j <= |g.buildings|
    decreases j
  {
    if j == i then g.currentCapacity
    else
      var c := Leftover(g, now, i, j - 1);
      var b := g.buildings[j - 1];
      if Due(b, now) && c >= Demand(g, b) then c - Demand(g, b) else c
  }

  /** Names of the due buildings among `i .. j-1` whose demand exceeds what
      the buildings before them, in roster order, left over. */
  function Shortfalls(g: GridState, now: int, i: nat, j: nat): seq<string>
    requires i <= j <= |g.buildings|
    decreases j
  {
    if j == i then [] else Shortfalls(g, now, i, j - 1) + ShortAt(g, now, i, j)
  }

  /** The name of building `j-1` when it is due and what buildings
      `i .. j-2` left does not cover its demand. */
  function ShortAt(g: GridState, now: int, i: nat, j: nat): seq<string>
    requires i < j <= |g.buildings|
  {
    var b := g.buildings[j - 1];
    if Due(b, now) && Leftover(g, now, i, j - 1) < Demand(g, b) then [b.name] else []
  }

  /** Sum of the demands of the due buildings among `i .. j-1`. */
  function DueDemand(g: GridState, now: int, i: nat, j: nat): real
    requires i <= j <= |g.buildings|
    decreases j
  {
    if j == i then 0.0
    else DueDemand(g, now, i, j - 1) + (if Due(g.buildings[j - 1], now) then Demand(g, g.buildings[j - 1]) else 0.0)
  }

  /** Names of the due buildings among `i .. j-1` that draw anything. */
  function DueNames(g: GridState, now: int, i: nat, j: nat): seq<string>
    requires i <= j <= |g.buildings|
    decreases j
  {
    if j == i then []
    else
      var b := g.buildings[j - 1];
      DueNames(g, now, i, j - 1) + (if Due(b, now) && Demand(g, b) > 0.0 then [b.name] else [])
  }

  /** The premise of the shift lemmas: `g1` is `g` after building `i` was
      served, holding what that building left over. */
  predicate ServedFirst(g: GridState, g1: GridState, now: int, i: nat)
    requires i < |g.buildings|
  {
    && |g1.buildings| == |g.buildings|
    && g1.config == g.config && g1.demandSpikeActive == g.demandSpikeActive
    && (forall k :: i < k < |g.buildings| ==> g1.buildings[k] == g.buildings[k])
    && g1.currentCapacity == Leftover(g, now, i, i + 1)
  }

  /** Serving building `i` first and then the rest from `g1` leaves what the
      reference from `i` leaves. */
  lemma {:induction false} LeftoverShift(g: GridState, g1: GridState, now: int, i: nat, j: nat)
    requires i < j <= |g.buildings| && ServedFirst(g, g1, now, i)
    ensures Leftover(g1, now, i + 1, j) == Leftover(g, now, i, j)
    decreases j
  {
    if j > i + 1 {
      LeftoverShift(g, g1, now, i, j - 1);
      var b := g.buildings[j - 1];
      assert g1.buildings[j - 1] == b;
      assert Demand(g1, b) == Demand(g, b);
    }
  }

  lemma ShortAtShift(g: GridState, g1: GridState, now: int, i: nat, j: nat)
    requires i + 1 < j <= |g.buildings| && ServedFirst(g, g1, now, i)
    ensures ShortAt(g1, now, i + 1, j) == ShortAt(g, now, i, j)
  {
    LeftoverShift(g, g1, now, i, j - 1);
    var b := g.buildings[j - 1];
    assert g1.buildings[j - 1] == b;
    assert Demand(g1, b) == Demand(g, b);
  }

  /** Serving building `i` first and then the rest from `g1` reports the
      shortfalls the reference from `i` reports. */
  lemma {:induction false} ShortfallsShift(g: GridState, g1: GridState, now: int, i: nat, j: nat)
    requires i < j <= |g.buildings| && ServedFirst(g, g1, now, i)
    ensures Shortfalls(g, now, i, j) == Shortfalls(g, now, i, i + 1) + Shortfalls(g1, now, i + 1, j)
    decreases j
  {
    if j == i + 1 {
      assert Shortfalls(g1, now, i + 1, j) == [];
      assert Shortfalls(g, now, i, j) + [] == Shortfalls(g, now, i, j);
    } else {
      var head := Shortfalls(g, now, i, i + 1);
      calc {
        Shortfalls(g, now, i, j);
        Shortfalls(g, now, i, j - 1) + ShortAt(g, now, i, j);
        { ShortfallsShift(g, g1, now, i, j - 1); }
        (head + Shortfalls(g1, now, i + 1, j - 1)) + ShortAt(g, now, i, j);
        { AppendAssoc(head, Shortfalls(g1, now, i + 1, j - 1), ShortAt(g, now, i, j)); }
        head + (Shortfalls(g1, now, i + 1, j - 1) + ShortAt(g, now, i, j));
        { ShortAtShift(g, g1, now, i, j); }
        head + (Shortfalls(g1, now, i + 1, j - 1) + ShortAt(g1, now, i + 1, j));
        head + Shortfalls(g1, now, i + 1, j);
      }
    }
  }

  lemma AppendAssoc<T>(a: seq<T>, b: seq<T>, c: seq<T>)
    ensures (a + b) + c == a + (b + c)
  {
  }

  /** When the capacity covers every due demand, nobody falls short and the
      capacity drops by exactly the sum of the due demands. */
  lemma {:induction false} CoveredServing(g: GridState, now: int, i: nat, j: nat)
    requires Valid(g) && i <= j <= |g.buildings|
    requires g.currentCapacity >= DueDemand(g, now, i, j)
    ensures Leftover(g, now, i, j) == g.currentCapacity - DueDemand(g, now, i, j)
    ensures Shortfalls(g, now, i, j) == []
    decreases j
  {
    if j > i {
      RosterDemandNonNegative(g, j - 1);
      CoveredServing(g, now, i, j - 1);
    }
  }

  /** From an empty store, every due building that draws anything falls
      short, and the store stays empty. */
  lemma {:induction false} EmptyServing(g: GridState, now: int, i: nat, j: nat)
    requires Valid(g) && g.currentCapacity == 0.0 && i <= j <= |g.buildings|
    ensures Leftover(g, now, i, j) == 0.0
    ensures Shortfalls(g, now, i, j) == DueNames(g, now, i, j)
    decreases j
  {
    if j > i {
      RosterDemandNonNegative(g, j - 1);
      EmptyServing(g, now, i, j - 1);
    }
  }

  /** Failure game overs owed when the counter moves from `before` to
      `after`: one for every value reached at or above the limit. */
  function Crossings(before: nat, after: nat, limit: nat): nat
    requires before <= after
  {
    if after < limit then 0 else after - (if before >= limit then before else limit - 1)
  }

  lemma CrossingsAdd(a: nat, b: nat, c: nat, limit: nat)
    requires a <= b <= c
    ensures Crossings(a, b, limit) + Crossings(b, c, limit) == Crossings(a, c, limit)
  {
  }

  /** What a shortfall reports: the outage warning naming the building and,
      when the failure limit is reached, a failure game over after it. */
  function ShortfallEvents(name: string, limitReached: bool): seq<Event>
  {
    [ShowWarning(BuildingOutage(name))] + (if limitReached then [GameOver(TooManyFailures)] else [])
  }

  lemma ShortfallEventCounts(name: string, limitReached: bool)
    ensures Count(ShortfallEvents(name, limitReached), IsOutage) == 1
    ensures Count(ShortfallEvents(name, limitReached), IsFailureGameOver) == (if limitReached then 1 else 0)
    ensures Count(ShortfallEvents(name, limitReached), IsBlackout) == 0
    ensures OutageNames(ShortfallEvents(name, limitReached)) == [name]
  {
    var outage := [ShowWarning(BuildingOutage(name))];
    var limit: seq<Event> := if limitReached then [GameOver(TooManyFailures)] else [];
    CountSingle(ShowWarning(BuildingOutage(name)), IsOutage);
    CountSingle(ShowWarning(BuildingOutage(name)), IsFailureGameOver);
    CountSingle(ShowWarning(BuildingOutage(name)), IsBlackout);
    CountSingle(GameOver(TooManyFailures), IsOutage);
    CountSingle(GameOver(TooManyFailures), IsFailureGameOver);
    CountSingle(GameOver(TooManyFailures), IsBlackout);
    CountAppend(outage, limit, IsOutage);
    CountAppend(outage, limit, IsFailureGameOver);
    CountAppend(outage, limit, IsBlackout);
    OutageNamesAppend(outage, limit);
    assert OutageNames(limit) == [];
  }

  /** The events of a sequence of shortfalls, in order: each named
      building's outage warning, followed at once by a failure game over
      when the failure it adds to the `before` already counted reaches the
      limit. */
  function ShortfallReport(names: seq<string>, before: nat, limit: nat): seq<Event>
    decreases |names|
  {
    if |names| == 0 then []
    else ShortfallEvents(names[0], before + 1 >= limit) + ShortfallReport(names[1..], before + 1, limit)
  }

  /** Serves building `i` at time `now`, if it is due: its demand is drawn
      when the store covers it, and otherwise the store is left alone and one
      failure is counted, whatever the building's `failurePoints`. A failure
      that leaves the counter at or above the limit asks for a game over, on
      every such failure. */
  function ServeBuilding(g: GridState, i: nat, now: int): (r: Transition)
    requires i < |g.buildings|
    ensures SameRoster(g.buildings, r.grid.buildings)
    ensures forall j :: 0 <= j < |g.buildings| && j != i ==> r.grid.buildings[j] == g.buildings[j]
    ensures !Due(g.buildings[i], now) ==> r == Transition(g, [])
    ensures Due(g.buildings[i], now) ==> r.grid.buildings[i].lastConsumption == now
    ensures Due(g.buildings[i], now) && g.currentCapacity >= Demand(g, g.buildings[i]) ==>
              && r.grid.currentCapacity == g.currentCapacity - Demand(g, g.buildings[i])
              && r.grid.buildingFailures == g.buildingFailures
              && r.events == []
    ensures Due(g.buildings[i], now) && g.currentCapacity < Demand(g, g.buildings[i]) ==>
              && r.grid.currentCapacity == g.currentCapacity
              && r.grid.buildingFailures == g.buildingFailures + 1
              && r.events ==
                   ShortfallEvents(g.buildings[i].name, r.grid.buildingFailures >= g.maxFailures)
    ensures r.grid.buildingFailures == g.buildingFailures + Count(r.events, IsOutage)
    ensures Count(r.events, IsFailureGameOver) ==
              (if Count(r.events, IsOutage) == 1 && r.grid.buildingFailures >= g.maxFailures then 1 else 0)
    ensures Count(r.events, IsBlackout) == 0
    ensures r.grid == g.(currentCapacity := r.grid.currentCapacity,
                         buildings := r.grid.buildings,
                         buildingFailures := r.grid.buildingFailures)
  {
    var b := g.buildings[i];
    var served := g.buildings[i := b.(lastConsumption := now)];
    if !Due(b, now) then
      Transition(g, [])
    else if g.currentCapacity >= Demand(g, b) then
      Transition(g.(currentCapacity := g.currentCapacity - Demand(g, b), buildings := served), [])
    else
      var failures := g.buildingFailures + 1;
      ShortfallEventCounts(b.name, failures >= g.maxFailures);
      Transition(g.(buildings := served, buildingFailures := failures),
                 ShortfallEvents(b.name, failures >= g.maxFailures))
  }

  /** Serves buildings `i`, `i + 1`, ... in roster order. Whether a building
      is due depends only on its own record, so the served set is fixed by the
      roster and `now`, whatever the capacity. */
  function ServeFrom(g: GridState, now: int, i: nat): (r: Transition)
    requires i <= |g.buildings|
    decreases |g.buildings| - i
    ensures SameRoster(g.buildings, r.grid.buildings)
    ensures forall j :: 0 <= j < i ==> r.grid.buildings[j] == g.buildings[j]
    ensures forall j :: i <= j < |g.buildings| ==>
              r.grid.buildings[j].lastConsumption ==
                (if Due(g.buildings[j], now) then now else g.buildings[j].lastConsumption)
    ensures r.grid.currentCapacity == Leftover(g, now, i, |g.buildings|)
    ensures r.grid.buildingFailures == g.buildingFailures + Count(r.events, IsOutage)
    ensures Count(r.events, IsBlackout) == 0
    ensures r.grid == g.(currentCapacity := r.grid.currentCapacity,
                         buildings := r.grid.buildings,
                         buildingFailures := r.grid.buildingFailures)
  {
    if i == |g.buildings| then
      Transition(g, [])
    else
      var first := ServeBuilding(g, i, now);
      var rest := ServeFrom(first.grid, now, i + 1);
      CountAppend(first.events, rest.events, IsOutage);
      CountAppend(first.events, rest.events, IsBlackout);
      ServeFromSteps(g, i, now, first, rest);
      assert rest.grid.currentCapacity == Leftover(g, now, i, |g.buildings|) by {
        ServeStepLeftover(g, now, i, |g.buildings|);
      }
      Transition(rest.grid, first.events + rest.events)
  }

  /** The facts `ServeFrom` needs about the building it serves first. */
  lemma ServeFromSteps(g: GridState, i: nat, now: int, first: Transition, rest: Transition)
    requires i < |g.buildings|
    requires first == ServeBuilding(g, i, now)
    requires SameRoster(first.grid.buildings, rest.grid.buildings)
    requires first.grid.buildings[i].lastConsumption == rest.grid.buildings[i].lastConsumption
    requires forall j :: 0 <= j < i + 1 ==> rest.grid.buildings[j] == first.grid.buildings[j]
    ensures forall j :: 0 <= j < i ==> rest.grid.buildings[j] == g.buildings[j]
    ensures rest.grid.buildings[i].lastConsumption ==
              (if Due(g.buildings[i], now) then now else g.buildings[i].lastConsumption)
  {
  }

  /** On a valid grid the reference never draws the store below zero or
      above where it started. */
  lemma {:induction false} LeftoverBounds(g: GridState, now: int, i: nat, j: nat)
    requires Valid(g) && i <= j <= |g.buildings|
    ensures 0.0 <= Leftover(g, now, i, j) <= g.currentCapacity
    decreases j
  {
    if j > i {
      RosterDemandNonNegative(g, j - 1);
      LeftoverBounds(g, now, i, j - 1);
    }
  }

  /** Serving keeps a valid grid valid, and never raises its store. */
  lemma ServeFromValid(g: GridState, now: int, i: nat)
    requires Valid(g) && i <= |g.buildings|
    ensures Valid(ServeFrom(g, now, i).grid)
    ensures ServeFrom(g, now, i).grid.currentCapacity <= g.currentCapacity
  {
    var r := ServeFrom(g, now, i).grid;
    LeftoverBounds(g, now, i, |g.buildings|);
    assert SameRoster(r.buildings, Roster) by {
      forall j | 0 <= j < |r.buildings|
        ensures r.buildings[j].(lastConsumption := 0) == Roster[j].(lastConsumption := 0)
      {
        assert r.buildings[j].(lastConsumption := 0) == g.buildings[j].(lastConsumption := 0);
      }
    }
  }

  /** Serving from building `i` on reports, in its outage warnings, exactly
      the buildings of the reference `Shortfalls`, in roster order. */
  lemma {:induction false} ServeFromShortfalls(g: GridState, now: int, i: nat)
    requires i <= |g.buildings|
    ensures OutageNames(ServeFrom(g, now, i).events) == Shortfalls(g, now, i, |g.buildings|)
    decreases |g.buildings| - i
  {
    if i < |g.buildings| {
      var first := ServeBuilding(g, i, now);
      var rest := ServeFrom(first.grid, now, i + 1);
      calc {
        OutageNames(ServeFrom(g, now, i).events);
        OutageNames(first.events + rest.events);
        { OutageNamesAppend(first.events, rest.events); }
        OutageNames(first.events) + OutageNames(rest.events);
        { ServeFromShortfalls(first.grid, now, i + 1); }
        OutageNames(first.events) + Shortfalls(first.grid, now, i + 1, |g.buildings|);
        { ServeStepShortfalls(g, now, i, |g.buildings|); }
        Shortfalls(g, now, i, |g.buildings|);
      }
    }
  }

  /** Serving reports its outages as a shortfall report: each failure game
      over comes right after the outage warning whose failure reached the
      limit, and nowhere else. */
  lemma {:induction false} ServeFromReport(g: GridState, now: int, i: nat)
    requires i <= |g.buildings|
    ensures ServeFrom(g, now, i).events ==
              ShortfallReport(OutageNames(ServeFrom(g, now, i).events), g.buildingFailures, g.maxFailures)
    decreases |g.buildings| - i
  {
    if i < |g.buildings| {
      var first := ServeBuilding(g, i, now);
      var rest := ServeFrom(first.grid, now, i + 1);
      assert ServeFrom(g, now, i) == Transition(rest.grid, first.events + rest.events);
      ServeBuildingInReport(g, i, now);
      ServeFromReport(first.grid, now, i + 1);
      ReportStep(first.events, rest.events, g.buildingFailures, first.grid.buildingFailures, g.maxFailures);
    }
  }

  /** A report followed by a report that starts from the failures the first
      one counted is a report. */
  lemma ReportStep(e1: seq<Event>, e2: seq<Event>, before: nat, middle: nat, limit: nat)
    requires e1 == ShortfallReport(OutageNames(e1), before, limit)
    requires middle == before + |OutageNames(e1)|
    requires e2 == ShortfallReport(OutageNames(e2), middle, limit)
    ensures e1 + e2 == ShortfallReport(OutageNames(e1 + e2), before, limit)
  {
    OutageNamesAppend(e1, e2);
    ReportJoin(e1, e2, OutageNames(e1), OutageNames(e2), before, limit);
  }

  /** Serving from `i` is serving building `i`, then the rest. */
  lemma ServeFromUnfold(g: GridState, now: int, i: nat)
    requires i < |g.buildings|
    ensures var first := ServeBuilding(g, i, now);
      ServeFrom(g, now, i).events == first.events + ServeFrom(first.grid, now, i + 1).events
  {
  }

  /** Two consecutive reports join into the report of all their names. */
  lemma ReportJoin(e1: seq<Event>, e2: seq<Event>, names: seq<string>, tail: seq<string>,
                   before: nat, limit: nat)
    requires e1 == ShortfallReport(names, before, limit)
    requires e2 == ShortfallReport(tail, before + |names|, limit)
    ensures e1 + e2 == ShortfallReport(names + tail, before, limit)
  {
    ShortfallReportAppend(names, tail, before, limit);
  }

  /** One building's events are the report of its own shortfall, if any. */
  lemma ServeBuildingInReport(g: GridState, i: nat, now: int)
    requires i < |g.buildings|
    ensures var first := ServeBuilding(g, i, now);
      && first.events == ShortfallReport(OutageNames(first.events), g.buildingFailures, g.maxFailures)
      && first.grid.buildingFailures == g.buildingFailures + |OutageNames(first.events)|
      && first.grid.maxFailures == g.maxFailures
  {
    var b := g.buildings[i];
    var first := ServeBuilding(g, i, now);
    if Due(b, now) && g.currentCapacity < Demand(g, b) {
      ShortfallEventCounts(b.name, first.grid.buildingFailures >= g.maxFailures);
      assert ShortfallReport([b.name], g.buildingFailures, g.maxFailures) ==
               ShortfallEvents(b.name, g.buildingFailures + 1 >= g.maxFailures) + [];
    } else {
      assert OutageNames(first.events) == [];
    }
  }

  lemma {:induction false} ShortfallReportAppend(a: seq<string>, b: seq<string>, before: nat, limit: nat)
    ensures ShortfallReport(a + b, before, limit) ==
              ShortfallReport(a, before, limit) + ShortfallReport(b, before + |a|, limit)
    decreases |a|
  {
    if |a| == 0 {
      assert a + b == b;
    } else {
      var head := ShortfallEvents(a[0], before + 1 >= limit);
      assert (a + b)[0] == a[0] && (a + b)[1..] == a[1..] + b;
      ShortfallReportAppend(a[1..], b, before + 1, limit);
      AppendAssoc(head, ShortfallReport(a[1..], before + 1, limit), ShortfallReport(b, before + |a|, limit));
    }
  }

  /** With no building due from `i` on, serving changes nothing. */
  lemma {:induction false} ServeFromNoneDue(g: GridState, now: int, i: nat)
    requires i <= |g.buildings|
    requires forall j :: i <= j < |g.buildings| ==> !Due(g.buildings[j], now)
    ensures ServeFrom(g, now, i) == Transition(g, [])
    decreases |g.buildings| - i
  {
    if i < |g.buildings| {
      assert ServeBuilding(g, i, now) == Transition(g, []);
      ServeFromNoneDue(g, now, i + 1);
      assert ServeFrom(g, now, i) == Transition(g, [] + []);
    }
  }

  /** What serving one building reports: its name when it is due and the
      store cannot cover its demand, and a failure game over exactly when
      that failure reaches the limit. */
  lemma ServeBuildingReport(g: GridState, i: nat, now: int)
    requires i < |g.buildings|
    ensures var r := ServeBuilding(g, i, now);
      && r.grid.currentCapacity == Leftover(g, now, i, i + 1)
      && OutageNames(r.events) == Shortfalls(g, now, i, i + 1)
      && Count(r.events, IsFailureGameOver) ==
           Crossings(g.buildingFailures, r.grid.buildingFailures, g.maxFailures)
  {
    var r := ServeBuilding(g, i, now);
    var b := g.buildings[i];
    if Due(b, now) && g.currentCapacity < Demand(g, b) {
      ShortfallEventCounts(b.name, g.buildingFailures + 1 >= g.maxFailures);
    }
  }

  /** Serving from building `i` on agrees with the reference: the store ends
      at what the due demands, met in roster order, leave over; exactly the
      buildings that fell short are reported, in order; and one failure game
      over is raised for every failure count reached at or above the limit. */
  lemma ServeFromReference(g: GridState, now: int, i: nat)
    requires i <= |g.buildings|
    ensures var r := ServeFrom(g, now, i);
      && r.grid.currentCapacity == Leftover(g, now, i, |g.buildings|)
      && OutageNames(r.events) == Shortfalls(g, now, i, |g.buildings|)
      && Count(r.events, IsFailureGameOver) ==
           Crossings(g.buildingFailures, r.grid.buildingFailures, g.maxFailures)
  {
    ServeFromShortfalls(g, now, i);
    ServeFromGameOvers(g, now, i);
  }

  /** Serving building `i` and then the reference from `i + 1` on the grid
      it leaves agrees with the reference from `i`: first for the capacity
      left, then for the shortfalls reported. */
  lemma ServeStepLeftover(g: GridState, now: int, i: nat, n: nat)
    requires i < |g.buildings| == n
    ensures |ServeBuilding(g, i, now).grid.buildings| == n
    ensures Leftover(ServeBuilding(g, i, now).grid, now, i + 1, n) == Leftover(g, now, i, n)
  {
    var first := ServeBuilding(g, i, now);
    ServeBuildingReport(g, i, now);
    assert ServedFirst(g, first.grid, now, i);
    LeftoverShift(g, first.grid, now, i, n);
  }

  lemma ServeStepShortfalls(g: GridState, now: int, i: nat, n: nat)
    requires i < |g.buildings| == n
    ensures |ServeBuilding(g, i, now).grid.buildings| == n
    ensures Shortfalls(g, now, i, n) ==
              OutageNames(ServeBuilding(g, i, now).events) + Shortfalls(ServeBuilding(g, i, now).grid, now, i + 1, n)
  {
    var first := ServeBuilding(g, i, now);
    ServeBuildingReport(g, i, now);
    assert ServedFirst(g, first.grid, now, i);
    ShortfallsShift(g, first.grid, now, i, n);
  }

  lemma {:induction false} ServeFromGameOvers(g: GridState, now: int, i: nat)
    requires i <= |g.buildings|
    decreases |g.buildings| - i
    ensures Count(ServeFrom(g, now, i).events, IsFailureGameOver) ==
              Crossings(g.buildingFailures, ServeFrom(g, now, i).grid.buildingFailures, g.maxFailures)
  {
    if i < |g.buildings| {
      var first := ServeBuilding(g, i, now);
      var rest := ServeFrom(first.grid, now, i + 1);
      assert ServeFrom(g, now, i) == Transition(rest.grid, first.events + rest.events);
      ServeBuildingReport(g, i, now);
      ServeFromGameOvers(first.grid, now, i + 1);
      CountAppend(first.events, rest.events, IsFailureGameOver);
      CrossingsAdd(g.buildingFailures, first.grid.buildingFailures, rest.grid.buildingFailures, g.maxFailures);
    }
  }

  /** The base drain of a tick: the current consumption, floored at zero. */
  function Drain(g: GridState): (r: GridState)
    ensures r.currentCapacity >= 0.0
    ensures r.currentCapacity == 0.0 || r.currentCapacity == g.currentCapacity - g.currentConsumption
    ensures r.currentCapacity >= g.currentCapacity - g.currentConsumption
    ensures r == g.(currentCapacity := r.currentCapacity)
    ensures Valid(g) ==> Valid(r) && r.currentCapacity <= g.currentCapacity
  {
    var r := g.(currentCapacity := Max(0.0, g.currentCapacity - g.currentConsumption));
    assert Valid(g) ==> Valid(r) && r.currentCapacity <= g.currentCapacity by {
      if Valid(g) {
        MulNonNegative(g.config.baseConsumption, g.config.demandSpikeMultiplier);
      }
    }
    r
  }

  /** The one-second consumption tick: the base drain, then every due
      building served in roster order, then a status check. The tick runs
      whether or not the grid has blacked out. */
  function ConsumeEnergy(g: GridState, now: int): (r: Transition)
    ensures SameRoster(g.buildings, r.grid.buildings)
    ensures forall j :: 0 <= j < |g.buildings| ==>
              r.grid.buildings[j].lastConsumption ==
                (if Due(g.buildings[j], now) then now else g.buildings[j].lastConsumption)
    ensures r.grid.config == g.config && r.grid.maxFailures == g.maxFailures
    ensures r.grid.demandSpikeActive == g.demandSpikeActive
    ensures r.grid.currentConsumption == g.currentConsumption
    ensures r.grid.overloaded <==> r.grid.currentCapacity >= g.config.overloadThreshold
    ensures r.grid.blackout <==>
              || g.blackout
              || r.grid.currentCapacity >= g.config.blackoutThreshold
              || r.grid.currentCapacity == 0.0
    ensures Valid(g) ==> Valid(r.grid) && r.grid.currentCapacity <= Drain(g).currentCapacity
  {
    var served := ServeFrom(Drain(g), now, 0);
    var status := CheckStatus(served.grid);
    assert Valid(g) ==> Valid(served.grid) && served.grid.currentCapacity <= Drain(g).currentCapacity by {
      if Valid(g) {
        ServeFromValid(Drain(g), now, 0);
      }
    }
    Transition(status.grid, served.events + status.events)
  }

  /** Every event raised while serving buildings is an outage warning or a
      failure game over. */
  predicate ServingEvent(e: Event)
  {
    IsOutage(e) || IsFailureGameOver(e)
  }

  lemma {:induction false} ServeFromEventKinds(g: GridState, now: int, i: nat)
    requires i <= |g.buildings|
    decreases |g.buildings| - i
    ensures forall k :: 0 <= k < |ServeFrom(g, now, i).events| ==>
              ServingEvent(ServeFrom(g, now, i).events[k])
  {
    if i < |g.buildings| {
      var first := ServeBuilding(g, i, now);
      var rest := ServeFrom(first.grid, now, i + 1);
      assert ServeFrom(g, now, i) == Transition(rest.grid, first.events + rest.events);
      ServeFromEventKinds(first.grid, now, i + 1);
      assert forall k :: 0 <= k < |first.events| ==> ServingEvent(first.events[k]);
    }
  }

  /** The serving part of a tick's events: one failure per outage reported,
      the outages in the order of the reference `Shortfalls`, a failure game
      over for each failure count reached at or above the limit, and at most
      one blackout game over, only when the latch closes. */
  lemma ConsumeEnergyEvents(g: GridState, now: int)
    ensures var r := ConsumeEnergy(g, now);
      && r.grid.buildingFailures == g.buildingFailures + Count(r.events, IsOutage)
      && Count(r.events, IsFailureGameOver) ==
           Crossings(g.buildingFailures, r.grid.buildingFailures, g.maxFailures)
      && r.grid.currentCapacity == Leftover(Drain(g), now, 0, |g.buildings|)
      && OutageNames(r.events) == Shortfalls(Drain(g), now, 0, |g.buildings|)
      && (g.blackout ==> r.grid.blackout)
      && Count(r.events, IsBlackout) == (if !g.blackout && r.grid.blackout then 1 else 0)
  {
    var served := ServeFrom(Drain(g), now, 0);
    var status := CheckStatus(served.grid);
    ServeFromReference(Drain(g), now, 0);
    CountAppend(served.events, status.events, IsOutage);
    CountAppend(served.events, status.events, IsFailureGameOver);
    CountAppend(served.events, status.events, IsBlackout);
    OutageNamesAppend(served.events, status.events);
    OutageNamesCount(status.events);
  }

  /** The status part of a tick's events: the overload warning exactly on
      the edge into overload, the over-supply or depletion game over exactly
      when the latch closes for that cause, and no event of any other kind. */
  lemma ConsumeEnergyStatus(g: GridState, now: int)
    ensures var r := ConsumeEnergy(g, now);
      && (ShowWarning(Overload) in r.events <==>
            !g.overloaded && r.grid.currentCapacity >= g.config.overloadThreshold)
      && (GameOver(OverSupply) in r.events <==>
            !g.blackout && r.grid.currentCapacity >= g.config.blackoutThreshold)
      && (GameOver(Depletion) in r.events <==>
            && !g.blackout
            && r.grid.currentCapacity < g.config.blackoutThreshold
            && r.grid.currentCapacity == 0.0)
      && |r.events| ==
           Count(r.events, IsOutage) + Count(r.events, IsFailureGameOver) + Count(r.events, IsBlackout)
           + (if !g.overloaded && r.grid.currentCapacity >= g.config.overloadThreshold then 1 else 0)
  {
    var served := ServeFrom(Drain(g), now, 0);
    var status := CheckStatus(served.grid);
    ServeFromEventKinds(Drain(g), now, 0);
    CountSplit(served.events, IsOutage, IsFailureGameOver);
    assert ShowWarning(Overload) !in served.events;
    assert GameOver(OverSupply) !in served.events;
    assert GameOver(Depletion) !in served.events;
    CountAppend(served.events, status.events, IsOutage);
    CountAppend(served.events, status.events, IsFailureGameOver);
    CountAppend(served.events, status.events, IsBlackout);
  }

  /** The order of a tick's events: first the serving pass's shortfall
      report, each failure game over right after the outage that reached the
      limit; then the status check's overload warning, on an edge; and the
      blackout game over, when the latch closes, last of all. */
  lemma ConsumeEnergyOrder(g: GridState, now: int)
    ensures var r := ConsumeEnergy(g, now);
      var k := Count(r.events, IsOutage) + Count(r.events, IsFailureGameOver);
      && k <= |r.events|
      && r.events[..k] ==
           ShortfallReport(Shortfalls(Drain(g), now, 0, |g.buildings|), g.buildingFailures, g.maxFailures)
      && (!g.overloaded && r.grid.currentCapacity >= g.config.overloadThreshold ==>
            k < |r.events| && r.events[k] == ShowWarning(Overload))
      && (!g.blackout && r.grid.blackout ==> 0 < |r.events| && IsBlackout(r.events[|r.events| - 1]))
  {
    var served := ServeFrom(Drain(g), now, 0);
    var status := CheckStatus(served.grid);
    var r := ConsumeEnergy(g, now);
    assert r.events == served.events + status.events;
    assert |served.events| == Count(r.events, IsOutage) + Count(r.events, IsFailureGameOver) by {
      ServeFromEventKinds(Drain(g), now, 0);
      CountSplit(served.events, IsOutage, IsFailureGameOver);
      CountAppend(served.events, status.events, IsOutage);
      CountAppend(served.events, status.events, IsFailureGameOver);
    }
    assert served.events ==
             ShortfallReport(Shortfalls(Drain(g), now, 0, |g.buildings|), g.buildingFailures, g.maxFailures) by {
      ServeFromReport(Drain(g), now, 0);
      ServeFromShortfalls(Drain(g), now, 0);
    }
    assert r.events[..|served.events|] == served.events;
  }

  /** A tick whose drained store covers every due demand reports no outage
      and lowers the store by exactly the due demands. */
  lemma TickCovered(g: GridState, now: int)
    requires Valid(g)
    requires Drain(g).currentCapacity >= DueDemand(Drain(g), now, 0, |g.buildings|)
    ensures var r := ConsumeEnergy(g, now);
      && r.grid.currentCapacity == Drain(g).currentCapacity - DueDemand(Drain(g), now, 0, |g.buildings|)
      && Count(r.events, IsOutage) == 0
      && r.grid.buildingFailures == g.buildingFailures
  {
    var r := ConsumeEnergy(g, now);
    ConsumeEnergyEvents(g, now);
    CoveredServing(Drain(g), now, 0, |g.buildings|);
    OutageNamesCount(r.events);
  }

  /** A tick that drains the store to nothing reports every due building
      that draws anything, in roster order, counts one failure for each, and
      leaves the grid empty and blacked out. */
  lemma TickOnEmptyGrid(g: GridState, now: int)
    requires Valid(g) && g.currentCapacity <= g.currentConsumption
    ensures var r := ConsumeEnergy(g, now);
      && r.grid.currentCapacity == 0.0
      && OutageNames(r.events) == DueNames(Drain(g), now, 0, |g.buildings|)
      && r.grid.buildingFailures == g.buildingFailures + |DueNames(Drain(g), now, 0, |g.buildings|)|
      && r.grid.blackout
  {
    var r := ConsumeEnergy(g, now);
    ConsumeEnergyEvents(g, now);
    EmptyServing(Drain(g), now, 0, |g.buildings|);
    OutageNamesCount(r.events);
  }

  // ---------------------------------------------------------------------
  // Demand spikes
  // ---------------------------------------------------------------------

  /** Starts a spike: consumption becomes the base rate times the spike
      multiplier. The caller schedules `EndDemandSpike` after the spike's
      duration. */
  function StartDemandSpike(g: GridState): (r: Transition)
    ensures r.grid.demandSpikeActive
    ensures r.grid.currentConsumption == g.config.baseConsumption * g.config.demandSpikeMultiplier
    ensures r.events == [ShowWarning(DemandSpike)]
    ensures r.grid == g.(demandSpikeActive := true, currentConsumption := r.grid.currentConsumption)
    ensures Valid(g) ==> Valid(r.grid)
  {
    Transition(g.(demandSpikeActive := true,
                  currentConsumption := g.config.baseConsumption * g.config.demandSpikeMultiplier),
               [ShowWarning(DemandSpike)])
  }

  /** Ends a spike and restores the base consumption. */
  function EndDemandSpike(g: GridState): (r: Transition)
    ensures !r.grid.demandSpikeActive
    ensures r.grid.currentConsumption == g.config.baseConsumption
    ensures r.events == []
    ensures r.grid == g.(demandSpikeActive := false, currentConsumption := r.grid.currentConsumption)
    ensures Valid(g) ==> Valid(r.grid)
  {
    Transition(g.(demandSpikeActive := false, currentConsumption := g.config.baseConsumption), [])
  }

  /** The periodic spike check. `roll` stands for the random draw falling
      below the spike probability. While a spike is active nothing happens,
      so spikes never stack. */
  function CheckDemandSpike(g: GridState, roll: bool): (r: Transition)
    ensures g.demandSpikeActive ==> r == Transition(g, [])
    ensures !g.demandSpikeActive && !roll ==> r == Transition(g, [])
    ensures !g.demandSpikeActive && roll ==>
              && r.grid == g.(demandSpikeActive := true,
                              currentConsumption := SpikeConsumption(g.config, true))
              && r.events == [ShowWarning(DemandSpike)]
    ensures Valid(g) ==> Valid(r.grid)
  {
    if g.demandSpikeActive then Transition(g, [])
    else if roll then StartDemandSpike(g)
    else Transition(g, [])
  }

  // ---------------------------------------------------------------------
  // Display
  // ---------------------------------------------------------------------

  /** Fill colour of the grid bar: red at or above the overload threshold,
      yellow from 80 % of it, green below. */
  function Fill(g: GridState): (colour: FillColour)
    ensures colour == Red <==> g.currentCapacity >= g.config.overloadThreshold
    ensures colour == Yellow <==>
              g.config.overloadThreshold * 0.8 <= g.currentCapacity < g.config.overloadThreshold
    ensures colour == Green <==>
              g.currentCapacity < g.config.overloadThreshold
              && g.currentCapacity < g.config.overloadThreshold * 0.8
  {
    if g.currentCapacity >= g.config.overloadThreshold then Red
    else if g.currentCapacity >= g.config.overloadThreshold * 0.8 then Yellow
    else Green
  }

  function Severity(c: FillColour): nat
  {
    match c
    case Green => 0
    case Yellow => 1
    case Red => 2
  }

  /** With a non-negative threshold, more stored energy never shows a less
      severe colour. */
  lemma FillMonotone(g: GridState, h: GridState)
    requires g.config == h.config && 0.0 <= g.config.overloadThreshold
    requires g.currentCapacity <= h.currentCapacity
    ensures Severity(Fill(g)) <= Severity(Fill(h))
  {
  }

  /** After a status check, the bar is red exactly when the grid is flagged
      overloaded. */
  lemma FillRedIffOverloaded(g: GridState)
    ensures Fill(CheckStatus(g).grid) == Red <==> CheckStatus(g).grid.overloaded
  {
  }

  // ---------------------------------------------------------------------
  // Runs of steps
  // ---------------------------------------------------------------------

  function Apply(g: GridState, s: Step): Transition
  {
    match s
    case Add(amount) => AddEnergy(g, amount).0
    case Tick(now) => ConsumeEnergy(g, now)
    case SpikeCheck(roll) => CheckDemandSpike(g, roll)
    case SpikeEnd => EndDemandSpike(g)
  }

  /** The grid after the steps, in order, with all their events. */
  function Run(g: GridState, steps: seq<Step>): Transition
    decreases |steps|
  {
    if |steps| == 0 then Transition(g, [])
    else
      var first := Apply(g, steps[0]);
      var rest := Run(first.grid, steps[1..]);
      Transition(rest.grid, first.events + rest.events)
  }

  /** What every single step promises about failures and blackouts. */
  lemma ApplyEvents(g: GridState, s: Step)
    ensures var r := Apply(g, s);
      && r.grid.buildingFailures == g.buildingFailures + Count(r.events, IsOutage)
      && r.grid.maxFailures == g.maxFailures
      && Count(r.events, IsFailureGameOver) ==
           Crossings(g.buildingFailures, r.grid.buildingFailures, g.maxFailures)
      && (g.blackout ==> r.grid.blackout)
      && Count(r.events, IsBlackout) == (if !g.blackout && r.grid.blackout then 1 else 0)
  {
    match s
    case Tick(now) => ConsumeEnergyEvents(g, now);
    case SpikeCheck(roll) =>
      var r := CheckDemandSpike(g, roll);
      assert r.events == [] || r.events == [ShowWarning(DemandSpike)];
    case Add(_) =>
    case SpikeEnd =>
  }

  predicate NonNegativeAdds(steps: seq<Step>)
  {
    forall k :: 0 <= k < |steps| && steps[k].Add? ==> 0.0 <= steps[k].amount
  }

  /** Whatever the timers and players do, with non-negative energy inputs
      the capacity stays within `0 .. maxCapacity`. */
  lemma {:induction false} RunPreservesValid(g: GridState, steps: seq<Step>)
    requires Valid(g) && NonNegativeAdds(steps)
    ensures Valid(Run(g, steps).grid)
    decreases |steps|
  {
    if |steps| > 0 {
      var first := Apply(g, steps[0]);
      assert Valid(first.grid);
      assert NonNegativeAdds(steps[1..]) by {
        forall k | 0 <= k < |steps[1..]| && steps[1..][k].Add?
          ensures 0.0 <= steps[1..][k].amount
        {
          assert steps[1..][k] == steps[k + 1];
        }
      }
      RunPreservesValid(first.grid, steps[1..]);
    }
  }

  /** The blackout latch never opens again, and a whole session emits at
      most one blackout game over. */
  lemma {:induction false} RunBlackoutOnce(g: GridState, steps: seq<Step>)
    ensures g.blackout ==> Run(g, steps).grid.blackout
    ensures Count(Run(g, steps).events, IsBlackout) ==
              (if !g.blackout && Run(g, steps).grid.blackout then 1 else 0)
    decreases |steps|
  {
    if |steps| > 0 {
      var first := Apply(g, steps[0]);
      var rest := Run(first.grid, steps[1..]);
      ApplyEvents(g, steps[0]);
      RunBlackoutOnce(first.grid, steps[1..]);
      CountAppend(first.events, rest.events, IsBlackout);
    }
  }

  /** The failure counter never decreases: it grows by exactly the number of
      building outages reported. */
  lemma {:induction false} RunFailuresCount(g: GridState, steps: seq<Step>)
    ensures Run(g, steps).grid.buildingFailures ==
              g.buildingFailures + Count(Run(g, steps).events, IsOutage)
    ensures Run(g, steps).grid.buildingFailures >= g.buildingFailures
    decreases |steps|
  {
    if |steps| > 0 {
      var first := Apply(g, steps[0]);
      var rest := Run(first.grid, steps[1..]);
      ApplyEvents(g, steps[0]);
      RunFailuresCount(first.grid, steps[1..]);
      CountAppend(first.events, rest.events, IsOutage);
    }
  }

  /** Over a whole session, one failure game over is raised for every value
      the failure counter takes at or above the limit. */
  lemma {:induction false} RunFailureGameOvers(g: GridState, steps: seq<Step>)
    ensures Run(g, steps).grid.maxFailures == g.maxFailures
    ensures Run(g, steps).grid.buildingFailures >= g.buildingFailures
    ensures Count(Run(g, steps).events, IsFailureGameOver) ==
              Crossings(g.buildingFailures, Run(g, steps).grid.buildingFailures, g.maxFailures)
    decreases |steps|
  {
    if |steps| > 0 {
      var first := Apply(g, steps[0]);
      var rest := Run(first.grid, steps[1..]);
      ApplyEvents(g, steps[0]);
      RunFailureGameOvers(first.grid, steps[1..]);
      CountAppend(first.events, rest.events, IsFailureGameOver);
      CrossingsAdd(g.buildingFailures, first.grid.buildingFailures, rest.grid.buildingFailures, g.maxFailures);
    }
  }

  // ---------------------------------------------------------------------
  // Quirks of the game, stated as properties
  // ---------------------------------------------------------------------

  /** Once the failure limit is reached, every later outage in the rest of
      the session asks for a game over again: the failure game over is not
      latched. */
  lemma FailureGameOverRepeats(g: GridState, steps: seq<Step>)
    requires g.buildingFailures >= g.maxFailures
    ensures Count(Run(g, steps).events, IsFailureGameOver) ==
              Count(Run(g, steps).events, IsOutage)
  {
    RunFailuresCount(g, steps);
    RunFailureGameOvers(g, steps);
  }

  /** From a fresh grid, the first four outages of a session raise no
      failure game over, and the fifth and every one after it raise one
      each. The request does not end the session. */
  lemma FailureGameOversFromFifth(c: Config, steps: seq<Step>)
    ensures var r := Run(Init(c), steps);
      Count(r.events, IsFailureGameOver) ==
        (if r.grid.buildingFailures < 5 then 0 else r.grid.buildingFailures - 4)
  {
    RunFailureGameOvers(Init(c), steps);
  }

  /** The tick keeps draining a blacked-out grid: nothing stops the timers. */
  lemma TickAfterBlackout(g: GridState, now: int)
    requires Valid(g) && g.blackout && 0.0 < g.currentConsumption <= g.currentCapacity
    ensures ConsumeEnergy(g, now).grid.currentCapacity < g.currentCapacity
    ensures ConsumeEnergy(g, now).grid.blackout
  {
  }

  /** The grid starts empty, so the first status check, here made by a tick
      before any building is due, blacks the grid out for depletion. */
  lemma FirstTickOnEmptyGridBlacksOut(c: Config, now: int)
    requires ValidConfig(c) && 0.0 < c.blackoutThreshold && now < 10000
    ensures ConsumeEnergy(Init(c), now).grid.blackout
    ensures GameOver(Depletion) in ConsumeEnergy(Init(c), now).events
  {
    var g := Init(c);
    var drained := g.(currentCapacity := Max(0.0, g.currentCapacity - g.currentConsumption));
    assert drained.currentCapacity == 0.0;
    assert forall j :: 0 <= j < |g.buildings| ==> !Due(g.buildings[j], now);
    ServeFromNoneDue(drained, now, 0);
  }

  /** A spike ended right after it started gives the grid back as it was. */
  lemma SpikeRoundTrip(g: GridState)
    requires Valid(g) && !g.demandSpikeActive
    ensures EndDemandSpike(StartDemandSpike(g).grid).grid == g
  {
  }

  /** A worked session: 85 units in, one tick, then 20 more units. */
  lemma OverSupplyScenario()
    ensures
      var c := Config(100.0, 80.0, 100.0, 2.0, 1.5);
      var a := AddEnergy(Init(c), 85.0).0;
      var t := ConsumeEnergy(a.grid, 1000);
      var b := AddEnergy(t.grid, 20.0).0;
      && a.grid.overloaded && a.events == [ShowWarning(Overload)]
      && t.grid.currentCapacity == 83.0 && t.grid.overloaded && t.events == []
      && b.grid.currentCapacity == 100.0 && b.grid.blackout
      && b.events == [GameOver(OverSupply)]
  {
    var c := Config(100.0, 80.0, 100.0, 2.0, 1.5);
    var g0 := Init(c);
    var a := AddEnergy(g0, 85.0).0;
    assert a.grid == g0.(currentCapacity := 85.0, overloaded := true);
    var drained := a.grid.(currentCapacity := 83.0);
    assert Drain(a.grid) == drained;
    assert forall j :: 0 <= j < |drained.buildings| ==> !Due(drained.buildings[j], 1000);
    ServeFromNoneDue(drained, 1000, 0);
    var t := ConsumeEnergy(a.grid, 1000);
    assert t.grid == drained && t.events == [] + [];
  }
}
