/**
 * Session bookkeeping of the game scene: the role bonuses chosen at start,
 * crediting collected energy to the grid, the per-frame countdown with its
 * timeout and win decisions, the game-over and game-won latches, and the
 * random obstacle timer.
 *
 * The scene's `gameOver` and `energyCollected` are both fields and names
 * called as functions in the game; here the fields are `gameOver` and
 * `collected`, and the calls are the operations `EndGame` and
 * `CollectEnergy`. Timer callbacks are explicit steps; the random obstacle
 * choice is an index input.
 */
module GameScene {

  import opened Wrappers
  import opened Counting
  import Grid

  datatype RoleBonus = RoleBonus(
    collectionMultiplier: real,
    repairTimeMultiplier: real,
    warningTimeMultiplier: real,
    gridEfficiencyMultiplier: real)

  const DefaultBonus: RoleBonus := RoleBonus(1.0, 1.0, 1.0, 1.0)

  datatype ObstacleKind = Storm | Calm | Drought | Flood

  const ObstacleKinds: seq<ObstacleKind> := [Storm, Calm, Drought, Flood]

  /** The random pick among the four obstacle kinds. */
  type ObstacleRoll = i: nat | i < 4

  /** An obstacle announced by the scene; `active` is set when its warning
      time has passed. */
  datatype Obstacle = Obstacle(kind: ObstacleKind, active: bool)

  datatype EndReason = TimeUp | Won

  datatype Event =
    | GameEnded(reason: EndReason, success: bool)
    | ObstacleWarning(kind: ObstacleKind)
    | FromGrid(event: Grid.Event)

  datatype Session = Session(
    gameMode: string,
    playerRole: Option<string>,
    gameOver: bool,
    gameWon: bool,
    collected: real,
    energyTarget: real,
    timeRemaining: real,
    activeObstacle: Option<Obstacle>,
    roleBonus: RoleBonus,
    grid: Grid.GridState,
    obstacleTimerRunning: bool)

  datatype Transition = Transition(session: Session, events: seq<Event>)

  /** One input the frame loop, the timers or the players deliver. */
  datatype Step =
    | Frame(delta: real)
    | TimeUpSignal
    | Collect(amount: real)
    | ObstacleTimer(roll: ObstacleRoll)
    | ObstacleWarningElapsed
    | GridTimer(step: Grid.Step)

  const ObstacleBaseDelay: real := 20000.0

  // ---------------------------------------------------------------------
  // Role bonuses
  // ---------------------------------------------------------------------

  /** The bonus table: each known role raises one multiplier; no role, an
      empty role or an unknown role keeps every multiplier at 1. */
  function ApplyRoleBonus(role: Option<string>): (b: RoleBonus)
    ensures b.collectionMultiplier == (if role == Some("Collector") then 1.2 else 1.0)
    ensures b.repairTimeMultiplier == (if role == Some("Engineer") then 0.7 else 1.0)
    ensures b.warningTimeMultiplier == (if role == Some("Strategist") then 1.5 else 1.0)
    ensures b.gridEfficiencyMultiplier == (if role == Some("Grid Manager") then 1.15 else 1.0)
  {
    if role.None? || role.value == "" then DefaultBonus
    else if role.value == "Collector" then DefaultBonus.(collectionMultiplier := 1.2)
    else if role.value == "Engineer" then DefaultBonus.(repairTimeMultiplier := 0.7)
    else if role.value == "Strategist" then DefaultBonus.(warningTimeMultiplier := 1.5)
    else if role.value == "Grid Manager" then DefaultBonus.(gridEfficiencyMultiplier := 1.15)
    else DefaultBonus
  }

  /** How many multipliers differ from the default. */
  function Changed(b: RoleBonus): nat
  {
    (if b.collectionMultiplier != 1.0 then 1 else 0)
    + (if b.repairTimeMultiplier != 1.0 then 1 else 0)
    + (if b.warningTimeMultiplier != 1.0 then 1 else 0)
    + (if b.gridEfficiencyMultiplier != 1.0 then 1 else 0)
  }

  /** A role changes at most one multiplier, and every bonus helps the
      player: collection, warning time and efficiency grow, repair time
      shrinks. */
  lemma RoleBonusShape(role: Option<string>)
    ensures Changed(ApplyRoleBonus(role)) <= 1
    ensures Changed(ApplyRoleBonus(role)) == 0 <==> ApplyRoleBonus(role) == DefaultBonus
    ensures var b := ApplyRoleBonus(role);
      && b.collectionMultiplier >= 1.0 && b.warningTimeMultiplier >= 1.0
      && b.gridEfficiencyMultiplier >= 1.0 && 0.0 < b.repairTimeMultiplier <= 1.0
  {
  }

  /** Period of the obstacle timer, stretched by the warning-time bonus. */
  function ObstacleDelay(b: RoleBonus): real
  {
    ObstacleBaseDelay * b.warningTimeMultiplier
  }

  lemma ObstacleDelayByRole(role: Option<string>)
    ensures ObstacleDelay(ApplyRoleBonus(role)) ==
              (if role == Some("Strategist") then 30000.0 else 20000.0)
  {
  }

  // ---------------------------------------------------------------------
  // Session start
  // ---------------------------------------------------------------------

  /** Invariant: the obstacle timer runs exactly until the game ends, and a
      won game is an ended game. */
  predicate Valid(s: Session)
  {
    && (s.obstacleTimerRunning <==> !s.gameOver)
    && (s.gameWon ==> s.gameOver)
  }

  /** The scene's `init` followed by its `create`: defaults, the role bonus,
      the objectives and a fresh grid. A missing or empty game mode reads as
      "single". */
  function Start(mode: Option<string>, role: Option<string>, gridConfig: Grid.Config,
                 energyTarget: real, timeLimit: real): (s: Session)
    ensures Valid(s) && !s.gameOver && !s.gameWon
    ensures s.gameMode == (if mode.None? || mode.value == "" then "single" else mode.value)
    ensures s.playerRole == role
    ensures s.collected == 0.0 && s.activeObstacle == None
    ensures s.energyTarget == energyTarget && s.timeRemaining == timeLimit
    ensures s.roleBonus == ApplyRoleBonus(role)
    ensures s.grid == Grid.Init(gridConfig) && s.grid.currentCapacity == 0.0
    ensures Grid.ValidConfig(gridConfig) ==> Grid.Valid(s.grid)
  {
    var gameMode := if mode.None? || mode.value == "" then "single" else mode.value;
    Session(gameMode, role, false, false, 0.0, energyTarget, timeLimit, None,
            ApplyRoleBonus(role), Grid.Init(gridConfig), true)
  }

  // ---------------------------------------------------------------------
  // Energy collection
  // ---------------------------------------------------------------------

  function LiftGridEvents(evs: seq<Grid.Event>): (r: seq<Event>)
    ensures |r| == |evs|
    ensures forall k :: 0 <= k < |evs| ==> r[k] == FromGrid(evs[k])
  {
    seq(|evs|, k requires 0 <= k < |evs| => FromGrid(evs[k]))
  }

  /** Collecting `amount` scales it by the collection multiplier, credits it
      to the grid and, when the grid accepts it (it always does), to the
      running total. Nothing here looks at whether the game is over. */
  function CollectEnergy(s: Session, amount: real): (r: Transition)
    ensures r.session.collected == s.collected + amount * s.roleBonus.collectionMultiplier
    ensures r.session.grid.currentCapacity ==
              Grid.Min(s.grid.currentCapacity + amount * s.roleBonus.collectionMultiplier,
                       s.grid.config.maxCapacity)
    ensures r.session.grid == Grid.AddEnergy(s.grid, amount * s.roleBonus.collectionMultiplier).0.grid
    ensures r.events == LiftGridEvents(Grid.AddEnergy(s.grid, amount * s.roleBonus.collectionMultiplier).0.events)
    ensures r.session == s.(grid := r.session.grid, collected := r.session.collected)
    ensures forall k :: 0 <= k < |r.events| ==> r.events[k].FromGrid?
    ensures Valid(s) ==> Valid(r.session)
  {
    var adjusted := amount * s.roleBonus.collectionMultiplier;
    var added := Grid.AddEnergy(s.grid, adjusted);
    var collected := if added.1 then s.collected + adjusted else s.collected;
    Transition(s.(grid := added.0.grid, collected := collected), LiftGridEvents(added.0.events))
  }

  /** While the grid has room, the total and the grid's store rise by the
      same adjusted amount. */
  lemma CollectMatchesGrid(s: Session, amount: real)
    requires s.grid.currentCapacity + amount * s.roleBonus.collectionMultiplier <= s.grid.config.maxCapacity
    ensures var r := CollectEnergy(s, amount).session;
      r.collected - s.collected == r.grid.currentCapacity - s.grid.currentCapacity
  {
  }

  /** On a full grid the collected total still rises by the adjusted amount
      while the store stays where it was. */
  lemma CollectOnFullGrid(s: Session, amount: real)
    requires s.grid.currentCapacity == s.grid.config.maxCapacity
    requires 0.0 < amount * s.roleBonus.collectionMultiplier
    ensures var r := CollectEnergy(s, amount).session;
      && r.collected > s.collected
      && r.grid.currentCapacity == s.grid.currentCapacity
  {
  }

  // ---------------------------------------------------------------------
  // Ending the game
  // ---------------------------------------------------------------------

  /** Ends the game: sets the latch, stops the obstacle timer and reports the
      outcome. */
  function EndGame(s: Session, reason: EndReason, success: bool): (r: Transition)
    ensures r.session.gameOver && !r.session.obstacleTimerRunning
    ensures r.events == [GameEnded(reason, success)]
    ensures r.session == s.(gameOver := true, obstacleTimerRunning := false)
  {
    Transition(s.(gameOver := true, obstacleTimerRunning := false), [GameEnded(reason, success)])
  }

  /** The time-up signal: ends the game, unsuccessfully, unless it is already
      over. */
  function OnTimeUp(s: Session): (r: Transition)
    ensures s.gameOver ==> r == Transition(s, [])
    ensures !s.gameOver ==> r.session.gameOver && r.events == [GameEnded(TimeUp, false)]
    ensures !s.gameOver ==> r.session == s.(gameOver := true, obstacleTimerRunning := false)
    ensures r.session.gameWon == s.gameWon
    ensures Valid(s) ==> Valid(r.session)
  {
    if !s.gameOver then EndGame(s, TimeUp, false) else Transition(s, [])
  }

  /** Wins: sets the won latch and ends the game successfully. */
  function WinGame(s: Session): (r: Transition)
    ensures r.session.gameWon && r.session.gameOver
    ensures r.events == [GameEnded(Won, true)]
    ensures r.session == s.(gameWon := true, gameOver := true, obstacleTimerRunning := false)
    ensures Valid(r.session)
  {
    EndGame(s.(gameWon := true), Won, true)
  }

  /** One frame of `delta` milliseconds. Nothing happens once the game is
      over. Otherwise the countdown runs; at or below zero the frame ends
      with the timeout, before any win check; else reaching the target wins,
      once. */
  function Update(s: Session, delta: real): (r: Transition)
    ensures s.gameOver ==> r == Transition(s, [])
    ensures !s.gameOver ==> r.session.timeRemaining == s.timeRemaining - delta
    ensures !s.gameOver && s.timeRemaining - delta <= 0.0 ==>
              && r.session.gameOver && r.session.gameWon == s.gameWon
              && r.events == [GameEnded(TimeUp, false)]
              && r.session == s.(timeRemaining := s.timeRemaining - delta,
                                 gameOver := true, obstacleTimerRunning := false)
    ensures !s.gameOver && s.timeRemaining - delta > 0.0 ==>
              (r.session.gameWon && !s.gameWon <==> s.collected >= s.energyTarget && !s.gameWon)
    ensures GameEnded(Won, true) in r.events ==>
              !s.gameOver && !s.gameWon && s.collected >= s.energyTarget && s.timeRemaining - delta > 0.0
    ensures !s.gameOver && s.timeRemaining - delta > 0.0 && s.collected >= s.energyTarget && !s.gameWon ==>
              && r.session.gameOver && r.session.gameWon
              && r.events == [GameEnded(Won, true)]
              && r.session == s.(timeRemaining := s.timeRemaining - delta,
                                 gameWon := true, gameOver := true, obstacleTimerRunning := false)
    ensures !s.gameOver && s.timeRemaining - delta > 0.0 && !(s.collected >= s.energyTarget && !s.gameWon) ==>
              r == Transition(s.(timeRemaining := s.timeRemaining - delta), [])
    ensures r.session.collected == s.collected && r.session.grid == s.grid
    ensures Valid(s) ==> Valid(r.session)
  {
    if s.gameOver then Transition(s, [])
    else
      var s1 := s.(timeRemaining := s.timeRemaining - delta);
      if s1.timeRemaining <= 0.0 then OnTimeUp(s1)
      else if s1.collected >= s1.energyTarget && !s1.gameWon then WinGame(s1)
      else Transition(s1, [])
  }

  // ---------------------------------------------------------------------
  // Obstacles
  // ---------------------------------------------------------------------

  /** The obstacle timer's callback: while an obstacle is active nothing
      happens; otherwise the rolled kind is announced and replaces any
      obstacle still in its warning time. */
  function SpawnRandomObstacle(s: Session, roll: ObstacleRoll): (r: Transition)
    ensures s.activeObstacle.Some? && s.activeObstacle.value.active ==> r == Transition(s, [])
    ensures !(s.activeObstacle.Some? && s.activeObstacle.value.active) ==>
              && r.session.activeObstacle == Some(Obstacle(ObstacleKinds[roll], false))
              && r.events == [ObstacleWarning(ObstacleKinds[roll])]
    ensures r.session == s.(activeObstacle := r.session.activeObstacle)
  {
    if s.activeObstacle.Some? && s.activeObstacle.value.active then Transition(s, [])
    else
      var kind := ObstacleKinds[roll];
      Transition(s.(activeObstacle := Some(Obstacle(kind, false))), [ObstacleWarning(kind)])
  }

  /** The delayed call after the warning time: it activates whatever
      obstacle is current at that moment. */
  function ActivateObstacle(s: Session): (r: Session)
    ensures s.activeObstacle.None? ==> r == s
    ensures s.activeObstacle.Some? ==>
              r.activeObstacle == Some(s.activeObstacle.value.(active := true))
    ensures r == s.(activeObstacle := r.activeObstacle)
  {
    if s.activeObstacle.Some? then s.(activeObstacle := Some(s.activeObstacle.value.(active := true)))
    else s
  }

  /** An obstacle's life while the timer runs: the spawned obstacle waits
      out its warning time inactive, the delayed call activates exactly that
      obstacle, and from then on the timer's callbacks leave it alone until
      something clears it. */
  lemma ObstacleLifecycle(s: Session, roll: ObstacleRoll, later: ObstacleRoll)
    requires s.activeObstacle.None?
    ensures var spawned := SpawnRandomObstacle(s, roll);
      var active := ActivateObstacle(spawned.session);
      && spawned.session.activeObstacle == Some(Obstacle(ObstacleKinds[roll], false))
      && active == s.(activeObstacle := Some(Obstacle(ObstacleKinds[roll], true)))
      && SpawnRandomObstacle(active, later) == Transition(active, [])
  {
  }

  // ---------------------------------------------------------------------
  // Runs of steps
  // ---------------------------------------------------------------------

  function Apply(s: Session, step: Step): Transition
  {
    match step
    case Frame(delta) => Update(s, delta)
    case TimeUpSignal => OnTimeUp(s)
    case Collect(amount) => CollectEnergy(s, amount)
    case ObstacleTimer(roll) =>
      if s.obstacleTimerRunning then SpawnRandomObstacle(s, roll) else Transition(s, [])
    case ObstacleWarningElapsed => Transition(ActivateObstacle(s), [])
    case GridTimer(gs) =>
      var t := Grid.Apply(s.grid, gs);
      Transition(s.(grid := t.grid), LiftGridEvents(t.events))
  }

  function Run(s: Session, steps: seq<Step>): Transition
    decreases |steps|
  {
    if |steps| == 0 then Transition(s, [])
    else
      var first := Apply(s, steps[0]);
      var rest := Run(first.session, steps[1..]);
      Transition(rest.session, first.events + rest.events)
  }

  predicate IsGameEnded(e: Event) { e.GameEnded? }

  /** What every single step promises about the end of the game. */
  lemma ApplyEndsOnce(s: Session, step: Step)
    requires Valid(s)
    ensures var r := Apply(s, step);
      && Valid(r.session)
      && (s.gameOver ==> r.session.gameOver)
      && Count(r.events, IsGameEnded) == (if !s.gameOver && r.session.gameOver then 1 else 0)
  {
    match step
    case Collect(amount) =>
      CountNone(CollectEnergy(s, amount).events, IsGameEnded);
    case GridTimer(gs) =>
      var t := Grid.Apply(s.grid, gs);
      CountNone(LiftGridEvents(t.events), IsGameEnded);
    case ObstacleTimer(roll) =>
    case Frame(delta) =>
    case TimeUpSignal =>
    case ObstacleWarningElapsed =>
  }

  /** A session ends at most once: whatever frames, signals, collections and
      timer firings follow, exactly one end-of-game report is emitted if the
      game ends, and none once it has ended. */
  lemma {:induction false} RunEndsOnce(s: Session, steps: seq<Step>)
    requires Valid(s)
    ensures Valid(Run(s, steps).session)
    ensures s.gameOver ==> Run(s, steps).session.gameOver
    ensures Count(Run(s, steps).events, IsGameEnded) ==
              (if !s.gameOver && Run(s, steps).session.gameOver then 1 else 0)
    decreases |steps|
  {
    if |steps| > 0 {
      var first := Apply(s, steps[0]);
      var rest := Run(first.session, steps[1..]);
      ApplyEndsOnce(s, steps[0]);
      RunEndsOnce(first.session, steps[1..]);
      CountAppend(first.events, rest.events, IsGameEnded);
    }
  }
}
