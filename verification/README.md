# Solar Rush: the grid, the engineer and the session, in Dafny

This project models the core of the browser game "Energy Rush: Solar Sprint" and proves properties of it. The game simulates a city energy grid fed by renewable sources. The model has three parts:

- **Grid** (`grid.dfy`, module `Grid`). This models `Grid.js`. The grid stores energy up to `maxCapacity`. It serves a fixed roster of three buildings on their own cadences: hospital, charging station and factory. It also keeps an overload flag, a one-way blackout latch, a building-failure counter and an on/off demand spike.
  - Each timer callback is a pure step function:
    - `ConsumeEnergy(g, now)` is the one-second tick.
    - `CheckDemandSpike(g, roll)` is the ten-second spike check.
    - `EndDemandSpike` is the delayed end of a spike.
  - `now` and the random draw are inputs.
  - Warnings and game-over requests are returned as a sequence of events.
- **Engineer** (`engineer.dfy`, module `Engineer`). This models `Engineer.js`. It covers the `repairing` flag and the `currentTarget` identity, walking to a clicked point, and starting a repair. The repair's delayed completion is an explicit step, `CompleteRepair(e, captured)`. The per-frame update covers the arrival check and the first-match search for a broken source nearby. Distances are inputs.
- **GameScene** (`game_scene.dfy`, module `GameScene`). This models the session bookkeeping of `GameScene.js`:
  - the role-to-bonus table and the obstacle-timer delay derived from it;
  - crediting collected energy through the collection multiplier;
  - the per-frame countdown, with its timeout and win decisions;
  - the `gameOver` and `gameWon` latches;
  - the obstacle timer's guard.

Two small helper modules support these. `Wrappers` (`wrappers.dfy`) holds `Option`, which stands for JavaScript's `null`/`undefined`. `Counting` (`counting.dfy`) counts sequence elements and is used to count emitted events.

Capacities, consumptions and multipliers are Dafny `real`s, so the arithmetic is exact, unlike JavaScript doubles. Times are `int` milliseconds for the grid and `real` milliseconds for the frame countdown. Messages are represented by their cause rather than by their German text:

- `BuildingOutage(name)`, `Overload` and `DemandSpike` are warnings.
- `TooManyFailures`, `OverSupply` and `Depletion` are grid game-over causes.
- `TimeUp` and `Won` are scene endings.

Behaviours of the code that the model keeps as they are:

- `addEnergy` always answers `true` and has no guard for a terminal grid.
- Every shortfall adds exactly one failure, because `failurePoints` is never read.
- The failure game over is requested again on every later shortfall.
- Ticks continue after a blackout.
- A status check while the grid is still empty blacks it out for depletion.
- The Grid Manager's efficiency bonus is stored but never used.
- Energy is still credited after the game is over.
- A new obstacle replaces one that is still in its warning time.

## Model

| member | source | states |
|---|---|---|
| Grid.Init | solar-rush-game/js/entities/Grid.js:5-49 | A new grid keeps the given configuration and starts with consumption at the base value. It is empty, with all flags clear and no failures. Its failure limit is 5 and its roster is exactly the three standard buildings, none of them served yet. For a configuration with non-negative capacity, base consumption and spike multiplier it satisfies the grid invariant. |
| Grid.CheckStatus | solar-rush-game/js/entities/Grid.js:165-183 | Afterwards, `overloaded` holds exactly when capacity ≥ the overload threshold. The overload warning is emitted only on the false→true edge, and then it comes first. Blackout is a one-way latch. It closes on capacity ≥ the blackout threshold (over-supply, checked first) or on capacity = 0 (depletion). Exactly one blackout game over is emitted when it closes, as the last event, and none otherwise. No other event is emitted: the event count is exactly the number of these two edges. Nothing else changes. |
| Grid.AddEnergy | solar-rush-game/js/entities/Grid.js:108-113 | Always answers true, even after blackout. New capacity ≤ max and ≤ old + amount, and it equals one of them, so it is min(old + amount, max). The status check that follows: overloaded holds exactly when the new capacity ≥ the overload threshold, and the overload warning comes only on the edge into overload. The blackout latch holds afterwards exactly when it already held or the new capacity is ≥ the blackout threshold or exactly 0; the over-supply game over comes exactly when the latch closes at or above the threshold, and the depletion one exactly when it closes at 0 below it. There are no other events, and when both come the overload warning is first and the blackout game over last. A non-negative amount keeps 0 ≤ capacity ≤ max. |
| Grid.ServeBuilding | solar-rush-game/js/entities/Grid.js:125-153 | A building that is not due changes nothing. A due building gets `lastConsumption := now`. On success, capacity drops by exactly the spike-adjusted demand, with no failure and no event. On shortfall, capacity is unchanged and failures rise by exactly 1. The events are then exactly the outage warning naming the building, followed by a failure game over when the counter has reached the limit. No other building's record changes. |
| Grid.ServeFrom | solar-rush-game/js/entities/Grid.js:125-157 | Serving in roster order: every due building, and only those, gets `lastConsumption := now`. The store ends at exactly the capacity of the in-order reference `Leftover`. Failures grow by exactly the number of outages reported. No blackout game over is emitted. Only the store, the roster records and the failure counter change. |
| Grid.ServeFromValid | solar-rush-game/js/entities/Grid.js:125-157 | Serving keeps a valid grid valid and never raises its store. |
| Grid.ServeFromNoneDue | solar-rush-game/js/entities/Grid.js:125-127 | With no building due from `i` on, serving changes nothing and emits nothing. |
| Grid.ServeBuildingReport | solar-rush-game/js/entities/Grid.js:125-153 | Serving one building agrees with the one-building reference. Its name is reported exactly when it is due and the store is below its demand. The store ends at what the reference leaves. A failure game over comes exactly when that failure reaches the limit. |
| Grid.ServeFromReference | solar-rush-game/js/entities/Grid.js:125-157 | Serving from building `i` on leaves exactly the capacity of `Leftover`: each due building, in roster order, draws its demand when what the earlier ones left covers it. The outage warnings name exactly the buildings of `Shortfalls`, in order: those whose demand exceeds what the earlier ones left. There is exactly one failure game over per failure count reached at or above the limit. |
| Grid.ServeFromShortfalls | solar-rush-game/js/entities/Grid.js:125-157 | The outage warnings raised while serving from building `i` on name, in roster order, exactly the due buildings whose demand exceeds what the buildings before them left (`Shortfalls`). |
| Grid.ServeFromGameOvers | solar-rush-game/js/entities/Grid.js:146-153 | Serving from building `i` on raises exactly one failure game over for each failure count it reaches at or above the limit, and none below it. |
| Grid.ServeFromEventKinds | solar-rush-game/js/entities/Grid.js:125-157 | Serving buildings raises only outage warnings and failure game overs: no overload warning, spike warning or blackout game over comes from the buildings themselves. |
| Grid.ServeFromReport | solar-rush-game/js/entities/Grid.js:125-157 | Serving emits exactly the shortfall report of its own outages. Each outage warning is followed at once by a failure game over when that failure brings the counter to the limit or beyond, and by nothing else. |
| Grid.CoveredServing | solar-rush-game/js/entities/Grid.js:125-138 | On a valid grid whose store covers the sum of the due demands, no building falls short and the store drops by exactly that sum. |
| Grid.EmptyServing | solar-rush-game/js/entities/Grid.js:125-153 | On a valid grid with an empty store, the store stays empty and exactly the due buildings that draw anything fall short, in roster order. |
| Grid.Drain | solar-rush-game/js/entities/Grid.js:118 | The base drain leaves the capacity at old − consumption or at 0, whichever is larger, so it is never negative. On a valid grid it never raises the capacity. |
| Grid.ConsumeEnergy | solar-rush-game/js/entities/Grid.js:116-162 | A tick keeps the roster, except that exactly the due buildings get `lastConsumption := now`. Configuration, failure limit, spike flag and consumption are untouched. Overloaded then matches the final capacity, and the blackout latch holds exactly when it already held or the final capacity is ≥ the blackout threshold or exactly 0. A valid grid stays valid, and its capacity ends no higher than after the base drain. |
| Grid.ConsumeEnergyEvents | solar-rush-game/js/entities/Grid.js:116-182 | After the base drain, the tick leaves exactly the capacity the in-order reference `Leftover` gives, and names in its outage warnings exactly the buildings the reference `Shortfalls` gives, in roster order. It adds one failure per outage. Its failure game overs number exactly one per failure count reached at or above the limit. The blackout latch never reopens, and the tick emits a blackout game over only when the latch closes. |
| Grid.ConsumeEnergyStatus | solar-rush-game/js/entities/Grid.js:116-182 | The final status check of a tick raises the overload warning exactly on the edge into overload, and the over-supply or depletion game over exactly when the latch closes for that cause. Every event is one of these kinds or a serving event: the event count is outages + failure game overs + blackout game overs + the overload edge. |
| Grid.ConsumeEnergyOrder | solar-rush-game/js/entities/Grid.js:116-182 | A tick's events come in the source's order. First comes the serving pass, as the report of `Shortfalls` in roster order: each outage warning is followed at once by a failure game over exactly when its failure brings the counter to the limit or beyond. Then comes the overload warning, on an edge. The blackout game over, when the latch closes, is last of all. |
| Grid.TickCovered | solar-rush-game/js/entities/Grid.js:116-162 | On a valid grid, a tick whose drained store covers all due demands reports no outage. It adds no failure and lowers the drained store by exactly the due demands. |
| Grid.TickOnEmptyGrid | solar-rush-game/js/entities/Grid.js:116-182 | On a valid grid whose consumption eats the whole store, a tick reports every due building that draws anything, in roster order. It adds one failure each, leaves the store empty and blacks the grid out. |
| Grid.StartDemandSpike | solar-rush-game/js/entities/Grid.js:237-251 | Sets the spike flag and consumption = base × multiplier, and emits the spike warning. Nothing else changes. |
| Grid.EndDemandSpike | solar-rush-game/js/entities/Grid.js:254-258 | Clears the spike flag and restores consumption = base. Nothing else changes. |
| Grid.CheckDemandSpike | solar-rush-game/js/entities/Grid.js:227-234 | No-op while a spike is active, so spikes never stack. No-op on a losing roll. Otherwise it starts a spike at the multiplied consumption with one spike warning, and nothing else in the grid changes. |
| Grid.SpikeRoundTrip | solar-rush-game/js/entities/Grid.js:237-258 | Ending a spike right after starting it gives back the grid exactly as it was. |
| Grid.Fill | solar-rush-game/js/entities/Grid.js:191-198 | The bar is red exactly when capacity ≥ the overload threshold. It is yellow exactly in [0.8 × threshold, threshold) and green otherwise. |
| Grid.FillMonotone | solar-rush-game/js/entities/Grid.js:191-198 | With a non-negative threshold, more capacity never shows a less severe colour. |
| Grid.FillRedIffOverloaded | solar-rush-game/js/entities/Grid.js:167-198 | After a status check, the bar is red exactly when the grid is flagged overloaded. |
| Grid.ApplyEvents | solar-rush-game/js/entities/Grid.js:108-258 | Every step keeps the failure count equal to the old count plus the outages reported, and keeps the failure limit. Its failure game overs number exactly one per failure count reached at or above the limit. Every step keeps the blackout latch closed once closed. Every step emits one blackout game over only when it closes the latch. |
| Grid.RunPreservesValid | solar-rush-game/js/entities/Grid.js:108-258 | For any sequence of energy additions (non-negative), ticks and spike checks/ends, 0 ≤ capacity ≤ max holds throughout. Consumption stays base or base × multiplier according to the spike flag. The roster stays fixed. |
| Grid.RunBlackoutOnce | solar-rush-game/js/entities/Grid.js:175-182 | Over any sequence of steps, the blackout latch never reopens, and at most one blackout game over is emitted per session. |
| Grid.RunFailuresCount | solar-rush-game/js/entities/Grid.js:139-153 | Over any sequence of steps, the failure counter never decreases. It grows by exactly the number of outages reported. |
| Grid.RunFailureGameOvers | solar-rush-game/js/entities/Grid.js:141-150 | Over any sequence of steps, the failure limit is unchanged. There is exactly one failure game over for every value the failure counter reaches at or above the limit. |
| Grid.FailureGameOversFromFifth | solar-rush-game/js/entities/Grid.js:48-49 | From a new grid, the first four outages of a session bring no failure game over. The fifth and every later one bring one each. |
| Grid.FailureGameOverRepeats | solar-rush-game/js/entities/Grid.js:141-150 | From a grid already at the failure limit, every outage of any later sequence of steps comes with its own failure game over. It is not latched. |
| Grid.TickAfterBlackout | solar-rush-game/js/entities/Grid.js:55-60 | A blacked-out grid keeps being drained by the tick and stays blacked out. |
| Grid.FirstTickOnEmptyGridBlacksOut | solar-rush-game/js/entities/Grid.js:176-182 | Starting from the empty initial grid, a tick before any building is due blacks the grid out for depletion. |
| Grid.OverSupplyScenario | solar-rush-game/js/entities/Grid.js:108-183 | With max 100, overload 80, blackout 100 and base 2: adding 85 overloads with one warning. A tick leaves 83, still overloaded and silent. Adding 20 caps at 100 and blacks out for over-supply. |
| Engineer.Init | solar-rush-game/js/entities/Engineer.js:16-20 | A new engineer is not repairing, has no target and no walking target, and is labelled idle. |
| Engineer.MoveTo | solar-rush-game/js/entities/Engineer.js:41-54 | While repairing, nothing changes. Otherwise the walking target becomes the point and the label "Moving". The repair state is never touched. |
| Engineer.PointerDown | solar-rush-game/js/entities/Engineer.js:32-37 | The click handler leaves a repairing engineer unchanged, and otherwise sets the walking target. |
| Engineer.PointerDownIsMoveTo | solar-rush-game/js/entities/Engineer.js:32-43 | The handler's guard is redundant: for every state and point it behaves exactly like `moveTo`. |
| Engineer.StartRepair | solar-rush-game/js/entities/Engineer.js:57-92 | A busy engineer changes nothing and gets no answer. Within range (distance ≤ 50, inclusive) it starts repairing the source and answers true. Beyond range it changes nothing and answers false. The invariant "repairing iff a target" is kept. |
| Engineer.CompleteRepair | solar-rush-game/js/entities/Engineer.js:78-86 | The completion call acts exactly when the captured source is still the current target. It then completes the source's repair, clears `repairing` and the target, and relabels idle. Otherwise it changes nothing. |
| Engineer.FirstNearbyBroken | solar-rush-game/js/entities/Engineer.js:130-150 | Returns the first index, in list order, of a source that is broken, not being repaired and within 2 × 50. Every earlier source fails that test. No index is returned only when no source passes. |
| Engineer.Update | solar-rush-game/js/entities/Engineer.js:102-127 | While repairing, nothing happens and no source is searched. Otherwise a walking target closer than 5 (strict) is cleared, and any other walking target is kept. The first nearby broken source is reported and the label changes to "Repair needed nearby!". With none nearby, the label becomes the idle label on arrival and is otherwise left as it was. The repair state is never touched. |
| Engineer.RepairRoundTrip | solar-rush-game/js/entities/Engineer.js:57-86 | A repair started within range and completed by its own callback leaves the engineer idle, as before, with the same walking target. |
| Engineer.SecondRequestIgnored | solar-rush-game/js/entities/Engineer.js:57-86 | A second repair request during a repair is ignored. The first repair's completion still acts. |
| Engineer.StaleCompletionKeepsRepair | solar-rush-game/js/entities/Engineer.js:78-86 | A leftover completion call for another source neither ends the repair in progress nor changes the engineer. That repair's own call still ends it afterwards, exactly as it would have without the stale call. |
| GameScene.ApplyRoleBonus | solar-rush-game/js/scenes/GameScene.js:260-286 | Collector gets collection 1.2, Engineer repair time 0.7, Strategist warning time 1.5 and Grid Manager efficiency 1.15. Every other multiplier is 1.0. No role, an empty role or an unknown role keeps all defaults. |
| GameScene.RoleBonusShape | solar-rush-game/js/scenes/GameScene.js:27-32 | Any role changes at most one multiplier. It changes none exactly when the bonus is the default. Every bonus favours the player. |
| GameScene.ObstacleDelayByRole | solar-rush-game/js/scenes/GameScene.js:61 | The obstacle timer delay is 30000 ms for the Strategist and 20000 ms for every other role. |
| GameScene.Start | solar-rush-game/js/scenes/GameScene.js:9-67 | A new session is not over and not won, with nothing collected and no obstacle. The player role is kept and the bonus comes from it. The objectives are as configured. The game mode defaults to "single" when missing or empty. The grid is the initial grid of the given configuration: empty, and valid when the configuration is. |
| GameScene.CollectEnergy | solar-rush-game/js/scenes/GameScene.js:145-152 | The adjusted amount (amount × collection multiplier) goes into the grid, which stores up to its maximum and drops the rest. The total rises by the full adjusted amount, because the grid always accepts, even when it is full or the game is over. Only the grid and the total change, and the events are the grid's own. |
| GameScene.CollectMatchesGrid | solar-rush-game/js/scenes/GameScene.js:145-152 | While the grid has room, the total and the grid's store rise by the same adjusted amount. |
| GameScene.CollectOnFullGrid | solar-rush-game/js/scenes/GameScene.js:145-152 | On a full grid, a positive collection still raises the total while the store does not move. |
| GameScene.EndGame | solar-rush-game/js/scenes/GameScene.js:195-210 | Sets `gameOver`, stops the obstacle timer and reports the outcome with the given success flag. Nothing else changes. |
| GameScene.OnTimeUp | solar-rush-game/js/scenes/GameScene.js:182-186 | Ends the game unsuccessfully (success defaults to false) only if it is not already over: it sets the latch and stops the obstacle timer, and nothing else in the session changes. Otherwise nothing changes. |
| GameScene.WinGame | solar-rush-game/js/scenes/GameScene.js:189-192 | Sets `gameWon`, ends the game with success = true and stops the obstacle timer; nothing else in the session changes. |
| GameScene.Update | solar-rush-game/js/scenes/GameScene.js:81-98 | A frame does nothing once the game is over. Otherwise time drops by `delta`. At ≤ 0 the frame ends with the timeout and does not run the win check. Otherwise, with collected ≥ target and the game not yet won, the game ends as won with a single win event. In both ending frames only the time, the latches and the obstacle timer change. In every other case only the time changes and nothing is emitted. |
| GameScene.SpawnRandomObstacle | solar-rush-game/js/scenes/GameScene.js:155-173 | While an active obstacle exists, nothing happens. Otherwise the rolled kind is announced and becomes the current obstacle, which is not yet active. |
| GameScene.ActivateObstacle | solar-rush-game/js/scenes/GameScene.js:170-172 | After the warning time, whatever obstacle is current at that moment becomes active. With none, nothing changes. |
| GameScene.ObstacleLifecycle | solar-rush-game/js/scenes/GameScene.js:155-173 | With no current obstacle, a spawned obstacle waits inactive, the delayed call activates exactly that obstacle of the rolled kind and changes nothing else, and a later timer callback leaves the active obstacle alone and emits nothing. |
| GameScene.ApplyEndsOnce | solar-rush-game/js/scenes/GameScene.js:81-98 | Every step keeps the session invariant: the obstacle timer runs iff the game is not over, and a won game is over. Every step keeps `gameOver` latched and emits one end-of-game report only when it ends the game. |
| GameScene.RunEndsOnce | solar-rush-game/js/scenes/GameScene.js:182-210 | Over any sequence of frames, time-up signals, collections and timer firings, `gameOver` stays latched and the session invariant holds. Exactly one end-of-game report is emitted if the game ends, and none once it has ended. |

## Left out

- Rendering and text are presentation over the Phaser engine. This covers `createVisualGrid`, the fill-width and text of `updateVisualGrid`, `createBackground`, the engineer's sprite, status-text positioning and `updateUI`. The fill colour is modelled, and the engineer's status text is modelled as a label.
- The Phaser timer service is replaced by explicit steps: `time.addEvent`, `delayedCall` and timer removal. In the model, the obstacle timer's removal is the flag `obstacleTimerRunning`. `Grid.destroy` is not modelled; no step stops the grid's timers.
- `Math.random` is an input. It is a boolean `roll` for the demand spike (the draw fell below the probability) and an index below 4 for the obstacle kind. The spike probability and duration are configuration outside the model.
- Physics movement, `Phaser.Math.Distance.Between`, velocity changes and the engineer's speed are not modelled. They are floating-point engine state, so distances are parameters.
- Sound playback, `events.emit` to the UI scene, the tutorial (`startTutorial`) and `createEnergySources` are fire-and-forget glue. The menu scene is not part of this model.
- `EnergySource` and `Obstacle` are not part of this model. `completeRepair` is the boolean answer of `CompleteRepair`. `activate` is the `active` flag. An obstacle's own end is not modelled, so an active obstacle stays active. The repair-time multiplier is computed but its use inside `EnergySource` is not modelled.
- The name clash in the scene is not modelled as a crash. `GameScene.init` sets `gameOver` and `energyCollected` as plain fields (false and 0). The scene defines no `gameOver` method, so the call `scene.gameOver(message)` in `Grid` calls a boolean field. The field `energyCollected` (GameScene.js:17) shadows the scene's own method of that name (GameScene.js:145), which `EnergySource` calls as `scene.energyCollected(amount)`. In the game both calls would raise a TypeError. The model treats them as the intended operations: grid game-over events, and `CollectEnergy`. Grid game-over events do not end the session.
- Grid.Init: validity of the new grid is promised only for a configuration with non-negative capacity, base consumption and spike multiplier. The game reads whatever configuration it is given, and the model does too.
- `GameScene.Start`: the scene's `init` and `create` are one step, so the grid always exists. In the game, `grid` is `null` between the two calls.
- Numbers are exact `real`s, not IEEE doubles. Times in the grid are whole milliseconds.
