# Pacman game engine, modelled in Dafny

This project models the core of a small multiplayer-session Pacman server
written in Go. It covers five parts:

- **Domain** (`domain.dfy`, from `internal/domain/game.go`): headings and their wire names, positions and one-step moves, ghosts, the game record, the board/bounds test and the client snapshot.
- **Engine** (`engine.dfy`): the tick logic that both programs share. It covers building the board from the maze template and counting dots, the player's move with dot eating and scoring, and the ghost AI. The ghost AI takes an erratic heading with a 30 % roll, otherwise the chase heading, otherwise the first open heading of a shuffled scan. The engine also covers collisions, one whole tick and a run of ticks.
  - The refactored service and the legacy program differ in one rule only: what the player does when no heading is set. `Variant` selects that rule. The service skips the move. The legacy `switch` has no case for "none", so the legacy player "moves" onto its own cell and eats a dot lying there.
- **Repository** (`repository.dfy`, from `internal/repository/memory/game_repository.go`): the in-memory session store, a class whose `games` map field the methods update.
- **Service** (`service.dfy`, from `internal/service/game_service.go`): session creation, lookup, direction, snapshot, restart and deletion. It also covers the per-session loop registry, one `gameTick`, and the loop body run over a finite sequence of ticks.
  - The registry is modelled as a map from session identifier to loop handle, plus the set of handles whose cancel function has been called.
- **Legacy** (`legacy.dfy`, from `main.go`): the single-file server's mutable `game` object and its `gameManager`. Its state is related to the shared engine through `State()`.
- **Config** (`config.dfy`, from `internal/config/config.go`): reading settings from the environment with defaults, and validating them.

Randomness is injected. Each ghost's move takes a `GhostChoice` holding three draws:

- the percentage roll, in [0, 100);
- the heading index, in [0, 4);
- the shuffled order of the four headings.

`ValidChoice` states exactly the values Go's `rand.Intn` and `rand.Shuffle` can produce. A loop run is given one sequence of such draws per tick.

The loop registry keeps a behaviour of the source as written:

- A loop removes the registry entry *by session identifier* when it exits (`cleanupGameLoop`).
- A loop superseded by a second `StartGameLoop` therefore deletes its successor's entry when it exits.
- The successor keeps running and can no longer be cancelled.

`Service.SupersededLoopIsOrphaned` plays this out. `Service.GameService.CleanupGameLoop` models the removal exactly as written.

The comment on `runGameLoop` (internal/service/game_service.go:301) says the loop runs until its context is cancelled or the game ends. The code does stop on game end, but only through an error return from `gameTick` and a deferred delete by key, which has the flaw above. The model follows the code. The legacy loop has no cancellation at all, and is modelled that way.

## Model

| member | source | states |
|---|---|---|
| `Domain.Direction.ToString` | internal/domain/game.go:20-33 | the name is "none" exactly for the no-heading value |
| `Domain.ParseDirection` | internal/domain/game.go:36-49 | parsing succeeds exactly on "up", "down", "left", "right", and the parsed heading is a real one whose name is the input; every other string (including "none") yields no heading and failure |
| `Domain.ParseToString` | internal/domain/game.go:20-49 | printing a real heading and parsing the name gives the heading back; the name of no-heading does not parse |
| `Domain.Position.Move` | internal/domain/game.go:58-71 | no heading leaves the position; a real heading changes exactly one coordinate by exactly one, up/down on y, left/right on x, with the screen's sign convention |
| `Domain.MoveOpposite` | internal/domain/game.go:58-71 | a step followed by a step in the opposite heading returns to the start cell |
| `Domain.Position.Equals` | internal/domain/game.go:74-76 | coordinate-wise equality is exactly equality of positions |
| `Domain.EqualsReflexiveSymmetric` | internal/domain/game.go:74-76 | `Equals` is reflexive and symmetric |
| `Domain.Abs` | internal/service/game_service.go:475-480 | the result is non-negative and is the argument or its negation |
| `Domain.IsValidPosition` | internal/domain/game.go:136-141 | out-of-bounds positions are never valid; an in-bounds position is valid exactly when its cell is not a wall |
| `Domain.ToGameState` | internal/domain/game.go:110-133 | the snapshot has `height` rows of `width` one-character strings copied from the board, the ghosts' positions in order, the same counters and flag, and `won` exactly when no dot is left |
| `Engine.PadRow` | internal/service/game_service.go:121-132 | a built row has `width` cells, its maze characters first and walls where the maze row is short |
| `Engine.BoardFrom` | internal/service/game_service.go:120-133 | the built board has `Height` rows of `Width` cells |
| `Engine.BuildBoard` | internal/service/game_service.go:120-133 | the nested loops build exactly the padded maze board, and the dot counter equals the number of dots on it |
| `Engine.CountRowEat` | internal/service/game_service.go:374-378 | turning one dot of a row into an empty cell lowers the row's dot count by exactly one |
| `Engine.CountDotsEat` | internal/service/game_service.go:374-378 | eating one dot of the board lowers the board's dot count by exactly one, so `dotsLeft` keeps counting the dots |
| `Engine.EatenKeepsWalls` | internal/service/game_service.go:374-378 | eating dots never creates or removes a wall |
| `Engine.EatenTransitive` | internal/service/game_service.go:374-378 | the eaten-from relation between boards composes across moves |
| `Engine.InitialGame` | internal/service/game_service.go:85-136 | a fresh session satisfies the session invariant, carries its identifier, has score 0, is not over, has no heading set and holds the maze board |
| `Engine.PlayerMove` | internal/service/game_service.go:364-381 | the service skips the move with no heading; a blocked target changes nothing; with a real heading (or, for the legacy program, with none) onto an open cell the player enters that cell, eats a dot exactly when one lies there (leaving an empty cell and one dot fewer) and the board changes only by that eating; the player stays on an open cell |
| `Engine.NoneHeadingAtStart` | main.go:150-177 | with no heading set, the legacy program eats the dot under the start cell on the first tick while the service does not |
| `Engine.ChaseHeading` | internal/service/game_service.go:394-409 | the chase heading is a real heading; it is horizontal exactly when the x gap is strictly larger, and it points towards the target (down exactly when the target is lower on a tie or a larger y gap, up otherwise) |
| `Engine.ChaseCloses` | internal/service/game_service.go:394-409 | away from the target, one chase step reduces the Manhattan distance to it by one |
| `Engine.ChosenHeading` | internal/service/game_service.go:389-410 | with a roll below 30 the heading is the drawn one, otherwise the chase heading; it is never the no-heading value |
| `Engine.FirstOpen` | internal/service/game_service.go:428-435 | the scan stops at the first heading of the shuffled order whose cell is open, all earlier ones being closed, or runs off the end |
| `Engine.GhostMoveRules` | internal/service/game_service.go:412-436 | a ghost stays or takes one real-heading step onto an open cell; it takes the chosen heading whenever that cell is open; otherwise it takes the first open heading of the shuffled scan; it stays put exactly when the chosen cell and all four scanned cells are closed |
| `Engine.StuckGhostIsEnclosed` | internal/service/game_service.go:417-436 | a ghost that does not move has a closed cell on each of its four sides |
| `Engine.GhostStaysOnOpenCells` | internal/service/game_service.go:412-436 | a ghost on an open cell is on an open cell after its move |
| `Engine.GhostMove` | internal/service/game_service.go:412-436 | the ghost rule: the ghost either stays where it is or ends up with a real heading; the full rules are stated in `Engine.GhostMoveRules` |
| `Engine.Stopped` | internal/service/game_service.go:334 | play has stopped exactly when the game is over or no dot is left; under the session invariant, exactly when the player was caught or the board holds no dot |
| `Engine.StepGhost` | internal/service/game_service.go:385-437 | the imperative ghost step (chosen heading, then the break-terminated scan) computes exactly the ghost rule `GhostMove` |
| `Engine.MoveGhostsSpec` | internal/service/game_service.go:384-438 | every ghost, in order, moves by the ghost rule against the same board and player cell |
| `Engine.AfterPlayer` | internal/service/game_service.go:364-381 | the player step applied to a session changes only board, player, score and dots left; the board and player are those of the player step, a dot eaten adds 10 to the score and takes one off `dotsLeft`, and nothing moves when the target is blocked |
| `Engine.AfterGhosts` | internal/service/game_service.go:384-438 | the ghost step changes only the ghosts, each by the ghost rule |
| `Engine.AfterCollisions` | internal/service/game_service.go:441-453 | the game becomes over exactly when it was over or some ghost stands on the player's cell; nothing else changes |
| `Engine.Tick` | internal/service/game_service.go:343-350 | one tick keeps id, heading and ghost count, only eats dots, ends the game exactly on a collision (or if it already ended), and scores 10 per dot eaten, at most one per tick |
| `Engine.AfterPlayerInv` | internal/service/game_service.go:364-381 | the player step keeps the session invariant (board shape, `dotsLeft` equal to the dots on the board, three ghosts, everyone on open cells) |
| `Engine.AfterGhostsInv` | internal/service/game_service.go:384-438 | the ghost step keeps the session invariant |
| `Engine.TickPreservesInv` | internal/service/game_service.go:327-361 | a whole tick keeps the session invariant |
| `Engine.RunTicks` | internal/service/game_service.go:302-324 | running ticks until play stops keeps the invariant, identifier and heading, only eats dots, never un-ends a game, and the score grows by exactly 10 per dot eaten; a stopped game is left unchanged |
| `Engine.RunFromStart` | internal/service/game_service.go:85-136 | from a fresh session, any run keeps the maze's walls and its score is 10 times the number of dots eaten from the initial board |
| `Engine.RunTicksUnfold` | internal/service/game_service.go:309-322 | a run from tick k is one tick then the run from k + 1 unless play has stopped, in which case it is the game itself |
| `Repository.Find` | internal/repository/memory/game_repository.go:41-55 | the lookup succeeds exactly for a non-empty stored identifier and returns the stored game; the empty identifier and absent ones give their own errors |
| `Repository.SaveThenFind` | internal/repository/memory/game_repository.go:25-55 | after saving, the saved identifier finds the game and every other identifier finds what it found before |
| `Repository.DeleteThenFind` | internal/repository/memory/game_repository.go:58-80 | after deleting, the identifier no longer exists and every other identifier finds what it found before |
| `Repository.PresentIffFound` | internal/repository/memory/game_repository.go:41-80 | `Exists` holds exactly when `FindByID` succeeds |
| `Repository.GameRepository.constructor` | internal/repository/memory/game_repository.go:18-22 | a new store is empty |
| `Repository.GameRepository.Save` | internal/repository/memory/game_repository.go:25-38 | a nil game and the empty identifier are refused with the store unchanged; otherwise the game is filed under its identifier, replacing any earlier one |
| `Repository.GameRepository.FindByID` | internal/repository/memory/game_repository.go:41-55 | the answer is the lookup `Find` on the current store |
| `Repository.GameRepository.Delete` | internal/repository/memory/game_repository.go:58-68 | the empty identifier is refused; otherwise the identifier is removed, and removing an absent one succeeds and changes nothing |
| `Repository.GameRepository.Exists` | internal/repository/memory/game_repository.go:71-81 | true exactly for a non-empty stored identifier, i.e. exactly when `FindByID` would succeed |
| `Service.InitializeGame` | internal/service/game_service.go:85-136 | the imperative initialisation builds exactly the fresh session `InitialGame`, which satisfies the session invariant |
| `Service.MovePlayer` | internal/service/game_service.go:364-381 | the player move on a session value is exactly the engine's player step for the service rule |
| `Service.MoveGhosts` | internal/service/game_service.go:384-438 | the loop over the ghosts computes exactly the engine's ghost step |
| `Service.CheckCollisions` | internal/service/game_service.go:441-453 | the early-return scan computes exactly the engine's collision check |
| `Service.GameService.constructor` | internal/service/game_service.go:40-48 | a service over an empty store starts with no loops registered |
| `Service.GameService.CreateGame` | internal/service/game_service.go:51-82 | the empty identifier is refused with nothing stored; otherwise the fresh session is returned and stored under its identifier, replacing any earlier one |
| `Service.GameService.GetGame` | internal/service/game_service.go:139-160 | empty identifier and absent session give their errors; otherwise the stored session is returned |
| `Service.GameService.SetPlayerDirection` | internal/service/game_service.go:163-193 | an unknown session is not found and nothing changes; otherwise only that session's heading changes |
| `Service.GameService.GetGameState` | internal/service/game_service.go:196-219 | an unknown session is not found; otherwise the result is the snapshot of the stored session |
| `Service.GameService.RestartGame` | internal/service/game_service.go:222-241 | the session's loop handle, if any, is added to the cancelled set and its entry alone is removed; the handle counter is unchanged; the session is replaced by a fresh one (refused for the empty identifier) |
| `Service.GameService.DeleteGame` | internal/service/game_service.go:244-266 | the session's loop handle, if any, is added to the cancelled set and its entry alone is removed; the handle counter is unchanged; the session is removed; deleting an absent session succeeds |
| `Service.GameService.StartGameLoop` | internal/service/game_service.go:269-299 | an unknown session is not found and the registry, cancelled set and handle counter are unchanged; otherwise the handle counter advances by one and a fresh, uncancelled handle is registered and the superseded one, if any, is cancelled |
| `Service.GameService.StopGameLoop` | internal/service/game_service.go:456-464 | a registered loop is cancelled and deregistered; an unregistered session changes nothing |
| `Service.GameService.CleanupGameLoop` | internal/service/game_service.go:467-472 | the entry for the session identifier is removed whichever loop it belongs to, and nothing is cancelled |
| `Service.GameService.GameTick` | internal/service/game_service.go:327-361 | an unknown session is not found; a stopped session ends the loop with nothing saved; otherwise the stored session becomes its tick |
| `Service.GameService.TickUntilStopped` | internal/service/game_service.go:309-322 | a cancelled loop or an absent session changes nothing; otherwise the stored session becomes its run over the given ticks |
| `Service.GameService.RunGameLoop` | internal/service/game_service.go:302-324 | the loop body followed by the deferred cleanup: the store holds the run's result, the session's registry entry is gone, and the cancelled set and handle counter are unchanged |
| `Service.SupersededLoopIsOrphaned` | internal/service/game_service.go:467-472 | after a second start supersedes a loop and the first loop runs to its exit (cancelled before its first tick, store untouched, cleanup by identifier), the second loop is neither registered nor reachable by a later stop |
| `Legacy.LegacyGame.constructor` | main.go:89-135 | a new legacy game is exactly the shared fresh session (three ghosts with parallel headings) and is valid |
| `Legacy.LegacyGame.IsValidMove` | main.go:137-142 | out-of-bounds positions are never valid; in bounds, valid exactly when not a wall |
| `Legacy.LegacyGame.SetDirection` | main.go:144-148 | only the pending heading changes |
| `Legacy.LegacyGame.MovePlayer` | main.go:150-177 | the in-place move is exactly the engine's player step under the legacy rule, keeping validity |
| `Legacy.StepGhosts` | main.go:179-252 | the loop over the parallel slices of positions and headings moves every ghost by the ghost rule, exactly as the engine's ghost step |
| `Legacy.LegacyGame.MoveGhosts` | main.go:179-252 | the in-place loop updates positions and headings together, exactly as the engine's ghost step |
| `Legacy.LegacyGame.CheckCollisions` | main.go:261-271 | the in-place scan is exactly the engine's collision check |
| `Legacy.LegacyGame.Advance` | main.go:316-318 | one loop iteration is exactly one engine tick under the legacy rule |
| `Legacy.LegacyGame.CheckWin` | main.go:273-277 | won exactly when no dot is left |
| `Legacy.LegacyGame.GetState` | main.go:279-300 | the legacy snapshot equals the domain snapshot of the same session, with the ghosts' positions and `won` equal to `checkWin` |
| `Legacy.GameManager.constructor` | main.go:62-66 | a new manager holds no games |
| `Legacy.GameManager.GetGame` | main.go:68-72 | the stored game, or nothing for an unknown session |
| `Legacy.GameManager.CreateGame` | main.go:74-81 | a fresh, valid game is filed under the session, replacing any earlier one |
| `Legacy.GameManager.DeleteGame` | main.go:83-87 | the session is removed; an absent one is left alone |
| `Legacy.GameManager.RunGameLoop` | main.go:302-320 | the session's game becomes its legacy run over the given ticks, stopping when it is over or won; the manager's map is unchanged |
| `Config.Validate` | internal/config/config.go:74-92 | a configuration passes exactly when the port is non-empty and level, format and mode are allowed; otherwise the first failing check, in source order, is reported with the offending value |
| `Config.GetEnv` | internal/config/config.go:95-100 | a set, non-empty variable's value, otherwise the default; the result is empty only when the default is |
| `Config.GetBoolEnv` | internal/config/config.go:103-112 | the parsed value when the variable is set and parses, the default otherwise |
| `Config.GetDurationEnv` | internal/config/config.go:115-124 | the parsed duration when the variable is set and parses, the default otherwise |
| `Config.FromEnv` | internal/config/config.go:44-64 | the port is never empty, and level, format and mode are the set variables or their defaults |
| `Config.Load` | internal/config/config.go:43-71 | loading succeeds exactly when the read configuration validates, and then returns it; otherwise it returns the validation error |
| `Config.DefaultsLoad` | internal/config/config.go:44-70 | with nothing set, loading yields the default configuration |
| `Config.LoadedIsValid` | internal/config/config.go:66-70 | every loaded configuration satisfies every validation rule |
| `Config.LoadNeverRejectsPort` | internal/config/config.go:75-77 | the empty-port error can never come out of loading, since an empty PORT falls back to "8080" |
| `Config.ErrorsComeFromEnv` | internal/config/config.go:44-92 | a load error always carries the value of an environment variable that is set, because the defaults validate |

## Left out

- Concurrency: the service's and the store's mutexes, the legacy per-game and manager locks, goroutines and tickers. Each operation is one atomic step. A loop is modelled as its body run over a finite sequence of ticks, with cancellation observed before the first tick.
- Time: `CreatedAt`/`UpdatedAt` timestamps and the 200 ms tick interval.
- Logging and tracing (slog, OpenTelemetry spans and attributes).
- The HTTP handlers, routing and `main()` of both programs. Consequently the legacy handlers' habit of starting another loop on every create and restart is not modelled.
- The random number generator and its seed. Only the range of each draw is kept, as `GhostChoice`.
- Pointer aliasing: the store holds game values. The service mutates a fetched `*Game` in place and then saves it, which the model states as "the stored value becomes the updated value".
- Error message texts and `%w` wrapping: errors are the variants of `Domain.Error` and `Config.ConfigError`.
- The `Save` failure paths inside the service. With a non-nil game carrying a non-empty identifier, the store cannot refuse, so those branches are unreachable in the model.
- `strconv.ParseBool` and `time.ParseDuration` are parameters of the config functions (partial functions from strings), because they belong to the Go standard library.
- `Engine.RunTicks`: the session invariant assumes the three-ghost layout of a fresh game. A session built any other way is outside the model.
- `Service.GameService.TickUntilStopped`: a cancellation is observed only before the first tick. A cancel arriving between ticks of a running loop is concurrency and is left out.
- `Legacy.GameManager.RunGameLoop`: it requires only the ticked game's validity. It does not restate the manager-wide validity, which holds by framing because only that game changes.
