/** The game service (internal/service/game_service.go): session lifecycle
    on top of the store, the tick, and the registry of running loops.
    Goroutines, tickers and contexts become a sequential model: a loop is a
    handle token, cancelling it puts the token in `cancelled`, and a loop's
    run is a sequence of ticks. Logging and tracing are left out. */
module Service {
  import opened Wrappers
  import opened Domain
  import opened Engine
  import Repository

  /** Builds a fresh session: the maze board, the player at (1, 1), the
      three ghosts at their start cells, no heading, zero score. */
  method InitializeGame(id: string) returns (g: Game)
    ensures g == InitialGame(id)
    ensures GameInv(g)
  {
    var board, dots := BuildBoard(Maze);
    g := Game(id, board, Position(1, 1), [
      Ghost(Position(Width - 2, Height - 2), Left),
      Ghost(Position(Width - 2, 1), Left),
      Ghost(Position(1, Height - 2), Right)
    ], 0, dots, false, NoDirection);
  }

  /** The player's move on a session value. */
  method MovePlayer(g: Game) returns (t: Game)
    requires Shaped(g.board)
    ensures t == AfterPlayer(g, Service)
  {
    t := g;
    if g.playerDir == NoDirection {
      return;
    }
    var newPos := g.player.Move(g.playerDir);
    if IsValidPosition(g.board, newPos, Width, Height) {
      t := t.(player := newPos);
      if g.board[newPos.y][newPos.x] == '.' {
        CountDotsEat(g.board, newPos.y, newPos.x);
        t := t.(board := g.board[newPos.y := g.board[newPos.y][newPos.x := ' ']],
                score := t.score + ScorePerDot,
                dotsLeft := t.dotsLeft - 1);
      }
    }
  }

  /** Moves every ghost in list order; `choices[i]` holds the random draws
      of ghost `i`. */
  method MoveGhosts(g: Game, choices: seq<GhostChoice>) returns (t: Game)
    requires Shaped(g.board) && |choices| == |g.ghosts| && ValidChoices(choices)
    ensures t == AfterGhosts(g, choices)
  {
    var ghosts := g.ghosts;
    var i := 0;
    while i < |ghosts|
      invariant 0 <= i <= |ghosts| == |g.ghosts|
      invariant forall m :: 0 <= m < i ==> ghosts[m] == GhostMove(g.board, g.ghosts[m], g.player, choices[m])
      invariant forall m :: i <= m < |ghosts| ==> ghosts[m] == g.ghosts[m]
    {
      var moved := StepGhost(g.board, ghosts[i], g.player, choices[i]);
      ghosts := ghosts[i := moved];
      i := i + 1;
    }
    t := g.(ghosts := ghosts);
  }

  /** Ends the game when some ghost stands on the player's cell. */
  method CheckCollisions(g: Game) returns (t: Game)
    ensures t == AfterCollisions(g)
  {
    t := g;
    var k := 0;
    while k < |g.ghosts|
      invariant 0 <= k <= |g.ghosts|
      invariant forall m :: 0 <= m < k ==> !g.ghosts[m].position.Equals(g.player)
    {
      if g.player.Equals(g.ghosts[k].position) {
        t := t.(gameOver := true);
        return;
      }
      k := k + 1;
    }
  }

  lemma OverwriteTwice(m: map<string, Game>, key: string, a: Game, b: Game)
    ensures m[key := a][key := b] == m[key := b]
  {
  }

  /** A loop's cancellation handle. */
  type Handle = nat

  class GameService {
    const repo: Repository.GameRepository
    /** The running loop registered for each session. */
    var gameLoops: map<string, Handle>
    /** The handles whose cancel function has been called. */
    var cancelled: set<Handle>
    /** Source of fresh handles. */
    var nextHandle: Handle

    /** Every stored session is a well-formed game filed under its own
        non-empty identifier, and every handle ever issued is below
        `nextHandle`. */
    ghost predicate Valid()
      reads this, repo
    {
      && "" !in repo.games
      && (forall id :: id in repo.games ==> repo.games[id].id == id && GameInv(repo.games[id]))
      && (forall id :: id in gameLoops ==> gameLoops[id] < nextHandle)
      && (forall h :: h in cancelled ==> h < nextHandle)
    }

    constructor (repo: Repository.GameRepository)
      requires repo.games == map[]
      ensures Valid() && this.repo == repo
      ensures gameLoops == map[] && cancelled == {} && nextHandle == 0
    {
      this.repo := repo;
      gameLoops := map[];
      cancelled := {};
      nextHandle := 0;
    }

    /** Creates (or replaces) the session `id`; the empty identifier is
        refused without touching the store. */
    method CreateGame(id: string) returns (r: Result<Game, Error>)
      requires Valid()
      modifies repo
      ensures Valid()
      ensures id == "" ==> r == Err(EmptyId) && repo.games == old(repo.games)
      ensures id != "" ==> r == Ok(InitialGame(id)) && repo.games == old(repo.games)[id := InitialGame(id)]
    {
      if id == "" {
        return Err(EmptyId);
      }
      var game := InitializeGame(id);
      var saved := repo.Save(Some(game));
      r := Ok(game);
    }

    method GetGame(id: string) returns (r: Result<Game, Error>)
      ensures id == "" ==> r == Err(EmptyId)
      ensures id != "" && id !in repo.games ==> r == Err(NotFound)
      ensures id != "" && id in repo.games ==> r == Ok(repo.games[id])
    {
      if id == "" {
        return Err(EmptyId);
      }
      var found := repo.FindByID(id);
      if found.Err? {
        return Err(NotFound);
      }
      r := found;
    }

    /** Sets the pending heading of a stored session and nothing else. */
    method SetPlayerDirection(id: string, dir: Direction) returns (r: Outcome<Error>)
      requires Valid()
      modifies repo
      ensures Valid()
      ensures !Repository.Present(old(repo.games), id) ==> r == Fail(NotFound) && repo.games == old(repo.games)
      ensures Repository.Present(old(repo.games), id) ==>
                r == Pass && repo.games == old(repo.games)[id := old(repo.games)[id].(playerDir := dir)]
    {
      var found := repo.FindByID(id);
      if found.Err? {
        return Fail(NotFound);
      }
      var game := found.value.(playerDir := dir);
      var saved := repo.Save(Some(game));
      r := Pass;
    }

    /** The snapshot of a stored session. */
    method GetGameState(id: string) returns (r: Result<GameState, Error>)
      requires Valid()
      ensures !Repository.Present(repo.games, id) ==> r == Err(NotFound)
      ensures Repository.Present(repo.games, id) ==> r == Ok(ToGameState(repo.games[id], Width, Height))
    {
      var found := repo.FindByID(id);
      if found.Err? {
        return Err(NotFound);
      }
      r := Ok(ToGameState(found.value, Width, Height));
    }

    /** Stops the session's loop, drops the old session and creates a fresh
        one under the same identifier. */
    method RestartGame(id: string) returns (r: Result<Game, Error>)
      requires Valid()
      modifies this, repo
      ensures Valid()
      ensures id !in gameLoops && gameLoops == old(gameLoops) - {id} && nextHandle == old(nextHandle)
      ensures cancelled == old(cancelled) + (if id in old(gameLoops) then {old(gameLoops)[id]} else {})
      ensures id == "" ==> r == Err(EmptyId) && repo.games == old(repo.games)
      ensures id != "" ==> r == Ok(InitialGame(id)) && repo.games == old(repo.games)[id := InitialGame(id)]
    {
      StopGameLoop(id);
      assert repo.games == old(repo.games);
      var deleted := repo.Delete(id);
      r := CreateGame(id);
    }

    /** Stops the session's loop and removes the session; deleting an
        absent session succeeds. */
    method DeleteGame(id: string) returns (r: Outcome<Error>)
      requires Valid()
      modifies this, repo
      ensures Valid()
      ensures id !in gameLoops && gameLoops == old(gameLoops) - {id} && nextHandle == old(nextHandle)
      ensures cancelled == old(cancelled) + (if id in old(gameLoops) then {old(gameLoops)[id]} else {})
      ensures id == "" ==> r == Fail(EmptyId) && repo.games == old(repo.games)
      ensures id != "" ==> r == Pass && repo.games == old(repo.games) - {id}
    {
      StopGameLoop(id);
      r := repo.Delete(id);
    }

    /** Registers a new loop for an existing session, cancelling the one it
        supersedes, and returns the new loop's handle. */
    method StartGameLoop(id: string) returns (r: Outcome<Error>, h: Handle)
      requires Valid()
      modifies this
      ensures Valid()
      ensures !Repository.Present(repo.games, id) ==>
                && r == Fail(NotFound) && gameLoops == old(gameLoops) && cancelled == old(cancelled)
                && nextHandle == old(nextHandle)
      ensures Repository.Present(repo.games, id) ==>
                && r == Pass && h == old(nextHandle) && h !in cancelled && nextHandle == old(nextHandle) + 1
                && gameLoops == old(gameLoops)[id := h]
                && cancelled == old(cancelled) + (if id in old(gameLoops) then {old(gameLoops)[id]} else {})
    {
      var present := repo.Exists(id);
      h := nextHandle;
      if !present {
        return Fail(NotFound), h;
      }
      nextHandle := nextHandle + 1;
      if id in gameLoops {
        cancelled := cancelled + {gameLoops[id]};
      }
      gameLoops := gameLoops[id := h];
      r := Pass;
    }

    /** Cancels and deregisters the session's loop; no loop, no change. */
    method StopGameLoop(id: string)
      requires Valid()
      modifies this
      ensures Valid() && nextHandle == old(nextHandle)
      ensures gameLoops == old(gameLoops) - {id}
      ensures cancelled == old(cancelled) + (if id in old(gameLoops) then {old(gameLoops)[id]} else {})
    {
      if id in gameLoops {
        cancelled := cancelled + {gameLoops[id]};
        gameLoops := gameLoops - {id};
      }
    }

    /** What a loop does when it ends: remove the registry entry for its
        session identifier, whichever loop that entry belongs to. */
    method CleanupGameLoop(id: string)
      requires Valid()
      modifies this
      ensures Valid() && nextHandle == old(nextHandle) && cancelled == old(cancelled)
      ensures gameLoops == old(gameLoops) - {id}
    {
      gameLoops := gameLoops - {id};
    }

    /** One tick for a stored session: an absent session or one whose play
        has stopped is an error and nothing is saved; otherwise the tick's
        result replaces the session. */
    method GameTick(id: string, choices: seq<GhostChoice>) returns (r: Outcome<Error>)
      requires Valid() && |choices| == NumGhosts && ValidChoices(choices)
      modifies repo
      ensures Valid()
      ensures !Repository.Present(old(repo.games), id) ==> r == Fail(NotFound) && repo.games == old(repo.games)
      ensures Repository.Present(old(repo.games), id) && Stopped(old(repo.games)[id]) ==>
                r == Fail(GameEnded) && repo.games == old(repo.games)
      ensures Repository.Present(old(repo.games), id) && !Stopped(old(repo.games)[id]) ==>
                r == Pass && repo.games == old(repo.games)[id := Tick(old(repo.games)[id], choices, Service)]
    {
      var found := repo.FindByID(id);
      if found.Err? {
        return Fail(NotFound);
      }
      var game := found.value;
      if game.gameOver || game.dotsLeft == 0 {
        return Fail(GameEnded);
      }
      TickPreservesInv(game, choices, Service);
      AfterPlayerInv(game, Service);
      game := MovePlayer(game);
      game := MoveGhosts(game, choices);
      game := CheckCollisions(game);
      var saved := repo.Save(Some(game));
      r := Pass;
    }

    /** The ticking part of a loop's run: before each tick it stops if its
        handle was cancelled, and it stops at the first failed tick. */
    method TickUntilStopped(id: string, h: Handle, ticks: seq<seq<GhostChoice>>)
      requires Valid()
      requires ValidTicks(ticks)
      modifies repo
      ensures Valid()
      ensures h in cancelled || !Repository.Present(old(repo.games), id) ==> repo.games == old(repo.games)
      ensures h !in cancelled && Repository.Present(old(repo.games), id) ==>
                repo.games == old(repo.games)[id := RunTicks(old(repo.games)[id], ticks, Service)]
    {
      if h in cancelled || !Repository.Present(repo.games, id) {
        // Cancelled before its first tick, or nothing to tick: the first
        // iteration ends the loop without touching the store.
        return;
      }
      ghost var start := repo.games;
      ghost var target := RunTicks(start[id], ticks, Service);
      ghost var cur := start[id];
      var k := 0;
      while k < |ticks|
        invariant 0 <= k <= |ticks|
        invariant Valid()
        invariant GameInv(cur) && repo.games == start[id := cur]
        invariant RunTicks(cur, ticks[k..], Service) == target
      {
        var r := GameTick(id, ticks[k]);
        RunTicksUnfold(cur, ticks, k, Service);
        if r.Fail? {
          break;
        }
        OverwriteTwice(start, id, cur, Tick(cur, ticks[k], Service));
        cur := Tick(cur, ticks[k], Service);
        k := k + 1;
      }
    }

    /** A loop's whole run, and on the way out the removal of its session
        identifier from the registry. */
    method RunGameLoop(id: string, h: Handle, ticks: seq<seq<GhostChoice>>)
      requires Valid()
      requires ValidTicks(ticks)
      modifies this, repo
      ensures Valid()
      ensures gameLoops == old(gameLoops) - {id} && cancelled == old(cancelled) && nextHandle == old(nextHandle)
      ensures h in old(cancelled) || !Repository.Present(old(repo.games), id) ==> repo.games == old(repo.games)
      ensures h !in old(cancelled) && Repository.Present(old(repo.games), id) ==>
                repo.games == old(repo.games)[id := RunTicks(old(repo.games)[id], ticks, Service)]
    {
      TickUntilStopped(id, h, ticks);
      CleanupGameLoop(id);
    }
  }

  /** The loop registry flaw, as `cleanupGameLoop` is written: when a second start
      supersedes a running loop, the first loop's exit removes the entry of
      the second by session identifier, so the second loop keeps running,
      is no longer registered, and a later stop cannot cancel it. */
  method SupersededLoopIsOrphaned(id: string) returns (second: Handle, registered: bool, cancelledByStop: bool)
    requires id != ""
    ensures !registered && !cancelledByStop
  {
    var repo := new Repository.GameRepository();
    var s := new GameService(repo);
    var created := s.CreateGame(id);
    var r1, first := s.StartGameLoop(id);
    var r2, h := s.StartGameLoop(id);
    assert first in s.cancelled && h !in s.cancelled;
    // The superseded loop sees its cancellation before its first tick,
    // leaves the store alone, and on exit removes the entry by identifier.
    ghost var before := s.repo.games;
    s.RunGameLoop(id, first, []);
    assert s.repo.games == before;
    second := h;
    registered := id in s.gameLoops;
    s.StopGameLoop(id);
    cancelledByStop := second in s.cancelled;
  }
}
