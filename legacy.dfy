/** The legacy single-file server (main.go): a mutable `game` object per
    session and a `gameManager` map of them. Its per-object mutex is not
    modelled. The tick rules are those of `Engine` with `Variant.Legacy`,
    which differs from the service only when no heading is set. */
module Legacy {
  import opened Wrappers
  import opened Domain
  import opened Engine

  /** The ghosts as the shared model sees them, from the legacy program's
      two parallel slices of positions and headings. */
  function Zip(ps: seq<Position>, ds: seq<Direction>): (gs: seq<Ghost>)
    requires |ps| == |ds|
    ensures |gs| == |ps| && GhostPositions(gs) == ps
    ensures forall i :: 0 <= i < |gs| ==> gs[i].position == ps[i] && gs[i].direction == ds[i]
  {
    seq(|ps|, i requires 0 <= i < |ps| => Ghost(ps[i], ds[i]))
  }

  /** The legacy ghost loop over the parallel slices of positions and
      headings: ghost `i` moves by the ghost rule with draws `choices[i]`,
      and its position and heading are written back together. */
  method StepGhosts(board: Board, ps0: seq<Position>, ds0: seq<Direction>, target: Position, choices: seq<GhostChoice>)
    returns (ps: seq<Position>, ds: seq<Direction>)
    requires Shaped(board) && |ps0| == |ds0| == |choices| && ValidChoices(choices)
    ensures |ps| == |ds| == |ps0|
    ensures Zip(ps, ds) == MoveGhostsSpec(board, Zip(ps0, ds0), target, choices)
  {
    ps, ds := ps0, ds0;
    var i := 0;
    while i < |ps|
      invariant 0 <= i <= |ps| == |ds| == |ps0|
      invariant forall m :: 0 <= m < i ==>
        Ghost(ps[m], ds[m]) == GhostMove(board, Ghost(ps0[m], ds0[m]), target, choices[m])
      invariant forall m :: i <= m < |ps| ==> ps[m] == ps0[m] && ds[m] == ds0[m]
    {
      var moved := StepGhost(board, Ghost(ps[i], ds[i]), target, choices[i]);
      ps := ps[i := moved.position];
      ds := ds[i := moved.direction];
      i := i + 1;
    }
  }

  class LegacyGame {
    var board: Board
    var player: Position
    var ghosts: seq<Position>
    var ghostDirs: seq<Direction>
    var score: int
    var dotsLeft: int
    var gameOver: bool
    var playerDir: Direction

    /** The session these fields hold, as a value of the shared model (the
        legacy game has no identifier of its own). */
    ghost function State(): Game
      reads this
      requires |ghosts| == |ghostDirs|
    {
      Game("", board, player, Zip(ghosts, ghostDirs), score, dotsLeft, gameOver, playerDir)
    }

    ghost predicate Valid()
      reads this
    {
      |ghosts| == |ghostDirs| && GameInv(State())
    }

    /** A fresh game: the maze board, the player at (1, 1), three ghosts
        with parallel headings, no heading for the player. */
    constructor ()
      ensures Valid() && State() == InitialGame("")
      ensures |ghosts| == |ghostDirs| == NumGhosts
    {
      var b, dots := BuildBoard(Maze);
      board := b;
      player := Position(1, 1);
      ghosts := [Position(Width - 2, Height - 2), Position(Width - 2, 1), Position(1, Height - 2)];
      ghostDirs := [Left, Left, Right];
      score := 0;
      dotsLeft := dots;
      gameOver := false;
      playerDir := NoDirection;
      new;
      assert Zip(ghosts, ghostDirs) == InitialGhosts;
    }

    /** The legacy bounds-and-wall test: the same rule as `IsValidPosition`
        on this game's board. */
    function IsValidMove(pos: Position): (b: bool)
      reads this
      requires Covers(board, Width, Height)
      ensures !InBounds(pos, Width, Height) ==> !b
      ensures InBounds(pos, Width, Height) ==> (b <==> board[pos.y][pos.x] != '#')
    {
      if pos.x < 0 || pos.x >= Width || pos.y < 0 || pos.y >= Height then false
      else board[pos.y][pos.x] != '#'
    }

    method SetDirection(dir: Direction)
      requires Valid()
      modifies this
      ensures Valid() && State() == old(State()).(playerDir := dir)
    {
      playerDir := dir;
    }

    /** The legacy player move: the heading switch has no case for "none",
        so with no heading the target is the current cell, and a dot there
        is eaten. */
    method MovePlayer()
      requires Valid()
      modifies this
      ensures Valid() && |ghosts| == |ghostDirs|
      ensures State() == AfterPlayer(old(State()), Legacy)
    {
      AfterPlayerInv(State(), Legacy);
      var newPos := player;
      match playerDir {
        case Up => newPos := newPos.(y := newPos.y - 1);
        case Down => newPos := newPos.(y := newPos.y + 1);
        case Left => newPos := newPos.(x := newPos.x - 1);
        case Right => newPos := newPos.(x := newPos.x + 1);
        case NoDirection =>
      }
      if IsValidMove(newPos) {
        player := newPos;
        if board[player.y][player.x] == '.' {
          board := board[player.y := board[player.y][player.x := ' ']];
          score := score + 10;
          dotsLeft := dotsLeft - 1;
        }
      }
    }

    /** Moves every ghost in order, updating its position and heading
        together; `choices[i]` holds the random draws of ghost `i`. */
    method MoveGhosts(choices: seq<GhostChoice>)
      requires Valid() && |choices| == |ghosts| && ValidChoices(choices)
      modifies this
      ensures Valid() && |ghosts| == |ghostDirs|
      ensures State() == AfterGhosts(old(State()), choices)
    {
      AfterGhostsInv(State(), choices);
      var ps, ds := StepGhosts(board, ghosts, ghostDirs, player, choices);
      ghosts, ghostDirs := ps, ds;
    }

    /** Sets `gameOver` when the player shares a cell with some ghost. */
    method CheckCollisions()
      requires Valid()
      modifies this
      ensures Valid() && |ghosts| == |ghostDirs|
      ensures State() == AfterCollisions(old(State()))
    {
      var k := 0;
      while k < |ghosts|
        invariant 0 <= k <= |ghosts|
        invariant forall m :: 0 <= m < k ==> ghosts[m] != player
      {
        if player.x == ghosts[k].x && player.y == ghosts[k].y {
          gameOver := true;
          assert Zip(ghosts, ghostDirs)[k].position == player;
          return;
        }
        k := k + 1;
      }
      assert !Collides(player, Zip(ghosts, ghostDirs));
    }

    /** One iteration of the legacy loop under the game's lock: the
        player, then the ghosts, then the collision check. */
    method Advance(choices: seq<GhostChoice>)
      requires Valid() && |choices| == |ghosts| && ValidChoices(choices)
      modifies this
      ensures Valid() && State() == Tick(old(State()), choices, Legacy)
    {
      MovePlayer();
      MoveGhosts(choices);
      CheckCollisions();
    }

    /** Won: no dot left. */
    function CheckWin(): (b: bool)
      reads this
      ensures b <==> dotsLeft == 0
    {
      dotsLeft == 0
    }

    /** The snapshot: the board as one-character strings, the positions,
        the counters, and `won` exactly when no dot is left. It agrees with
        the service's `ToGameState` of the same session. */
    function GetState(): (s: GameState)
      reads this
      requires Valid()
      ensures s == ToGameState(State(), Width, Height)
      ensures s.ghosts == ghosts
      ensures s.won <==> CheckWin()
    {
      var b := board;
      GameState(seq(Height, i requires 0 <= i < Height => seq(Width, j requires 0 <= j < Width => [b[i][j]])),
                player, ghosts, score, dotsLeft, gameOver, dotsLeft == 0)
    }
  }

  class GameManager {
    var games: map<string, LegacyGame>

    ghost predicate Valid()
      reads this, games.Values
    {
      forall id :: id in games ==> games[id].Valid()
    }

    constructor ()
      ensures Valid() && games == map[]
    {
      games := map[];
    }

    /** The game of a session, or nil. */
    method GetGame(id: string) returns (g: Option<LegacyGame>)
      ensures id in games ==> g == Some(games[id])
      ensures id !in games ==> g == None
    {
      if id in games {
        return Some(games[id]);
      }
      g := None;
    }

    /** Creates a fresh game for the session, replacing any earlier one. */
    method CreateGame(id: string) returns (g: LegacyGame)
      requires Valid()
      modifies this
      ensures Valid() && fresh(g) && g.Valid() && g.State() == InitialGame("")
      ensures games == old(games)[id := g]
    {
      g := new LegacyGame();
      games := games[id := g];
    }

    /** Forgets the session; an absent one is left alone. */
    method DeleteGame(id: string)
      requires Valid()
      modifies this
      ensures Valid() && games == old(games) - {id}
    {
      games := games - {id};
    }

    /** The legacy loop's run: each iteration fetches the game, stops when
        it is absent, over or won, and otherwise moves the player, then the
        ghosts, then checks collisions. */
    method RunGameLoop(id: string, ticks: seq<seq<GhostChoice>>)
      requires id in games ==> games[id].Valid()
      requires ValidTicks(ticks)
      modifies if id in games then {games[id]} else {}
      ensures games == old(games)
      ensures id in games ==> games[id].Valid()
      ensures id in games ==> games[id].State() == RunTicks(old(games[id].State()), ticks, Legacy)
    {
      if id !in games {
        return;
      }
      var g := games[id];
      ghost var cur := g.State();
      ghost var target := RunTicks(cur, ticks, Legacy);
      var k := 0;
      while k < |ticks|
        invariant 0 <= k <= |ticks|
        invariant games == old(games) && games[id] == g
        invariant |g.ghosts| == |g.ghostDirs| && g.State() == cur && GameInv(cur)
        invariant ValidTicks(ticks[k..]) && RunTicks(cur, ticks[k..], Legacy) == target
      {
        var found := GetGame(id);
        if found.None? {
          return;
        }
        var current := found.value;
        RunTicksUnfold(cur, ticks, k, Legacy);
        if current.gameOver || current.CheckWin() {
          return;
        }
        current.Advance(ticks[k]);
        cur := Tick(cur, ticks[k], Legacy);
        k := k + 1;
      }
    }
  }
}
