/** The tick engine shared by the refactored service
    (internal/service/game_service.go) and the legacy single-file program
    (main.go): board construction, dot bookkeeping, player movement, ghost
    AI, collisions and one whole tick. The two programs differ only in what
    the player does with no heading set, which `Variant` selects. */
module Engine {
  import opened Domain

  const Width := 20
  const Height := 15
  const ScorePerDot := 10
  const NumGhosts := 3
  /** Percentage of ghost moves that take a random heading. */
  const ErraticPercent := 30

  /** The maze template both programs build their board from. */
  const Maze: seq<string> := [
    "####################",
    "#..................#",
    "#.##.##.##.##.##.###",
    "#..................#",
    "#.##.##....##.##.###",
    "#......##.##......##",
    "#.##.##....##.##.###",
    "#..................#",
    "#.##.##.##.##.##.###",
    "#..................#",
    "#.##....##....##.###",
    "#......##.##......##",
    "#.##....##....##.###",
    "#..................#",
    "####################"
  ]

  /** Which program's player rule applies: the service skips the move when no
      heading is set; the legacy program "moves" onto the current cell. */
  datatype Variant = Service | Legacy

  /** A board of exactly `Height` rows of `Width` cells. */
  ghost predicate Shaped(board: Board) {
    |board| == Height && forall i :: 0 <= i < Height ==> |board[i]| == Width
  }

  // ---------------------------------------------------------------------
  // Counting dots

  function CountRow(row: seq<char>): nat {
    if row == [] then 0
    else CountRow(row[..|row| - 1]) + (if row[|row| - 1] == '.' then 1 else 0)
  }

  /** The number of '.' cells on a board. */
  function CountDots(board: Board): nat {
    if board == [] then 0
    else CountDots(board[..|board| - 1]) + CountRow(board[|board| - 1])
  }

  lemma CountRowAppend(row: seq<char>, c: char)
    ensures CountRow(row + [c]) == CountRow(row) + (if c == '.' then 1 else 0)
  {
    assert (row + [c])[..|row|] == row;
  }

  lemma CountDotsAppend(board: Board, row: seq<char>)
    ensures CountDots(board + [row]) == CountDots(board) + CountRow(row)
  {
    assert (board + [row])[..|board|] == board;
  }

  /** Turning one '.' of a row into ' ' removes exactly one dot. */
  lemma {:induction false} CountRowEat(row: seq<char>, x: int)
    requires 0 <= x < |row| && row[x] == '.'
    ensures CountRow(row[x := ' ']) == CountRow(row) - 1
  {
    var n := |row| - 1;
    if x == n {
      assert row[x := ' '][..n] == row[..n];
    } else {
      assert row[x := ' '][..n] == row[..n][x := ' '];
      CountRowEat(row[..n], x);
    }
  }

  /** Eating the dot at (x, y) lowers the board's dot count by exactly one. */
  lemma {:induction false} CountDotsEat(board: Board, y: int, x: int)
    requires 0 <= y < |board| && 0 <= x < |board[y]| && board[y][x] == '.'
    ensures CountDots(board[y := board[y][x := ' ']]) == CountDots(board) - 1
  {
    var n := |board| - 1;
    var b' := board[y := board[y][x := ' ']];
    if y == n {
      assert b'[..n] == board[..n];
      CountRowEat(board[y], x);
    } else {
      assert b'[..n] == board[..n][y := board[y][x := ' ']];
      CountDotsEat(board[..n], y, x);
    }
  }

  // ---------------------------------------------------------------------
  // Board construction

  /** A maze row cut or padded to `width` cells: its own characters first,
      walls after its end. */
  function PadRow(row: string, width: nat): (r: seq<char>)
    ensures |r| == width
    ensures forall j :: 0 <= j < width && j < |row| ==> r[j] == row[j]
    ensures forall j :: |row| <= j < width ==> r[j] == '#'
  {
    seq(width, j requires 0 <= j < width => if j < |row| then row[j] else '#')
  }

  /** The board built from the first `Height` rows of a maze template. */
  function BoardFrom(maze: seq<string>): (b: Board)
    requires |maze| >= Height
    ensures Shaped(b)
  {
    seq(Height, i requires 0 <= i < Height => PadRow(maze[i], Width))
  }

  function InitialBoard(): Board {
    BoardFrom(Maze)
  }

  /** Fills the board row by row from the maze, padding short rows with
      walls and counting the dots on the way. */
  method BuildBoard(maze: seq<string>) returns (board: Board, dots: int)
    requires |maze| >= Height
    ensures board == BoardFrom(maze)
    ensures dots == CountDots(board)
  {
    board, dots := [], 0;
    var i := 0;
    while i < Height
      invariant 0 <= i <= Height
      invariant board == BoardFrom(maze)[..i]
      invariant dots == CountDots(board)
    {
      var mazeRow := maze[i];
      var row: seq<char> := [];
      var j := 0;
      while j < Width
        invariant 0 <= j <= Width
        invariant row == PadRow(mazeRow, Width)[..j]
        invariant dots == CountDots(board) + CountRow(row)
      {
        CountRowAppend(row, if j < |mazeRow| then mazeRow[j] else '#');
        if j < |mazeRow| {
          row := row + [mazeRow[j]];
          if mazeRow[j] == '.' {
            dots := dots + 1;
          }
        } else {
          row := row + ['#'];
        }
        j := j + 1;
      }
      assert row == PadRow(mazeRow, Width);
      assert BoardFrom(maze)[..i + 1] == BoardFrom(maze)[..i] + [row];
      CountDotsAppend(board, row);
      board := board + [row];
      i := i + 1;
    }
  }

  /** Row `r` arises from row `r0` by eating dots: every cell is unchanged
      or is a dot of `r0` that became empty. */
  ghost predicate EatenRow(r: seq<char>, r0: seq<char>) {
    |r| == |r0| && forall j :: 0 <= j < |r| ==> r[j] == r0[j] || (r0[j] == '.' && r[j] == ' ')
  }

  /** `b` arises from `b0` by eating dots, row by row. */
  ghost predicate Eaten(b: Board, b0: Board) {
    |b| == |b0| && forall i :: 0 <= i < |b| ==> EatenRow(b[i], b0[i])
  }

  /** Eating dots never creates or removes a wall. */
  lemma EatenKeepsWalls(b: Board, b0: Board, i: int, j: int)
    requires Eaten(b, b0) && 0 <= i < |b| && 0 <= j < |b[i]|
    ensures b[i][j] == '#' <==> b0[i][j] == '#'
  {
    assert EatenRow(b[i], b0[i]);
  }

  lemma EatenTransitive(b2: Board, b1: Board, b0: Board)
    requires Eaten(b2, b1) && Eaten(b1, b0)
    ensures Eaten(b2, b0)
  {
    forall i | 0 <= i < |b2|
      ensures EatenRow(b2[i], b0[i])
    {
      assert EatenRow(b2[i], b1[i]) && EatenRow(b1[i], b0[i]);
    }
  }

  // ---------------------------------------------------------------------
  // The session invariant

  /** Start cell of the player and the three ghosts. */
  const PlayerStart := Position(1, 1)
  const InitialGhosts: seq<Ghost> := [
    Ghost(Position(Width - 2, Height - 2), Left),
    Ghost(Position(Width - 2, 1), Left),
    Ghost(Position(1, Height - 2), Right)
  ]

  /** What holds of every session between ticks: the board has its fixed
      shape, `dotsLeft` counts the dots on it, there are three ghosts and
      every entity stands on a cell that is in bounds and not a wall. How the
      board and score relate to the initial ones is stated by `RunTicks`. */
  ghost predicate GameInv(g: Game) {
    && Shaped(g.board)
    && g.dotsLeft == CountDots(g.board)
    && |g.ghosts| == NumGhosts
    && IsValidPosition(g.board, g.player, Width, Height)
    && forall k :: 0 <= k < |g.ghosts| ==> IsValidPosition(g.board, g.ghosts[k].position, Width, Height)
  }

  /** A fresh session as both programs build it. */
  function InitialGame(id: string): (g: Game)
    ensures GameInv(g)
    ensures g.id == id && g.score == 0 && !g.gameOver && g.playerDir == NoDirection
    ensures g.board == InitialBoard()
  {
    var b := InitialBoard();
    assert b[1] == PadRow(Maze[1], Width) && b[13] == PadRow(Maze[13], Width);
    Game(id, b, PlayerStart, InitialGhosts, 0, CountDots(b), false, NoDirection)
  }

  // ---------------------------------------------------------------------
  // Player movement

  /** Where the player ends up, the board after it, and whether a dot was
      eaten. */
  datatype PlayerStep = PlayerStep(board: Board, player: Position, ate: bool)

  /** One player move. The target is the neighbour in the pending heading
      (the current cell itself for `NoDirection` in the legacy program). A
      blocked target leaves everything as it was; an open one is entered,
      and a dot there is eaten. */
  function PlayerMove(board: Board, player: Position, dir: Direction, variant: Variant): (s: PlayerStep)
    requires Shaped(board)
    ensures Shaped(s.board) && Eaten(s.board, board)
    ensures variant == Service && dir == NoDirection ==> s == PlayerStep(board, player, false)
    ensures !IsValidPosition(board, player.Move(dir), Width, Height) ==> s == PlayerStep(board, player, false)
    ensures s.player == player || s.player == player.Move(dir)
    ensures !(variant == Service && dir == NoDirection) && IsValidPosition(board, player.Move(dir), Width, Height) ==>
              s.player == player.Move(dir)
    ensures s.player != player ==> IsValidPosition(board, s.player, Width, Height)
    ensures IsValidPosition(board, player, Width, Height) ==> IsValidPosition(s.board, s.player, Width, Height)
    ensures s.ate ==> InBounds(s.player, Width, Height)
    ensures s.ate && InBounds(s.player, Width, Height) ==> board[s.player.y][s.player.x] == '.' && s.board[s.player.y][s.player.x] == ' '
    ensures s.ate ==> CountDots(s.board) == CountDots(board) - 1
    ensures !s.ate ==> s.board == board
    ensures (s.player == player.Move(dir) && IsValidPosition(board, s.player, Width, Height)
              && !(variant == Service && dir == NoDirection)) ==> (s.ate <==> board[s.player.y][s.player.x] == '.')
  {
    if variant == Service && dir == NoDirection then PlayerStep(board, player, false)
    else
      var np := player.Move(dir);
      if !IsValidPosition(board, np, Width, Height) then PlayerStep(board, player, false)
      else if board[np.y][np.x] == '.' then
        CountDotsEat(board, np.y, np.x);
        PlayerStep(board[np.y := board[np.y][np.x := ' ']], np, true)
      else PlayerStep(board, np, false)
  }

  /** With no heading set the legacy program eats the dot under the player's
      start cell on the first tick; the service does not. */
  lemma NoneHeadingAtStart()
    ensures PlayerMove(InitialBoard(), PlayerStart, NoDirection, Legacy).ate
    ensures !PlayerMove(InitialBoard(), PlayerStart, NoDirection, Service).ate
  {
    assert InitialBoard()[1] == PadRow(Maze[1], Width);
  }

  // ---------------------------------------------------------------------
  // Ghost AI

  /** The random draws one ghost move consumes, injected: a roll in
      [0, 100), a heading index in [0, 4) and a shuffle of the four
      headings. */
  datatype GhostChoice = GhostChoice(roll: int, pick: int, order: seq<Direction>)

  ghost predicate ValidChoice(c: GhostChoice) {
    0 <= c.roll < 100 && 0 <= c.pick < 4 && multiset(c.order) == multiset(Headings)
  }

  ghost predicate ValidChoices(cs: seq<GhostChoice>) {
    forall i :: 0 <= i < |cs| ==> ValidChoice(cs[i])
  }

  function Manhattan(p: Position, q: Position): nat {
    Abs(p.x - q.x) + Abs(p.y - q.y)
  }

  /** The chase heading: along the axis with the larger gap to the target,
      towards it; equal gaps (including none at all) go vertically, down
      when the target is lower and up otherwise. */
  function ChaseHeading(from: Position, target: Position): (d: Direction)
    ensures d != NoDirection
    ensures (d == Left || d == Right) <==> Abs(target.x - from.x) > Abs(target.y - from.y)
    ensures d == Right ==> target.x > from.x
    ensures d == Left ==> target.x < from.x
    ensures d == Down <==> Abs(target.x - from.x) <= Abs(target.y - from.y) && target.y > from.y
    ensures d == Up <==> Abs(target.x - from.x) <= Abs(target.y - from.y) && target.y <= from.y
  {
    var dx := target.x - from.x;
    var dy := target.y - from.y;
    if Abs(dx) > Abs(dy) then (if dx > 0 then Right else Left)
    else (if dy > 0 then Down else Up)
  }

  /** Away from the target, a chase step closes the Manhattan gap by one. */
  lemma ChaseCloses(from: Position, target: Position)
    requires from != target
    ensures Manhattan(from.Move(ChaseHeading(from, target)), target) == Manhattan(from, target) - 1
  {
  }

  /** The heading a ghost tries first: random with the erratic roll,
      otherwise the chase heading. */
  function ChosenHeading(c: GhostChoice, from: Position, target: Position): (d: Direction)
    requires 0 <= c.pick < 4
    ensures d != NoDirection
    ensures c.roll >= ErraticPercent ==> d == ChaseHeading(from, target)
    ensures c.roll < ErraticPercent ==> d == Headings[c.pick]
  {
    if c.roll < ErraticPercent then Headings[c.pick] else ChaseHeading(from, target)
  }

  /** The index of the first heading in `order` that leads from `pos` to an
      open cell, or `|order|` when there is none. */
  function FirstOpen(board: Board, pos: Position, order: seq<Direction>): (k: nat)
    requires Shaped(board)
    ensures k <= |order|
    ensures k < |order| ==> IsValidPosition(board, pos.Move(order[k]), Width, Height)
    ensures forall m :: 0 <= m < k ==> !IsValidPosition(board, pos.Move(order[m]), Width, Height)
  {
    if order == [] then 0
    else if IsValidPosition(board, pos.Move(order[0]), Width, Height) then 0
    else 1 + FirstOpen(board, pos, order[1..])
  }

  /** One ghost move: the chosen heading if its cell is open, otherwise the
      first open heading of the shuffled order, otherwise staying put. */
  function GhostMove(board: Board, g: Ghost, target: Position, c: GhostChoice): (r: Ghost)
    requires Shaped(board) && ValidChoice(c)
    ensures r == g || r.direction != NoDirection
  {
    var d := ChosenHeading(c, g.position, target);
    var np := g.position.Move(d);
    if IsValidPosition(board, np, Width, Height) then Ghost(np, d)
    else
      var k := FirstOpen(board, g.position, c.order);
      if k < |c.order| then
        assert c.order[k] in multiset(Headings) by {
          assert c.order[k] in multiset(c.order);
        }
        Ghost(g.position.Move(c.order[k]), c.order[k])
      else g
  }

  /** The ghost rules: a ghost stays put or takes one step along a real
      heading onto an open cell; it takes the chosen heading whenever that
      cell is open; otherwise it takes the first open heading of the
      shuffled scan (`FirstOpen`); and it stays put exactly when the chosen cell and every
      cell of the shuffled scan are closed. */
  lemma GhostMoveRules(board: Board, g: Ghost, target: Position, c: GhostChoice)
    requires Shaped(board) && ValidChoice(c)
    ensures var r := GhostMove(board, g, target, c);
      r == g || (r.direction != NoDirection && r.position == g.position.Move(r.direction))
    ensures var r := GhostMove(board, g, target, c);
      r == g || IsValidPosition(board, r.position, Width, Height)
    ensures var d := ChosenHeading(c, g.position, target);
      IsValidPosition(board, g.position.Move(d), Width, Height) ==> GhostMove(board, g, target, c) == Ghost(g.position.Move(d), d)
    ensures var d := ChosenHeading(c, g.position, target); var k := FirstOpen(board, g.position, c.order);
      !IsValidPosition(board, g.position.Move(d), Width, Height) && k < |c.order| ==>
        GhostMove(board, g, target, c) == Ghost(g.position.Move(c.order[k]), c.order[k])
    ensures var d := ChosenHeading(c, g.position, target);
      GhostMove(board, g, target, c) == g <==> (!IsValidPosition(board, g.position.Move(d), Width, Height) &&
                   forall m :: 0 <= m < |c.order| ==> !IsValidPosition(board, g.position.Move(c.order[m]), Width, Height))
  {
    var d := ChosenHeading(c, g.position, target);
    if !IsValidPosition(board, g.position.Move(d), Width, Height) {
      var k := FirstOpen(board, g.position, c.order);
      if k < |c.order| {
        assert c.order[k] in multiset(c.order);
        assert GhostMove(board, g, target, c) == Ghost(g.position.Move(c.order[k]), c.order[k]);
      }
    }
  }

  /** A ghost that does not move is walled in on all four sides. */
  lemma {:induction false} StuckGhostIsEnclosed(board: Board, g: Ghost, target: Position, c: GhostChoice)
    requires Shaped(board) && ValidChoice(c)
    requires GhostMove(board, g, target, c) == g
    ensures forall h :: h in Headings ==> !IsValidPosition(board, g.position.Move(h), Width, Height)
  {
    GhostMoveRules(board, g, target, c);
    forall h | h in Headings
      ensures !IsValidPosition(board, g.position.Move(h), Width, Height)
    {
      assert h in multiset(c.order);
      var m :| 0 <= m < |c.order| && c.order[m] == h;
    }
  }

  /** Ghosts never change the board, and a ghost on an open cell stays on an
      open cell. */
  lemma GhostStaysOnOpenCells(board: Board, g: Ghost, target: Position, c: GhostChoice)
    requires Shaped(board) && ValidChoice(c)
    requires IsValidPosition(board, g.position, Width, Height)
    ensures IsValidPosition(board, GhostMove(board, g, target, c).position, Width, Height)
  {
    GhostMoveRules(board, g, target, c);
  }

  /** One ghost move computed as `moveGhosts` does it: pick a heading, try it,
      and otherwise scan the shuffled headings until one is open. */
  method StepGhost(board: Board, g: Ghost, target: Position, c: GhostChoice) returns (r: Ghost)
    requires Shaped(board) && ValidChoice(c)
    ensures r == GhostMove(board, g, target, c)
  {
    var dir: Direction;
    if c.roll < ErraticPercent {
      dir := Headings[c.pick];
    } else {
      var dx := target.x - g.position.x;
      var dy := target.y - g.position.y;
      if Abs(dx) > Abs(dy) {
        dir := if dx > 0 then Right else Left;
      } else {
        dir := if dy > 0 then Down else Up;
      }
    }
    var newPos := g.position.Move(dir);
    if IsValidPosition(board, newPos, Width, Height) {
      r := Ghost(newPos, dir);
    } else {
      r := g;
      var k := 0;
      while k < |c.order|
        invariant 0 <= k <= |c.order|
        invariant forall m :: 0 <= m < k ==> !IsValidPosition(board, g.position.Move(c.order[m]), Width, Height)
        invariant r == g
      {
        var p := g.position.Move(c.order[k]);
        if IsValidPosition(board, p, Width, Height) {
          r := Ghost(p, c.order[k]);
          assert FirstOpen(board, g.position, c.order) == k;
          break;
        }
        k := k + 1;
      }
    }
  }

  /** All ghosts move, in list order, each against the same board and the
      player's new cell. */
  function MoveGhostsSpec(board: Board, ghosts: seq<Ghost>, target: Position, choices: seq<GhostChoice>): (r: seq<Ghost>)
    requires Shaped(board) && |choices| == |ghosts| && ValidChoices(choices)
    ensures |r| == |ghosts|
    ensures forall i :: 0 <= i < |ghosts| ==> r[i] == GhostMove(board, ghosts[i], target, choices[i])
  {
    seq(|ghosts|, i requires 0 <= i < |ghosts| => GhostMove(board, ghosts[i], target, choices[i]))
  }

  // ---------------------------------------------------------------------
  // Collisions and the whole tick

  /** Some ghost stands on `player`. */
  predicate Collides(player: Position, ghosts: seq<Ghost>) {
    exists k :: 0 <= k < |ghosts| && ghosts[k].position.Equals(player)
  }

  /** Play has ended: caught, or every dot eaten. */
  predicate Stopped(g: Game)
    ensures GameInv(g) ==> (Stopped(g) <==> g.gameOver || CountDots(g.board) == 0)
  {
    g.gameOver || g.dotsLeft == 0
  }

  /** The player's move applied to a session: a dot eaten adds
      `ScorePerDot` to the score and takes one off `dotsLeft`; nothing but
      the board, the player and those two counters changes. */
  function AfterPlayer(g: Game, variant: Variant): (t: Game)
    requires Shaped(g.board)
    ensures t.(board := g.board, player := g.player, score := g.score, dotsLeft := g.dotsLeft) == g
    ensures Shaped(t.board) && Eaten(t.board, g.board)
    ensures g.dotsLeft - 1 <= t.dotsLeft <= g.dotsLeft
    ensures t.score - g.score == ScorePerDot * (g.dotsLeft - t.dotsLeft)
    ensures CountDots(t.board) == CountDots(g.board) - (g.dotsLeft - t.dotsLeft)
    ensures var s := PlayerMove(g.board, g.player, g.playerDir, variant);
      t.board == s.board && t.player == s.player && t.dotsLeft == g.dotsLeft - (if s.ate then 1 else 0)
    ensures variant == Service && g.playerDir == NoDirection ==> t == g
    ensures !IsValidPosition(g.board, g.player.Move(g.playerDir), Width, Height) ==> t == g
    ensures IsValidPosition(g.board, g.player, Width, Height) ==> IsValidPosition(t.board, t.player, Width, Height)
  {
    var s := PlayerMove(g.board, g.player, g.playerDir, variant);
    g.(board := s.board, player := s.player,
       score := g.score + (if s.ate then ScorePerDot else 0),
       dotsLeft := g.dotsLeft - (if s.ate then 1 else 0))
  }

  /** Every ghost's move applied to a session, against its board and the
      player's cell; nothing but the ghosts changes. */
  function AfterGhosts(g: Game, choices: seq<GhostChoice>): (t: Game)
    requires Shaped(g.board) && |choices| == |g.ghosts| && ValidChoices(choices)
    ensures t.(ghosts := g.ghosts) == g
    ensures |t.ghosts| == |g.ghosts|
    ensures forall i :: 0 <= i < |g.ghosts| ==> t.ghosts[i] == GhostMove(g.board, g.ghosts[i], g.player, choices[i])
  {
    g.(ghosts := MoveGhostsSpec(g.board, g.ghosts, g.player, choices))
  }

  /** The collision check: the game becomes over when some ghost stands on
      the player's cell, and is never reset; nothing else changes. */
  function AfterCollisions(g: Game): (t: Game)
    ensures t.(gameOver := g.gameOver) == g
    ensures t.gameOver <==> g.gameOver || exists k :: 0 <= k < |g.ghosts| && g.ghosts[k].position == g.player
  {
    g.(gameOver := g.gameOver || Collides(g.player, g.ghosts))
  }

  /** One tick of play: the player moves, then every ghost, then the game is
      over if the player shares a cell with a ghost. */
  function Tick(g: Game, choices: seq<GhostChoice>, variant: Variant): (t: Game)
    requires Shaped(g.board) && |choices| == |g.ghosts| && ValidChoices(choices)
    ensures t.id == g.id && t.playerDir == g.playerDir && |t.ghosts| == |g.ghosts|
    ensures Shaped(t.board) && Eaten(t.board, g.board)
    ensures t.gameOver <==> g.gameOver || Collides(t.player, t.ghosts)
    ensures g.score <= t.score <= g.score + ScorePerDot
    ensures g.dotsLeft - 1 <= t.dotsLeft <= g.dotsLeft
    ensures t.score - g.score == ScorePerDot * (g.dotsLeft - t.dotsLeft)
  {
    AfterCollisions(AfterGhosts(AfterPlayer(g, variant), choices))
  }

  /** The player's move keeps the session invariant: ghosts stay on open
      cells because eating a dot never creates a wall. */
  lemma AfterPlayerInv(g: Game, variant: Variant)
    requires GameInv(g)
    ensures GameInv(AfterPlayer(g, variant))
  {
    var t := AfterPlayer(g, variant);
    forall k | 0 <= k < |t.ghosts|
      ensures IsValidPosition(t.board, t.ghosts[k].position, Width, Height)
    {
      var q := g.ghosts[k].position;
      EatenKeepsWalls(t.board, g.board, q.y, q.x);
    }
  }

  /** The ghosts' moves keep the session invariant. */
  lemma AfterGhostsInv(g: Game, choices: seq<GhostChoice>)
    requires GameInv(g) && |choices| == |g.ghosts| && ValidChoices(choices)
    ensures GameInv(AfterGhosts(g, choices))
  {
    var t := AfterGhosts(g, choices);
    forall k | 0 <= k < |t.ghosts|
      ensures IsValidPosition(t.board, t.ghosts[k].position, Width, Height)
    {
      GhostStaysOnOpenCells(g.board, g.ghosts[k], g.player, choices[k]);
    }
  }

  /** A tick keeps the session invariant. */
  lemma TickPreservesInv(g: Game, choices: seq<GhostChoice>, variant: Variant)
    requires GameInv(g) && |choices| == |g.ghosts| && ValidChoices(choices)
    ensures GameInv(Tick(g, choices, variant))
  {
    AfterPlayerInv(g, variant);
    AfterGhostsInv(AfterPlayer(g, variant), choices);
  }

  /** Each tick of a run carries the random draws of all three ghosts. */
  ghost predicate ValidTicks(ticks: seq<seq<GhostChoice>>) {
    forall k :: 0 <= k < |ticks| ==> |ticks[k]| == NumGhosts && ValidChoices(ticks[k])
  }

  /** The ticks a loop runs: one per element of `ticks` until play stops. */
  function RunTicks(g: Game, ticks: seq<seq<GhostChoice>>, variant: Variant): (r: Game)
    requires GameInv(g) && ValidTicks(ticks)
    ensures GameInv(r) && r.id == g.id && r.playerDir == g.playerDir
    ensures Eaten(r.board, g.board)
    ensures g.gameOver ==> r.gameOver
    ensures r.dotsLeft <= g.dotsLeft
    ensures r.score - g.score == ScorePerDot * (g.dotsLeft - r.dotsLeft)
    ensures Stopped(g) ==> r == g
    decreases |ticks|
  {
    if ticks == [] || Stopped(g) then g
    else
      TickPreservesInv(g, ticks[0], variant);
      var t := Tick(g, ticks[0], variant);
      var r := RunTicks(t, ticks[1..], variant);
      EatenTransitive(r.board, t.board, g.board);
      r
  }

  /** From a fresh session any run keeps the walls of the maze and scores
      ten per dot eaten. */
  lemma RunFromStart(id: string, ticks: seq<seq<GhostChoice>>, variant: Variant)
    requires ValidTicks(ticks)
    ensures var r := RunTicks(InitialGame(id), ticks, variant);
      && Eaten(r.board, InitialBoard())
      && r.score == ScorePerDot * (CountDots(InitialBoard()) - r.dotsLeft)
  {
    var g := InitialGame(id);
    assert g.dotsLeft == CountDots(InitialBoard());
  }

  /** Running the ticks from `k` on is one tick followed by the ticks from
      `k + 1` on, unless play has stopped. */
  lemma RunTicksUnfold(g: Game, ticks: seq<seq<GhostChoice>>, k: int, variant: Variant)
    requires GameInv(g) && ValidTicks(ticks) && 0 <= k < |ticks|
    ensures ValidTicks(ticks[k..]) && ValidTicks(ticks[k + 1..])
    ensures Stopped(g) ==> RunTicks(g, ticks[k..], variant) == g
    ensures !Stopped(g) ==> GameInv(Tick(g, ticks[k], variant))
    ensures !Stopped(g) ==>
              RunTicks(g, ticks[k..], variant) == RunTicks(Tick(g, ticks[k], variant), ticks[k + 1..], variant)
  {
    assert ticks[k..][0] == ticks[k] && ticks[k..][1..] == ticks[k + 1..];
    if !Stopped(g) {
      TickPreservesInv(g, ticks[k], variant);
    }
  }
}
