/** Value types of the game and the board queries on them
    (internal/domain/game.go). */
module Domain {

  /** Movement heading. `NoDirection` means "no pending movement". */
  datatype Direction = Up | Down | Left | Right | NoDirection {

    /** The wire name of a heading; every value other than the four real
        headings is called "none". */
    function ToString(): (s: string)
      ensures s == "none" <==> this == NoDirection
    {
      match this
      case Up => "up"
      case Down => "down"
      case Left => "left"
      case Right => "right"
      case NoDirection => "none"
    }

    /** The heading that undoes this one; `NoDirection` is its own opposite. */
    function Opposite(): (o: Direction)
      ensures o == NoDirection <==> this == NoDirection
    {
      match this
      case Up => Down
      case Down => Up
      case Left => Right
      case Right => Left
      case NoDirection => NoDirection
    }
  }

  /** The four real headings, in the order of their numeric values. */
  const Headings: seq<Direction> := [Up, Down, Left, Right]

  /** Parses a wire name; anything that is not one of the four real names
      (including "none") yields `(NoDirection, false)`. */
  function ParseDirection(s: string): (r: (Direction, bool))
    ensures r.1 <==> s in {"up", "down", "left", "right"}
    ensures r.1 ==> r.0 != NoDirection && r.0.ToString() == s
    ensures !r.1 ==> r.0 == NoDirection
  {
    if s == "up" then (Up, true)
    else if s == "down" then (Down, true)
    else if s == "left" then (Left, true)
    else if s == "right" then (Right, true)
    else (NoDirection, false)
  }

  /** Printing a real heading and parsing it back gives the heading. */
  lemma ParseToString(d: Direction)
    ensures d != NoDirection ==> ParseDirection(d.ToString()) == (d, true)
    ensures d == NoDirection ==> ParseDirection(d.ToString()) == (NoDirection, false)
  {
  }

  function Abs(x: int): (r: int)
    ensures r >= 0 && (r == x || r == -x)
  {
    if x < 0 then -x else x
  }

  /** A board coordinate: `x` is the column, `y` the row. */
  datatype Position = Position(x: int, y: int) {

    /** The neighbouring cell in heading `d` (no bounds checking): exactly one
        coordinate changes, by exactly one; `NoDirection` stays put. */
    function Move(d: Direction): (q: Position)
      ensures d == NoDirection ==> q == this
      ensures d != NoDirection ==> Abs(q.x - x) + Abs(q.y - y) == 1
      ensures (d == Up || d == Down) ==> q.x == x
      ensures (d == Left || d == Right) ==> q.y == y
      ensures d == Up ==> q.y < y
      ensures d == Down ==> q.y > y
      ensures d == Left ==> q.x < x
      ensures d == Right ==> q.x > x
    {
      match d
      case Up => Position(x, y - 1)
      case Down => Position(x, y + 1)
      case Left => Position(x - 1, y)
      case Right => Position(x + 1, y)
      case NoDirection => this
    }

    /** Coordinate-wise equality. */
    predicate Equals(other: Position)
      ensures Equals(other) <==> this == other
    {
      x == other.x && y == other.y
    }
  }

  /** `Equals` is reflexive and symmetric. */
  lemma EqualsReflexiveSymmetric(p: Position, q: Position)
    ensures p.Equals(p)
    ensures p.Equals(q) <==> q.Equals(p)
  {
  }

  /** Moving one step and then one step in the opposite heading returns to
      the starting cell. */
  lemma MoveOpposite(p: Position, d: Direction)
    ensures p.Move(d).Move(d.Opposite()) == p
  {
  }

  /** A ghost: where it is and the heading it last moved in. */
  datatype Ghost = Ghost(position: Position, direction: Direction)

  /** The grid of cell symbols, row by row: '#' wall, '.' dot, ' ' empty. */
  type Board = seq<seq<char>>

  /** One game session. The creation and update timestamps are not modelled. */
  datatype Game = Game(
    id: string,
    board: Board,
    player: Position,
    ghosts: seq<Ghost>,
    score: int,
    dotsLeft: int,
    gameOver: bool,
    playerDir: Direction)

  /** The serialisable snapshot of a session: each cell as a one-character
      string. */
  datatype GameState = GameState(
    board: seq<seq<string>>,
    player: Position,
    ghosts: seq<Position>,
    score: int,
    dotsLeft: int,
    gameOver: bool,
    won: bool)

  /** Errors reported by the store and the service. */
  datatype Error = EmptyId | NilGame | NotFound | GameEnded | SaveFailed

  /** `board` has at least `height` rows of at least `width` cells, so that
      every in-bounds cell can be read. */
  ghost predicate Covers(board: Board, width: int, height: int) {
    |board| >= height && forall i :: 0 <= i < height ==> |board[i]| >= width
  }

  predicate InBounds(pos: Position, width: int, height: int) {
    0 <= pos.x < width && 0 <= pos.y < height
  }

  /** A cell a player or ghost may stand on: inside the board and not a wall. */
  function IsValidPosition(board: Board, pos: Position, width: int, height: int): (b: bool)
    requires Covers(board, width, height)
    ensures !InBounds(pos, width, height) ==> !b
    ensures InBounds(pos, width, height) ==> (b <==> board[pos.y][pos.x] != '#')
  {
    if pos.x < 0 || pos.x >= width || pos.y < 0 || pos.y >= height then false
    else board[pos.y][pos.x] != '#'
  }

  /** The ghosts' positions, in list order. */
  function GhostPositions(ghosts: seq<Ghost>): (ps: seq<Position>)
    ensures |ps| == |ghosts|
    ensures forall i :: 0 <= i < |ghosts| ==> ps[i] == ghosts[i].position
  {
    seq(|ghosts|, i requires 0 <= i < |ghosts| => ghosts[i].position)
  }

  /** The snapshot of a game: a `height` x `width` copy of the board, the
      ghost positions in order, the counters, and `won` exactly when no dot
      is left. */
  function ToGameState(g: Game, width: nat, height: nat): (s: GameState)
    requires Covers(g.board, width, height)
    ensures |s.board| == height
    ensures forall i :: 0 <= i < height ==> |s.board[i]| == width
    ensures forall i, j :: 0 <= i < height && 0 <= j < width ==> s.board[i][j] == [g.board[i][j]]
    ensures s.ghosts == GhostPositions(g.ghosts)
    ensures s.player == g.player && s.score == g.score && s.dotsLeft == g.dotsLeft
    ensures s.gameOver == g.gameOver
    ensures s.won <==> g.dotsLeft == 0
  {
    var board := seq(height, i requires 0 <= i < height =>
      seq(width, j requires 0 <= j < width => [g.board[i][j]]));
    GameState(board, g.player, GhostPositions(g.ghosts), g.score, g.dotsLeft, g.gameOver, g.dotsLeft == 0)
  }
}
