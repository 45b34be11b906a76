/**
 * The vocabulary both Snake variants share: the 400 x 400 playing area in
 * pixels, cells on its 10-pixel grid, the four directions, the steering rule
 * of the arrow keys and the body update of one move.
 */
module Grid {

  const ScreenWidth: int := 400
  const ScreenHeight: int := 400
  const CellSize: int := 10

  /** Number of grid columns and rows: the range of the random food draws. */
  const Columns: int := ScreenWidth / CellSize
  const Rows: int := ScreenHeight / CellSize

  /** A position in pixels, (x, y); y grows downwards as on a canvas. */
  type Cell = (int, int)

  /** Where the one-cell snake starts. */
  const Start: Cell := (50, 50)

  datatype Option<T> = None | Some(value: T)

  datatype Direction = Up | Down | Left | Right

  /**
   * The pair of results of the two `random.randint(0, n - 1)` calls that
   * place a food item, in grid units.
   */
  type Draw = d: (int, int) | 0 <= d.0 < Columns && 0 <= d.1 < Rows witness (0, 0)

  predicate Aligned(c: Cell) {
    c.0 % CellSize == 0 && c.1 % CellSize == 0
  }

  predicate InArea(c: Cell) {
    0 <= c.0 < ScreenWidth && 0 <= c.1 < ScreenHeight
  }

  /** A cell of the grid: aligned to the 10-pixel lattice and on the screen. */
  predicate OnBoard(c: Cell) {
    Aligned(c) && InArea(c)
  }

  predicate AllOnBoard(s: seq<Cell>) {
    forall i :: 0 <= i < |s| ==> OnBoard(s[i])
  }

  predicate AllAligned(s: seq<Cell>) {
    forall i :: 0 <= i < |s| ==> Aligned(s[i])
  }

  predicate Distinct(s: seq<Cell>) {
    forall i, j :: 0 <= i < j < |s| ==> s[i] != s[j]
  }

  /** The pixel cell a random draw stands for. */
  function DrawCell(d: Draw): (c: Cell)
    ensures OnBoard(c)
    ensures 0 <= c.0 <= ScreenWidth - CellSize && 0 <= c.1 <= ScreenHeight - CellSize
  {
    (d.0 * CellSize, d.1 * CellSize)
  }

  /** Every cell of the grid is the image of some draw, so no cell is out of reach of the food. */
  lemma EveryCellCanBeDrawn(c: Cell)
    requires OnBoard(c)
    ensures exists d: Draw :: DrawCell(d) == c
  {
    var d: Draw := (c.0 / CellSize, c.1 / CellSize);
    assert DrawCell(d) == c;
  }

  function Opposite(d: Direction): Direction {
    match d
    case Up => Down
    case Down => Up
    case Left => Right
    case Right => Left
  }

  lemma OppositeIsInvolution(d: Direction)
    ensures Opposite(d) != d && Opposite(Opposite(d)) == d
  {
  }

  /** The direction an arrow key's name stands for; any other key name stands for none. */
  function KeyDirection(keysym: string): Option<Direction> {
    if keysym == "Up" then Some(Up)
    else if keysym == "Down" then Some(Down)
    else if keysym == "Left" then Some(Left)
    else if keysym == "Right" then Some(Right)
    else None
  }

  /**
   * The direction after a key press: the chain of guarded tests of
   * `change_direction`, each arrow key accepted unless it points back.
   */
  function Steer(current: Direction, keysym: string): (d: Direction)
    ensures d != Opposite(current)
    ensures KeyDirection(keysym).Some? && KeyDirection(keysym).value != Opposite(current) ==>
              d == KeyDirection(keysym).value
    ensures KeyDirection(keysym).None? || KeyDirection(keysym).value == Opposite(current) ==>
              d == current
  {
    if keysym == "Up" && current != Down then Up
    else if keysym == "Down" && current != Up then Down
    else if keysym == "Left" && current != Right then Left
    else if keysym == "Right" && current != Left then Right
    else current
  }

  /**
   * The guard looks at the current direction, not at the direction of the
   * last move, so whatever the direction, two key presses between two moves
   * can turn the snake right round.
   */
  lemma TwoKeysReverse(d: Direction)
    ensures exists k1: string, k2: string :: Steer(Steer(d, k1), k2) == Opposite(d)
  {
    match d
    case Right => assert Steer(Steer(d, "Up"), "Left") == Opposite(d);
    case Left => assert Steer(Steer(d, "Up"), "Right") == Opposite(d);
    case Up => assert Steer(Steer(d, "Left"), "Down") == Opposite(d);
    case Down => assert Steer(Steer(d, "Left"), "Up") == Opposite(d);
  }

  /** A cell moved one step of CellSize pixels in a direction. */
  function Shift(c: Cell, d: Direction): (r: Cell)
    ensures Aligned(c) ==> Aligned(r)
  {
    match d
    case Up => (c.0, c.1 - CellSize)
    case Down => (c.0, c.1 + CellSize)
    case Left => (c.0 - CellSize, c.1)
    case Right => (c.0 + CellSize, c.1)
  }

  /** A step and a step back cancel, and a step always lands on a different cell. */
  lemma ShiftOpposite(c: Cell, d: Direction)
    ensures Shift(Shift(c, d), Opposite(d)) == c
    ensures Shift(c, d) != c
  {
  }

  /**
   * The body after a move: the new head inserted in front and, unless food
   * was eaten, the last cell dropped.
   */
  function Advance(body: seq<Cell>, head: Cell, ate: bool): (r: seq<Cell>)
    requires |body| >= 1
    ensures |r| == if ate then |body| + 1 else |body|
    ensures r[0] == head
    ensures r[1..] == if ate then body else body[..|body| - 1]
    ensures forall i :: 1 <= i < |r| ==> r[i] in body
  {
    var grown := [head] + body;
    if ate then grown else grown[..|grown| - 1]
  }

  /** A body without repeated cells stays so when the new head is not among the other cells. */
  lemma AdvanceKeepsDistinct(body: seq<Cell>, head: Cell, ate: bool)
    requires |body| >= 1 && Distinct(body)
    requires head !in Advance(body, head, ate)[1..]
    ensures Distinct(Advance(body, head, ate))
  {
  }

  /**
   * The tail leaves its cell before the collision test, so a head that
   * moves into the cell the tail vacates does not collide, unless the
   * snake ate on that move.
   */
  lemma VacatedTailIsFree(body: seq<Cell>)
    requires |body| >= 1 && Distinct(body)
    ensures body[|body| - 1] !in Advance(body, body[|body| - 1], false)[1..]
    ensures body[|body| - 1] in Advance(body, body[|body| - 1], true)[1..]
  {
  }
}
