/**
 * The wrap-around variant of the game (snake.py): a head that leaves the
 * screen re-enters on the opposite edge, food is re-drawn until it lies off
 * the snake, and the game ends only when the head runs into the body.
 */
module WrapGame {

  import opened Grid

  /** The head after one move: one step in the direction, each axis then reduced modulo the screen size. */
  function NextHead(head: Cell, d: Direction): (r: Cell)
    ensures InArea(r)
    ensures Aligned(head) ==> Aligned(r)
    ensures (r.0 - Shift(head, d).0) % ScreenWidth == 0 && (r.1 - Shift(head, d).1) % ScreenHeight == 0
    ensures InArea(Shift(head, d)) ==> r == Shift(head, d)
  {
    var s := Shift(head, d);
    WrapKeepsAlignment(s.0, ScreenWidth);
    WrapKeepsAlignment(s.1, ScreenHeight);
    (s.0 % ScreenWidth, s.1 % ScreenHeight)
  }

  /** Reducing modulo a multiple of CellSize keeps a coordinate on the 10-pixel lattice. */
  lemma WrapKeepsAlignment(a: int, n: int)
    requires n > 0 && n % CellSize == 0
    ensures a % CellSize == 0 ==> (a % n) % CellSize == 0
  {
    if a % CellSize == 0 {
      var k, m, q := a / CellSize, n / CellSize, a / n;
      assert a == CellSize * k && n == CellSize * m;
      assert a % n == a - n * q;
      assert a % n == CellSize * (k - m * q);
    }
  }

  /** Leaving the right edge re-enters at the left edge on the same row. */
  lemma WrapsAtRightEdge(y: int)
    requires 0 <= y < ScreenHeight
    ensures NextHead((ScreenWidth - CellSize, y), Right) == (0, y)
  {
  }

  /** Leaving the top edge re-enters at the bottom row in the same column. */
  lemma WrapsAtTopEdge(x: int)
    requires 0 <= x < ScreenWidth
    ensures NextHead((x, 0), Up) == (x, ScreenHeight - CellSize)
  {
  }

  /**
   * The index of the draw at which the retry loop of `spawn_food` stops: the
   * first draw whose cell is not part of the body.
   */
  function FirstFree(draws: seq<Draw>, body: seq<Cell>): (k: nat)
    requires exists i :: 0 <= i < |draws| && DrawCell(draws[i]) !in body
    ensures k < |draws| && DrawCell(draws[k]) !in body
    ensures forall j :: 0 <= j < k ==> DrawCell(draws[j]) in body
  {
    if DrawCell(draws[0]) !in body then 0
    else
      var i :| 0 <= i < |draws| && DrawCell(draws[i]) !in body;
      assert DrawCell(draws[1..][i - 1]) !in body;
      1 + FirstFree(draws[1..], body)
  }

  class Food {
    var x: int
    var y: int

    function Position(): Cell
      reads this
    {
      (x, y)
    }

    /** A new food item, placed at once by the retry loop. */
    constructor (body: seq<Cell>, draws: seq<Draw>)
      requires exists i :: 0 <= i < |draws| && DrawCell(draws[i]) !in body
      ensures Position() == DrawCell(draws[FirstFree(draws, body)])
      ensures Position() !in body && OnBoard(Position())
    {
      new;
      SpawnFood(body, draws);
    }

    /**
     * Draws cells from `draws` in order until one is off the snake's body.
     * The loop ends only because some draw is free; if every cell of the
     * grid were taken it would run for ever.
     */
    method SpawnFood(body: seq<Cell>, draws: seq<Draw>)
      requires exists i :: 0 <= i < |draws| && DrawCell(draws[i]) !in body
      modifies this
      ensures Position() == DrawCell(draws[FirstFree(draws, body)])
      ensures Position() !in body && OnBoard(Position())
    {
      var i := 0;
      while true
        invariant 0 <= i <= FirstFree(draws, body)
        invariant forall j :: 0 <= j < i ==> DrawCell(draws[j]) in body
        decreases FirstFree(draws, body) - i
      {
        x := draws[i].0 * CellSize;
        y := draws[i].1 * CellSize;
        if (x, y) !in body {
          break;
        }
        i := i + 1;
      }
    }
  }

  class Snake {
    var body: seq<Cell>
    var direction: Direction
    const food: Food

    /**
     * What holds in every state of the game, running or over: the body is
     * never empty, every cell of it and the food lie on the grid, and the
     * food is never under the snake.
     */
    ghost predicate Valid()
      reads this, food
    {
      && |body| >= 1
      && AllOnBoard(body)
      && OnBoard(food.Position())
      && food.Position() !in body
    }

    /** True when the next move will reach the food. */
    ghost predicate WillEat()
      reads this, food
      requires |body| >= 1
    {
      NextHead(body[0], direction) == food.Position()
    }

    /** A one-cell snake at (50, 50) heading right, with its food placed off it. */
    constructor (draws: seq<Draw>)
      requires exists i :: 0 <= i < |draws| && DrawCell(draws[i]) !in [Start]
      ensures Valid() && fresh(food)
      ensures body == [Start] && direction == Right
      ensures food.Position() == DrawCell(draws[FirstFree(draws, [Start])])
    {
      body := [Start];
      direction := Right;
      food := new Food([Start], draws);
    }

    /** True exactly when the head has run into another cell of the body. */
    method CheckSelfCollision() returns (collided: bool)
      requires |body| >= 1
      ensures collided <==> exists i :: 1 <= i < |body| && body[i] == body[0]
      ensures Distinct(body[1..]) ==> (collided <==> !Distinct(body))
    {
      collided := body[0] in body[1..];
      if !collided && Distinct(body[1..]) {
        forall i, j | 0 <= i < j < |body| ensures body[i] != body[j] {
          if i == 0 {
            assert body[j] == body[1..][j - 1];
          } else {
            assert body[i] == body[1..][i - 1] && body[j] == body[1..][j - 1];
          }
        }
      }
    }

    /**
     * True exactly when the head is on the food. Since food is placed off the
     * snake, a head that eats is never on another cell of the body.
     */
    method CheckFoodCollision() returns (ate: bool)
      requires |body| >= 1
      ensures ate <==> body[0] == food.Position()
      ensures ate && food.Position() !in body[1..] ==> body[0] !in body[1..]
    {
      ate := body[0] == food.Position();
    }

    /**
     * One tick. The head moves one cell (wrapping at the edges) and is
     * inserted in front; if it reached the food a new one is drawn off the
     * grown body, otherwise the tail is dropped. The result says whether the
     * next move is scheduled, which is so exactly when the head is not on
     * another cell of the body.
     */
    method Move(draws: seq<Draw>) returns (scheduled: bool)
      requires Valid()
      requires WillEat() ==>
                 exists i :: 0 <= i < |draws| && DrawCell(draws[i]) !in [food.Position()] + body
      modifies this, food
      ensures Valid()
      ensures direction == old(direction)
      ensures body[0] == NextHead(old(body[0]), direction)
      ensures old(WillEat()) ==>
                && body == [body[0]] + old(body)
                && food.Position() == DrawCell(draws[FirstFree(draws, body)])
      ensures !old(WillEat()) ==>
                && body == [body[0]] + old(body)[..|old(body)| - 1]
                && food.Position() == old(food.Position())
      ensures scheduled <==> body[0] !in body[1..]
      ensures scheduled && Distinct(old(body)) ==> Distinct(body)
    {
      var x, y := body[0].0, body[0].1;
      if direction == Up {
        y := y - CellSize;
      } else if direction == Down {
        y := y + CellSize;
      } else if direction == Left {
        x := x - CellSize;
      } else if direction == Right {
        x := x + CellSize;
      }
      x := x % ScreenWidth;
      y := y % ScreenHeight;
      var newHead := (x, y);
      assert newHead == NextHead(old(body[0]), direction);
      ghost var before := body;
      body := [newHead] + body;

      var ate := CheckFoodCollision();
      if ate {
        food.SpawnFood(body, draws);
      } else {
        body := body[..|body| - 1];
      }
      assert body == Advance(before, newHead, ate);

      var collided := CheckSelfCollision();
      scheduled := !collided;
      if scheduled && Distinct(before) {
        AdvanceKeepsDistinct(before, newHead, ate);
      }
    }

    /** The arrow-key handler: `direction` follows the steering rule and nothing else changes. */
    method ChangeDirection(keysym: string)
      modifies this
      ensures direction == Steer(old(direction), keysym)
      ensures direction != Opposite(old(direction))
      ensures body == old(body)
    {
      direction := Steer(direction, keysym);
    }
  }

  /** In this variant the food is never under the snake, so a move that eats never ends the game. */
  lemma EatingNeverEndsTheGame(body: seq<Cell>, food: Cell, d: Direction)
    requires |body| >= 1 && food !in body
    requires NextHead(body[0], d) == food
    ensures NextHead(body[0], d) !in Advance(body, NextHead(body[0], d), true)[1..]
  {
  }

  /**
   * The opening of a game, as a caller sees it through the contracts: a draw
   * that falls on the snake is retried, and the snake eats twice in a row.
   */
  method OpeningMoves() {
    var draws: seq<Draw> := [(5, 5), (6, 5)];
    assert DrawCell(draws[1]) !in [Start];
    var snake := new Snake(draws);
    assert snake.food.Position() == (60, 50);
    draws := [(6, 5), (7, 5)];
    assert DrawCell(draws[1]) !in [snake.food.Position()] + snake.body;
    var scheduled := snake.Move(draws);
    assert snake.body == [(60, 50), (50, 50)] && scheduled;
    assert snake.food.Position() == (70, 50);
    draws := [(0, 0)];
    assert DrawCell(draws[0]) !in [snake.food.Position()] + snake.body;
    scheduled := snake.Move(draws);
    assert snake.body == [(70, 50), (60, 50), (50, 50)] && scheduled;
  }
}
