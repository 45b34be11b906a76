/**
 * The walled variant of the game (main.py): the head is not wrapped, a head
 * that leaves the 400 x 400 area ends the game, and food is placed on any
 * cell of the grid, the snake's own cells included.
 */
module WallGame {

  import opened Grid

  class Food {
    var x: int
    var y: int

    function Position(): Cell
      reads this
    {
      (x, y)
    }

    /** Every food position is a cell of the grid. */
    ghost predicate Valid()
      reads this
    {
      OnBoard(Position())
    }

    /** A food item at the cell of one random draw. */
    constructor (d: Draw)
      ensures Valid() && Position() == DrawCell(d)
    {
      x := d.0 * CellSize;
      y := d.1 * CellSize;
    }

    /** Moves the food to the cell of one fresh random draw, whatever lies there. */
    method ResetPosition(d: Draw)
      modifies this
      ensures Valid() && Position() == DrawCell(d)
    {
      x := d.0 * CellSize;
      y := d.1 * CellSize;
    }
  }

  class Snake {
    var body: seq<Cell>
    var direction: Direction
    const food: Food

    /**
     * What holds in every state of the game, running or over: the body is
     * never empty, its cells lie on the 10-pixel lattice, and the food is a
     * cell of the grid.
     */
    ghost predicate Valid()
      reads this, food
    {
      |body| >= 1 && AllAligned(body) && food.Valid()
    }

    /** What also holds while the game runs: the whole body is on the screen and has no repeated cell. */
    ghost predicate Running()
      reads this, food
    {
      Valid() && AllOnBoard(body) && Distinct(body)
    }

    /** True when the next move will reach the food. */
    ghost predicate WillEat()
      reads this, food
      requires |body| >= 1
    {
      Shift(body[0], direction) == food.Position()
    }

    /** A one-cell snake at (50, 50) heading right, sharing the food created before it. */
    constructor (food: Food)
      requires food.Valid()
      ensures Running() && this.food == food
      ensures body == [Start] && direction == Right
      ensures food.Position() == old(food.Position())
    {
      body := [Start];
      this.food := food;
      direction := Right;
    }

    /**
     * True exactly when the head is outside the screen or on another cell of
     * the body.
     */
    method CheckCollision() returns (collided: bool)
      requires |body| >= 1
      ensures collided <==> !InArea(body[0]) || body[0] in body[1..]
      ensures Distinct(body[1..]) ==> (collided <==> !(InArea(body[0]) && Distinct(body)))
    {
      var x, y := body[0].0, body[0].1;
      if x < 0 || x >= ScreenWidth || y < 0 || y >= ScreenHeight {
        return true;
      }
      if (x, y) in body[1..] {
        return true;
      }
      if Distinct(body[1..]) {
        forall i, j | 0 <= i < j < |body| ensures body[i] != body[j] {
          if i == 0 {
            assert body[j] == body[1..][j - 1];
          } else {
            assert body[i] == body[1..][i - 1] && body[j] == body[1..][j - 1];
          }
        }
      }
      return false;
    }

    /**
     * True exactly when both head coordinates equal the food's. Food lies on
     * the grid, so the snake never eats off the screen.
     */
    method CheckFoodCollision() returns (ate: bool)
      requires |body| >= 1
      ensures ate <==> body[0] == food.Position()
      ensures ate && food.Valid() ==> OnBoard(body[0])
    {
      var x, y := body[0].0, body[0].1;
      ate := x == food.x && y == food.y;
    }

    /**
     * One tick. The head moves one cell, with no wrapping, and is inserted
     * in front; if it reached the food the food is re-drawn, otherwise the
     * tail is dropped. The result says whether the next move is scheduled,
     * which is so exactly when the head is on the screen and not on another
     * cell of the body. A head that left the screen stays in the final body.
     */
    method Move(d: Draw) returns (scheduled: bool)
      requires Valid()
      modifies this, food
      ensures Valid()
      ensures direction == old(direction)
      ensures body[0] == Shift(old(body[0]), direction)
      ensures old(WillEat()) ==>
                && body == [body[0]] + old(body)
                && food.Position() == DrawCell(d)
      ensures !old(WillEat()) ==>
                && body == [body[0]] + old(body)[..|old(body)| - 1]
                && food.Position() == old(food.Position())
      ensures scheduled <==> InArea(body[0]) && body[0] !in body[1..]
      ensures scheduled && AllOnBoard(old(body)) && Distinct(old(body)) ==> Running()
    {
      var x, y := body[0].0, body[0].1;
      if direction == Up {
        y := y - CellSize;
      } else if direction == Down {
        y := y + CellSize;
      } else if direction == Left {
        x := x - CellSize;
      } else if direction == Right {
        x := x + CellSize;
      }
      var newHead := (x, y);
      assert newHead == Shift(old(body[0]), direction);
      ghost var before := body;
      body := [newHead] + body;

      var ate := CheckFoodCollision();
      if ate {
        food.ResetPosition(d);
      } else {
        body := body[..|body| - 1];
      }
      assert body == Advance(before, newHead, ate);

      var collided := CheckCollision();
      scheduled := !collided;
      if scheduled && AllOnBoard(before) && Distinct(before) {
        AdvanceKeepsDistinct(before, newHead, ate);
      }
    }

    /** The arrow-key handler: `direction` follows the steering rule and nothing else changes. */
    method ChangeDirection(keysym: string)
      modifies this
      ensures direction == Steer(old(direction), keysym)
      ensures direction != Opposite(old(direction))
      ensures body == old(body)
    {
      direction := Steer(direction, keysym);
    }
  }

  /**
   * Food may be placed on the snake; reaching food that lies on the body
   * grows the snake without dropping the tail, so the head then sits on a
   * body cell and the game ends.
   */
  lemma EatingFoodOnTheBodyEndsTheGame(body: seq<Cell>, food: Cell, d: Direction)
    requires |body| >= 1 && food in body
    requires Shift(body[0], d) == food
    ensures Shift(body[0], d) in Advance(body, Shift(body[0], d), true)[1..]
  {
  }

  /**
   * A head that leaves the screen ends the game, and the final body holds
   * that off-screen head in front of the old body, less its tail unless the
   * off-screen cell was the food's, which cannot be.
   */
  lemma WallHitKeepsHeadInBody(body: seq<Cell>, food: Cell, d: Direction)
    requires |body| >= 1 && OnBoard(food)
    requires !InArea(Shift(body[0], d))
    ensures Shift(body[0], d) != food
    ensures Advance(body, Shift(body[0], d), false) == [Shift(body[0], d)] + body[..|body| - 1]
  {
  }

  /**
   * The opening of a game, as a caller sees it through the contracts: food
   * straight ahead is eaten and the snake grows, a reversing key is ignored,
   * and the next move drops the tail.
   */
  method OpeningMoves() {
    var food := new Food((6, 5));
    var snake := new Snake(food);
    var scheduled := snake.Move((0, 0));
    assert snake.body == [(60, 50), (50, 50)] && scheduled;
    assert food.Position() == (0, 0);
    snake.ChangeDirection("Left");
    assert snake.direction == Right;
    scheduled := snake.Move((0, 0));
    assert snake.body == [(70, 50), (60, 50)] && scheduled;
  }
}
