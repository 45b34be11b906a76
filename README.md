# Snake game state, modelled in Dafny

This project models the game-state logic of the two Snake variants of the
repository, without the tkinter drawing code.

- `snake.py` is the wrap-around variant. A head that leaves the 400 x 400
  screen comes back on the opposite edge. Food is drawn again and again until
  it lies off the snake. The game ends only when the head runs into the body.
- `main.py` is the walled variant. A head that leaves the screen ends the
  game. Food goes to any grid cell, including cells the snake occupies.

Both variants keep the same state: a body (a list of pixel cells, head
first), a direction, and a food item. One move computes the new head and
inserts it in front. It drops the tail unless the head reached the food. Then
it checks for a collision, and that check decides whether the next move is
scheduled or the game is over.

Coordinates stay in pixels, as in the source. They are multiples of
`CellSize = 10` on a 400 x 400 area, and the body starts as `[(50, 50)]`.

Layout:

- `grid.dfy` (module `Grid`) holds what both files share. It has the
  constants, cells, directions and the random draw of a food cell. It has the
  steering rule of `change_direction`, the one-cell step, and `Advance`, which
  is the insert-then-maybe-pop update of the body.
- `wrap_game.dfy` (module `WrapGame`) models `snake.py`, with classes `Food`
  and `Snake`.
- `wall_game.dfy` (module `WallGame`) models `main.py`, with classes `Food`
  and `Snake`.

In each variant the `Snake` class has `body: seq<Cell>`, `direction` and the
`food` object as fields. `Move`, `ChangeDirection`, `SpawnFood` and
`ResetPosition` update those fields in place. Each one's postcondition gives
the new state in terms of the old state. Each `Snake` class has a `Valid()`
invariant that holds in every state, whether the game is running or over:

- `WrapGame`: the body is non-empty, every cell is on the grid, the food is on
  the grid, and the food is not on the body.
- `WallGame`: the body is non-empty, every cell is on the 10-pixel lattice, and
  the food is on the grid. While the game is running, `Running()` also holds:
  every cell is on the screen and no cell repeats.

Where randomness and the event loop come in:

- `random.randint` results are inputs of type `Draw`. A `Draw` is a pair
  `(column, row)` in `[0, 40)²`. `snake.py`'s retry loop reads a sequence of
  such draws. Its precondition is that some draw falls off the snake. The
  function `FirstFree` names the draw at which the loop stops.
- `canvas.after(…, self.move)` becomes the out-parameter `scheduled` of `Move`.
  It is true exactly when the source schedules another move. The caller is
  the event loop, and it calls `Move` again only after `scheduled` was true.
- The key handler gets the key's name (`event.keysym`) as a string.

The model follows these points of the code:

- Coordinates are in pixels, multiples of 10 from the start cell (50, 50) on.
- A full board is no win: `spawn_food` would loop for ever, so the model
  makes "some draw is free" a precondition.
- In `main.py` the off-screen head is inserted into the body before the wall
  check (main.py:44, 51). The final body therefore contains it.
- In `main.py` food is not kept off the snake.

Python's `%` with a positive divisor gives the same result as Dafny's `%`, so
`x %= SCREEN_WIDTH` is modelled as `x % ScreenWidth`.

## Model

| member | source | states |
|---|---|---|
| `Grid.DrawCell` | snake.py:19-20 | a random draw gives a cell on the 10-pixel grid with both coordinates in [0, 390] |
| `Grid.EveryCellCanBeDrawn` | snake.py:19-20 | every grid cell is the cell of some draw, so food can reach every cell |
| `Grid.OppositeIsInvolution` | snake.py:101-108 | the opposite of a direction differs from it, and the opposite of the opposite is the direction itself |
| `Grid.Steer` | snake.py:99-108 | the new direction is never the opposite of the current one; an arrow key that does not point back sets its direction; a reversing or unrecognised key leaves the direction unchanged |
| `Grid.TwoKeysReverse` | snake.py:99-108 | the guard compares with the current direction, so for every direction some two key presses between two moves turn the snake to the opposite direction |
| `Grid.Shift` | snake.py:49-56 | a step of one cell keeps a cell on the 10-pixel lattice |
| `Grid.ShiftOpposite` | snake.py:49-56 | a step followed by a step the opposite way returns to the starting cell, and a step never stays in place |
| `Grid.Advance` | snake.py:62-67 | after eating the body is one longer and `body[1:]` is the old body; otherwise the length is unchanged and `body[1:]` is the old body without its last cell; the new head is in front and every other cell was in the old body |
| `Grid.AdvanceKeepsDistinct` | snake.py:62-73 | if the old body had no repeated cell and the new head is not in `body[1:]`, the new body has no repeated cell |
| `Grid.VacatedTailIsFree` | snake.py:62-69 | on a distinct body, moving into the tail's cell without eating is no collision, and the same move while eating is one |
| `WrapGame.NextHead` | snake.py:47-61 | the new head lies in [0, 400)², is congruent modulo 400 to the old head shifted by 10 in the direction, equals that shifted cell when it is still on screen, and stays on the lattice |
| `WrapGame.WrapKeepsAlignment` | snake.py:58-59 | reducing a multiple of 10 modulo 400 gives a multiple of 10 |
| `WrapGame.WrapsAtRightEdge` | snake.py:55-59 | moving right from x = 390 re-enters at x = 0 on the same row |
| `WrapGame.WrapsAtTopEdge` | snake.py:49-50 | moving up from y = 0 re-enters at y = 390 in the same column |
| `WrapGame.FirstFree` | snake.py:18-22 | the retry loop stops at a draw whose cell is off the body, and every earlier draw was on the body |
| `WrapGame.Food.constructor` | snake.py:10-14 | a new food item is placed by the retry loop: at the first draw off the body |
| `WrapGame.Food.SpawnFood` | snake.py:16-22 | the food ends at the first draw off the body, on the grid and not on the body |
| `WrapGame.Snake.constructor` | snake.py:29-37 | the game starts with body `[(50, 50)]`, direction Right and food placed off the snake; the invariant holds |
| `WrapGame.Snake.CheckSelfCollision` | snake.py:87-89 | true exactly when the head equals a later body cell; when `body[1:]` has no repeats, true exactly when the body has a repeated cell |
| `WrapGame.Snake.CheckFoodCollision` | snake.py:91-93 | true exactly when the head is on the food; when the food is not on the rest of the body, eating means the head is not on the rest of the body either |
| `WrapGame.Snake.Move` | snake.py:45-73 | the new head is the wrapped step; the body grows by the head on eating (food re-drawn off the grown body) or moves with the tail dropped; the next move is scheduled exactly when the head is not in `body[1:]`, and then a body without repeats still has none; the invariant (non-empty, on the grid, food off the snake) is kept in every outcome |
| `WrapGame.Snake.ChangeDirection` | snake.py:99-108 | the direction follows the steering rule and is never reversed; the body is untouched |
| `WrapGame.EatingNeverEndsTheGame` | snake.py:62-69 | with food off the snake, a move that eats cannot put the head on a body cell |
| `WallGame.Food.constructor` | main.py:5-9 | the first food item is at the cell of one draw, on the grid |
| `WallGame.Food.ResetPosition` | main.py:11-15 | the food moves to the cell of one new draw, with no regard to the snake |
| `WallGame.Snake.constructor` | main.py:18-24 | the game starts with body `[(50, 50)]`, direction Right and the given food; the running invariant holds |
| `WallGame.Snake.CheckCollision` | main.py:63-72 | true exactly when the head is off the 400 x 400 area or equals a later body cell; when `body[1:]` has no repeats, false exactly when the head is on screen and the body has no repeated cell |
| `WallGame.Snake.CheckFoodCollision` | main.py:74-76 | true exactly when both head coordinates equal the food's; since food lies on the grid, a head that eats is on the grid |
| `WallGame.Snake.Move` | main.py:31-55 | the new head is the old head shifted by 10, with no wrapping; growth and tail dropping as in the other variant, with food reset to the new draw on eating; the next move is scheduled exactly when the head is on screen and not in `body[1:]`, and then a running body stays on screen and without repeats; an off-screen head stays at the front of the final body |
| `WallGame.Snake.ChangeDirection` | main.py:81-89 | the direction follows the steering rule and is never reversed; the body is untouched |
| `WallGame.EatingFoodOnTheBodyEndsTheGame` | main.py:44-51 | food placed on the body and then reached grows the snake onto itself, so the collision check fails |
| `WallGame.WallHitKeepsHeadInBody` | main.py:43-51 | a step off the screen never reaches the food, so the final body is the off-screen head in front of the old body less its tail |

## Left out

- Drawing is left out: `create_snake`, `update_snake_graphics`, the "Game
  Over" text, the food rectangle and the canvas tags. They only render the
  state.
- The event loop is left out: `canvas.after` self-scheduling, `root.mainloop`
  and key binding. The model's stand-in is the `scheduled` result of `Move`.
  The event loop itself is the caller.
- The distribution of `random.randint` is left out. Draws are inputs.
- The snake.py `Food` holds a reference to the snake and reads `snake.body`.
  The model passes the body to `SpawnFood` as an argument instead, so the
  shared reference (aliasing) is not modelled.
- The difficulty menu, the speeds 150/100/75, `hard_mode` and the Hard-mode
  window-close lockout (snake.py:111-135) are left out. They are UI policy,
  and the `speed` and `hard_mode` parameters of snake.py's `Snake.__init__`
  are dropped with them.
- A "board full" outcome is left out, because neither file has one.
  `WrapGame.Food.SpawnFood`, `WrapGame.Snake.Move`, `WrapGame.Food`'s
  constructor and `WrapGame.Snake`'s constructor require that some draw is
  free.
- The model makes direction an enumeration, where the source uses the
  strings "Up", "Down", "Left" and "Right". Only those four values are ever
  stored, so the source's `if`/`elif` chain in `move` always takes one of its
  four branches.
