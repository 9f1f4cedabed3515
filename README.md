# Snake game logic, modelled in Dafny

This project models the deterministic game logic of `the_snake.py`, a Snake
game built on pygame. The board is 640 x 480 pixels, cut into 20-pixel cells.
The model covers the snake's state and its operations: the constructor,
`update_direction`, `move`, `get_head_position` and `reset`. It also covers
the arrow-key guard of `handle_keys`, the apple's `randomize_position` and one
pass of the `main` loop:

1. read the keys;
2. commit the pending direction;
3. move;
4. reset on self-collision, else drop the tail, else eat and re-place the apple.

- `board.dfy` (module `Board`): screen constants, cells, directions, keys, and
  the lattice predicate `OnBoard`.
- `rules.dfy` (module `Rules`): every operation as a function on a
  `SnakeState` value, plus the lemmas that state what the game guarantees.
- `game.dfy` (module `Game`): the classes `Snake` and `Apple`. Their methods
  change the fields in place, as the Python objects do. Each method is proved
  to leave exactly the state that the matching `Rules` function describes.
  `HandleKeys` is the event loop of `handle_keys`. `Frame` is one pass of the
  main loop, including the apple retry loop.

Randomness is passed in by the caller:
- the direction that `reset` picks is the parameter `resetDir`;
- the outcomes of the two `randint` calls are column and row indices (`Draw`), in range 0..31 and 0..23.

The apple retry loop takes draws in order and stops at the first one whose
cell is off the snake. It requires that such a draw exists.

The model follows the code as written:
- A reset does not move the apple. `ResetCanCoverApple` shows a frame after
  which the snake's single cell is the apple's cell.
- The first apple is placed without looking at the snake, so a game can start
  with the apple on the snake's only cell (320, 240). This is why
  `AppleStaysOffSnake` takes "the apple is off the snake" as a premise rather
  than as part of the invariant.
- The edges are handled by four fixed checks (640→0, <0→620, 480→0, <0→460),
  not by modular arithmetic. `NextHead` proves that on the lattice these checks
  equal the step modulo 640 and 480.
- The head is checked against the body while the old tail is still in it
  (`TailCellIsFatal`).

A Python attribute that does not exist yet is modelled as `None`:
- `last` is `None` before the first move.
- `reset` re-runs the constructor, which leaves `last` unchanged.

`if self.next_direction:` is true exactly for a pending direction, because every
direction is a non-empty tuple.

## Model

| member | source | states |
|---|---|---|
| `Rules.Init` | the_snake.py:79-86 | a new snake is one cell at the centre (320, 240), heading right, nothing pending, no last cell; it satisfies the between-frames invariant |
| `Game.Snake.constructor` | the_snake.py:79-86 | the constructed object's fields are `Rules.Init()` |
| `Rules.Head` | the_snake.py:130-131 | the head is a cell of the snake |
| `Game.Snake.GetHeadPosition` | the_snake.py:130-131 | returns the head of the snake's state |
| `Rules.UpdateDirection` | the_snake.py:88-91 | with a pending direction, the direction becomes it and nothing is pending; with none, the state is unchanged; the body and `last` never change |
| `Game.Snake.UpdateDirection` | the_snake.py:88-91 | the new fields equal `Rules.UpdateDirection` of the old ones |
| `Rules.NextHead` | the_snake.py:116-126 | from a lattice cell, the next head is a lattice cell, differs from the old head, and equals the step of 20 px taken modulo 640 and 480 (so 640→0, -20→620, 480→0, -20→460) |
| `Rules.Move` | the_snake.py:116-128 | the list grows by exactly one; the new head is at index 0; the old list follows unchanged, in order; `last` is the old tail; the direction fields are untouched; if every cell was on the lattice, every cell still is |
| `Game.Snake.Move` | the_snake.py:116-128 | the new fields equal `Rules.Move` of the old ones |
| `Rules.Reset` | the_snake.py:133-136 | a reset gives the new-snake state with the chosen direction; `last` is kept |
| `Game.Snake.Reset` | the_snake.py:133-136 | the new fields equal `Rules.Reset` of the old ones |
| `Board.Dir.Opposite` | the_snake.py:17-20 | the opposite direction has the negated delta and is a different direction |
| `Rules.KeyGuard` | the_snake.py:143-151 | a key stores a direction if and only if it is an arrow and its direction is not the reverse of the current one; the stored direction is the key's own |
| `Rules.HandleKeys` | the_snake.py:139-151 | a batch of keys changes only the pending direction |
| `Rules.PendingAfterSnoc` | the_snake.py:140-151 | handling one more key acts on the pending direction the earlier keys left |
| `Rules.LastAcceptedKeyWins` | the_snake.py:140-151 | the last key the guard accepts decides the pending direction |
| `Rules.NoKeyAccepted` | the_snake.py:140-151 | if the guard accepts no key, the pending direction stays as it was |
| `Rules.PendingNeverReverse` | the_snake.py:144-151 | no batch of keys makes the reverse of the current direction pending |
| `Game.HandleKeys` | the_snake.py:139-151 | the loop over key events leaves the state `Rules.HandleKeys` describes |
| `Rules.RandomizePosition` | the_snake.py:56-60 | the cell is a multiple of 20 on each axis, lies inside the given width and height, and has the drawn indices |
| `Rules.DrawCell` | the_snake.py:173-175 | a draw in range gives a cell of the 640 x 480 lattice |
| `Rules.EveryCellCanBeDrawn` | the_snake.py:56-60 | every lattice cell is produced by the draw of its own indices |
| `Game.Apple.constructor` | the_snake.py:62-64 | a new apple is at the cell of its draw, on the lattice |
| `Rules.FirstFreeIndex` | the_snake.py:171-177 | the retry loop stops at a draw whose cell is off the snake, and every earlier draw fell on the snake |
| `Rules.Frame` | the_snake.py:161-177 | one frame. If the next head hits the old body, the snake is reset to `[(320, 240)]` with the chosen direction, nothing pending, and the apple stays. If it misses both the body and the apple, the body shifts: the new head comes first, the old tail is gone, and the length is unchanged. If it hits the apple, the old body is kept with the new head in front, and the new apple is a lattice cell off the snake. In every case `last` is the old tail |
| `Game.Frame` | the_snake.py:161-177 | the in-place frame, retry loop included, leaves the snake and the apple as `Rules.Frame` says |
| `Rules.TailCellIsFatal` | the_snake.py:166-167 | a head moving onto the old tail cell resets the snake |
| `Rules.CollisionBeforeApple` | the_snake.py:166-170 | on self-collision the new snake does not depend on where the apple is |
| `Rules.LengthChange` | the_snake.py:166-177 | after a frame the length is 1, unchanged, or one more |
| `Rules.NoReversal` | the_snake.py:161-163 | with nothing pending between frames, the direction a frame moves in is never the reverse of the previous direction |
| `Rules.FramePreservesInv` | the_snake.py:161-177 | every frame keeps these true: the snake is non-empty, its cells are distinct lattice cells, and nothing is pending |
| `Rules.AppleStaysOffSnake` | the_snake.py:166-177 | an apple off the snake stays off it after a frame, unless the snake dies and restarts on the apple's cell |
| `Rules.ResetCanCoverApple` | the_snake.py:166-167 | some frame ends with the reset snake lying on the apple, because a reset does not move it |

## Left out

- Drawing is not modelled: the `draw` methods, `screen.fill`, display set-up and caption, and `pygame.display.update`. They only call the graphics library.
- The clock and frame pacing (`clock.tick(SPEED)`) are not modelled; they do not affect the state.
- Event polling and the `QUIT` branch of `handle_keys` are left out. The model takes the keys of the key-down events, in order, as a sequence.
- `random.choice` in `reset` becomes the parameter `resetDir`. `random.randint` in `randomize_position` becomes the indices of a `Draw`. The model only constrains them to their ranges.
- The retry loop can run without bound in the source. The model runs it over a finite sequence of draws and requires that one of them is free. That premise is only needed in a frame where the apple is eaten (`Rules.FrameEnabled`).
- `randint` is given the float bound `total / 20 - 1` in the source. The model uses the integer indices 0..31 and 0..23 instead.
- The fields `length`, `head`, `start_dict` and `body_color` are left out. Only the drawing code reads `body_color`; the constructor (and so `reset`) writes `length`, `head` and `start_dict`, and nothing in the game logic uses them.
- `Rules.Reset`: the source's constructor deep-copies its own attributes, the earlier `start_dict` included, so each reset nests one level deeper. Read from the text, enough resets in one session would exceed Python's recursion limit inside `deepcopy`. The model keeps no `start_dict`, and a reset never fails.
- The endless `while True` around the frame is left out. One pass is `Game.Frame`, and `Rules.FramePreservesInv` carries the invariant from one pass to the next.
