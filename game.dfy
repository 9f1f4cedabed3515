/** The objects of the_snake.py, updated in place: the snake, the apple,
    handle_keys over a batch of key-down events, and one pass of the main
    loop. Every method is proved to produce the state the matching function
    of module Rules describes. */
module Game {
  import opened Board
  import Rules

  class Snake {
    var positions: seq<Cell>
    var direction: Dir
    var nextDirection: Option<Dir>
    var last: Option<Cell>

    /** The fields as a value. */
    function State(): Rules.SnakeState
      reads this
    {
      Rules.SnakeState(positions, direction, nextDirection, last)
    }

    constructor ()
      ensures State() == Rules.Init()
    {
      positions := [Center];
      direction := Right;
      nextDirection := None;
      last := None;
    }

    method UpdateDirection()
      modifies this
      ensures State() == Rules.UpdateDirection(old(State()))
    {
      if nextDirection.Some? {
        direction := nextDirection.value;
        nextDirection := None;
      }
    }

    method Move()
      requires |positions| > 0
      modifies this
      ensures State() == Rules.Move(old(State()))
    {
      var head := Rules.NextHead(positions[0], direction);
      positions := [head] + positions;
      last := Some(positions[|positions| - 1]);
    }

    function GetHeadPosition(): (h: Cell)
      reads this
      requires |positions| > 0
      ensures h == Rules.Head(State())
    {
      positions[0]
    }

    /** Re-initialises the snake, then takes `d` as its direction. */
    method Reset(d: Dir)
      modifies this
      ensures State() == Rules.Reset(old(State()), d)
    {
      positions := [Center];
      direction := Right;
      nextDirection := None;
      direction := d;
    }
  }

  class Apple {
    var position: Cell

    /** A new apple at the cell of the draw `d`. */
    constructor (d: Rules.Draw)
      requires Rules.InRange(d)
      ensures position == Rules.DrawCell(d) && OnBoard(position)
    {
      position := Rules.RandomizePosition(ScreenWidth, ScreenHeight, d.ix, d.iy);
    }
  }

  /** Each key-down event, in order, may set the pending direction; the
      guard looks at the current direction, which does not change here. */
  method HandleKeys(snake: Snake, keys: seq<Key>)
    modifies snake
    ensures snake.State() == Rules.HandleKeys(old(snake.State()), keys)
  {
    for i := 0 to |keys|
      invariant snake.State() == Rules.HandleKeys(old(snake.State()), keys[..i])
    {
      var guarded := Rules.KeyGuard(keys[i], snake.direction);
      if guarded.Some? {
        snake.nextDirection := guarded;
      }
      Rules.PendingAfterSnoc(keys[..i], keys[i], old(snake.direction), old(snake.nextDirection));
      assert keys[..i + 1] == keys[..i] + [keys[i]];
    }
    assert keys[..|keys|] == keys;
  }

  /** One pass of the main loop, without the drawing: keys, commit the
      direction, move, then die, drop the tail, or eat and re-place the
      apple by drawing until a draw misses the snake. */
  method Frame(snake: Snake, apple: Apple, keys: seq<Key>, resetDir: Dir, draws: seq<Rules.Draw>)
    requires Rules.FrameEnabled(snake.State(), apple.position, keys, draws)
    modifies snake, apple
    ensures (snake.State(), apple.position)
         == Rules.Frame(old(snake.State()), old(apple.position), keys, resetDir, draws)
  {
    HandleKeys(snake, keys);
    snake.UpdateDirection();
    snake.Move();
    ghost var t := Rules.Advance(old(snake.State()), keys);
    assert snake.State() == t;
    var head := snake.GetHeadPosition();
    if head in snake.positions[1..] {
      snake.Reset(resetDir);
    } else if head != apple.position {
      snake.positions := snake.positions[..|snake.positions| - 1];
    } else {
      assert Rules.Classify(t, apple.position) == Rules.Grew;
      var i := 0;
      apple.position := Rules.RandomizePosition(ScreenWidth, ScreenHeight, draws[0].ix, draws[0].iy);
      while apple.position in snake.positions
        invariant 0 <= i < |draws|
        invariant apple.position == Rules.DrawCell(draws[i])
        invariant forall j :: 0 <= j < i ==> Rules.DrawCell(draws[j]) in snake.positions
        invariant exists k :: i <= k < |draws| && Rules.DrawCell(draws[k]) !in snake.positions
        modifies apple
        decreases |draws| - i
      {
        i := i + 1;
        apple.position := Rules.RandomizePosition(ScreenWidth, ScreenHeight, draws[i].ix, draws[i].iy);
      }
      // The loop stops at the first free draw, which is where Rules.Frame puts the apple.
      assert i == Rules.FirstFreeIndex(draws, t.positions);
    }
  }
}
