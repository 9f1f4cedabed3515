/** The game logic of the_snake.py as values: each operation of the
    snake, the arrow-key guard, the apple placement and one frame of the
    main loop are functions on a `SnakeState`, and the lemmas below state
    what the game promises about them. The classes in module Game perform
    the same operations in place and are proved equal to these functions. */
module Rules {
  import opened Board

  /** The fields of a snake that its methods update. `positions` holds the
      head at index 0; `nextDirection` is the direction requested by a key
      and not yet committed; `last` is the tail cell recorded by the most
      recent move (None before the first move). */
  datatype SnakeState = SnakeState(
    positions: seq<Cell>,
    direction: Dir,
    nextDirection: Option<Dir>,
    last: Option<Cell>)

  /** What holds between two frames: a non-empty snake of distinct cells
      of the lattice, with no direction pending. */
  predicate Inv(s: SnakeState) {
    |s.positions| > 0 && AllOnBoard(s.positions) && Distinct(s.positions) &&
    s.nextDirection == None
  }

  // ---------------------------------------------------------------------
  // Snake.__init__, get_head_position, update_direction, move, reset

  /** A new snake: one cell at the centre, heading right, nothing pending. */
  function Init(): (s: SnakeState)
    ensures Inv(s) && s.positions == [Center]
    ensures s.direction == Right && s.last == None
  {
    SnakeState([Center], Right, None, None)
  }

  function Head(s: SnakeState): (h: Cell)
    requires |s.positions| > 0
    ensures h in s.positions
  {
    s.positions[0]
  }

  /** Commits the pending direction, if any. */
  function UpdateDirection(s: SnakeState): (r: SnakeState)
    ensures s.nextDirection.Some? ==>
              r.direction == s.nextDirection.value && r.nextDirection == None
    ensures s.nextDirection.None? ==> r == s
    ensures r.positions == s.positions && r.last == s.last
  {
    match s.nextDirection
    case Some(d) => s.(direction := d, nextDirection := None)
    case None => s
  }

  /** The cell one step of 20 pixels from `head` in direction `d`, with the
      source's edge checks: x == 640 becomes 0, x < 0 becomes 620, y == 480
      becomes 0, y < 0 becomes 460 (only the first check that fires applies).
      On the lattice this is the step on the 640 x 480 torus. */
  function NextHead(head: Cell, d: Dir): (r: Cell)
    ensures OnBoard(head) ==> OnBoard(r)
    ensures OnBoard(head) ==>
              r == Cell((head.x + GridSize * d.DX()) % ScreenWidth,
                        (head.y + GridSize * d.DY()) % ScreenHeight)
    ensures OnBoard(head) ==> r != head
  {
    var h := Cell(head.x + 20 * d.DX(), head.y + 20 * d.DY());
    if h.x == 640 then Cell(0, h.y)
    else if h.x < 0 then Cell(620, h.y)
    else if h.y == 480 then Cell(h.x, 0)
    else if h.y < 0 then Cell(h.x, 460)
    else h
  }

  /** Puts the next head in front of the body without removing the tail,
      and records the last cell of the lengthened list. */
  function Move(s: SnakeState): (r: SnakeState)
    requires |s.positions| > 0
    ensures |r.positions| == |s.positions| + 1
    ensures r.positions[0] == NextHead(s.positions[0], s.direction)
    ensures r.positions[1..] == s.positions
    ensures r.last == Some(s.positions[|s.positions| - 1])
    ensures r.direction == s.direction && r.nextDirection == s.nextDirection
    ensures AllOnBoard(s.positions) ==> AllOnBoard(r.positions)
  {
    var positions := [NextHead(s.positions[0], s.direction)] + s.positions;
    s.(positions := positions, last := Some(positions[|positions| - 1]))
  }

  /** Re-runs the constructor and then takes `d` (the random choice) as the
      direction. The constructor does not touch `last`, so it survives. */
  function Reset(s: SnakeState, d: Dir): (r: SnakeState)
    ensures r == Init().(direction := d, last := s.last)
  {
    SnakeState([Center], d, None, s.last)
  }

  // ---------------------------------------------------------------------
  // handle_keys: the guard against reversing

  /** The direction each arrow key asks for. */
  function KeyDirection(k: Key): Option<Dir> {
    match k
    case ArrowUp => Some(Up)
    case ArrowDown => Some(Down)
    case ArrowLeft => Some(Left)
    case ArrowRight => Some(Right)
    case Other => None
  }

  /** The direction one key-down event stores as pending, judged against the
      current direction: none for a non-arrow key or for the reverse of
      `current`. */
  function KeyGuard(k: Key, current: Dir): (r: Option<Dir>)
    ensures r.Some? <==>
              KeyDirection(k).Some? && KeyDirection(k).value != current.Opposite()
    ensures r.Some? ==> r == KeyDirection(k) && r.value != current.Opposite()
  {
    if k == ArrowUp && current != Down then Some(Up)
    else if k == ArrowDown && current != Up then Some(Down)
    else if k == ArrowLeft && current != Right then Some(Left)
    else if k == ArrowRight && current != Left then Some(Right)
    else None
  }

  /** The pending direction after one key: the guarded direction if there
      is one, otherwise the pending direction as it was. */
  function Accept(k: Key, current: Dir, pending: Option<Dir>): Option<Dir> {
    if KeyGuard(k, current).Some? then KeyGuard(k, current) else pending
  }

  /** The pending direction after a batch of key-down events, taken in order. */
  function PendingAfter(keys: seq<Key>, current: Dir, pending: Option<Dir>): Option<Dir>
    decreases |keys|
  {
    if keys == [] then pending
    else PendingAfter(keys[1..], current, Accept(keys[0], current, pending))
  }

  /** handle_keys on a snake: only the pending direction changes. */
  function HandleKeys(s: SnakeState, keys: seq<Key>): (r: SnakeState)
    ensures r.positions == s.positions && r.direction == s.direction && r.last == s.last
  {
    s.(nextDirection := PendingAfter(keys, s.direction, s.nextDirection))
  }

  /** One more key at the end of a batch acts on what the batch left. */
  lemma {:induction false} PendingAfterSnoc(keys: seq<Key>, k: Key, current: Dir, pending: Option<Dir>)
    ensures PendingAfter(keys + [k], current, pending)
         == Accept(k, current, PendingAfter(keys, current, pending))
    decreases |keys|
  {
    if keys == [] {
      assert [] + [k] == [k];
      assert [k][1..] == [];
    } else {
      assert (keys + [k])[1..] == keys[1..] + [k];
      PendingAfterSnoc(keys[1..], k, current, Accept(keys[0], current, pending));
    }
  }

  /** The last accepted key of a batch decides the pending direction. */
  lemma {:induction false} LastAcceptedKeyWins(keys: seq<Key>, i: nat, current: Dir, pending: Option<Dir>)
    requires i < |keys| && KeyGuard(keys[i], current).Some?
    requires forall j :: i < j < |keys| ==> KeyGuard(keys[j], current).None?
    ensures PendingAfter(keys, current, pending) == KeyDirection(keys[i])
    decreases |keys|
  {
    if i == 0 {
      NoKeyAccepted(keys[1..], current, Accept(keys[0], current, pending));
    } else {
      LastAcceptedKeyWins(keys[1..], i - 1, current, Accept(keys[0], current, pending));
    }
  }

  /** A batch in which the guard accepts no key leaves the pending direction alone. */
  lemma {:induction false} NoKeyAccepted(keys: seq<Key>, current: Dir, pending: Option<Dir>)
    requires forall j :: 0 <= j < |keys| ==> KeyGuard(keys[j], current).None?
    ensures PendingAfter(keys, current, pending) == pending
    decreases |keys|
  {
    if keys != [] {
      NoKeyAccepted(keys[1..], current, pending);
    }
  }

  /** A batch of keys never makes the reverse of the current direction pending. */
  lemma {:induction false} PendingNeverReverse(keys: seq<Key>, current: Dir, pending: Option<Dir>)
    requires pending.None? || pending.value != current.Opposite()
    ensures var p := PendingAfter(keys, current, pending);
            p.None? || p.value != current.Opposite()
    decreases |keys|
  {
    if keys != [] {
      PendingNeverReverse(keys[1..], current, Accept(keys[0], current, pending));
    }
  }

  // ---------------------------------------------------------------------
  // Apple.randomize_position and the retry loop of main

  /** Cell indices scaled by 20. The indices stand for the two calls of
      randint(0, total / 20 - 1), whose bounds are inclusive. */
  function RandomizePosition(totalX: int, totalY: int, ix: int, iy: int): (r: Cell)
    requires 0 <= ix <= totalX / GridSize - 1 && 0 <= iy <= totalY / GridSize - 1
    ensures 0 <= r.x && r.x + GridSize <= totalX && r.x % GridSize == 0
    ensures 0 <= r.y && r.y + GridSize <= totalY && r.y % GridSize == 0
    ensures r.x / GridSize == ix && r.y / GridSize == iy
  {
    Cell(ix * 20, iy * 20)
  }

  /** One outcome of the two randint calls: a column and a row index. */
  datatype Draw = Draw(ix: int, iy: int)

  predicate InRange(d: Draw) {
    0 <= d.ix < GridWidth && 0 <= d.iy < GridHeight
  }

  predicate AllInRange(draws: seq<Draw>) {
    forall k :: 0 <= k < |draws| ==> InRange(draws[k])
  }

  /** The apple cell a draw gives, as the source calls randomize_position(640, 480). */
  function DrawCell(d: Draw): (c: Cell)
    requires InRange(d)
    ensures OnBoard(c)
  {
    RandomizePosition(ScreenWidth, ScreenHeight, d.ix, d.iy)
  }

  /** Every cell of the lattice is the outcome of exactly the draw of its indices. */
  lemma EveryCellCanBeDrawn(c: Cell)
    requires OnBoard(c)
    ensures InRange(Draw(c.x / GridSize, c.y / GridSize))
    ensures DrawCell(Draw(c.x / GridSize, c.y / GridSize)) == c
  {
  }

  predicate HasFreeDraw(draws: seq<Draw>, occupied: seq<Cell>)
    requires AllInRange(draws)
  {
    exists k :: 0 <= k < |draws| && DrawCell(draws[k]) !in occupied
  }

  /** Where the retry loop stops: the first draw whose cell is not occupied. */
  function FirstFreeIndex(draws: seq<Draw>, occupied: seq<Cell>): (k: nat)
    requires AllInRange(draws) && HasFreeDraw(draws, occupied)
    ensures k < |draws| && DrawCell(draws[k]) !in occupied
    ensures forall j :: 0 <= j < k ==> DrawCell(draws[j]) in occupied
    decreases |draws|
  {
    if DrawCell(draws[0]) !in occupied then 0
    else
      assert AllInRange(draws[1..]);
      assert HasFreeDraw(draws[1..], occupied) by {
        var k :| 0 <= k < |draws| && DrawCell(draws[k]) !in occupied;
        assert k > 0 && draws[1..][k - 1] == draws[k];
      }
      var k := FirstFreeIndex(draws[1..], occupied);
      assert forall j :: 1 <= j < k + 1 ==> draws[j] == draws[1..][j - 1];
      k + 1
  }

  // ---------------------------------------------------------------------
  // One frame of the main loop

  /** How a frame ends once the snake has moved. */
  datatype Outcome = Died | Moved | Grew

  /** Self-collision is checked first, against the whole body after the new
      head (the old tail is still there), and only then the apple. */
  function Classify(t: SnakeState, apple: Cell): Outcome
    requires |t.positions| > 0
  {
    if t.positions[0] in t.positions[1..] then Died
    else if t.positions[0] != apple then Moved
    else Grew
  }

  /** The snake after handle_keys, update_direction and move. */
  function Advance(s: SnakeState, keys: seq<Key>): SnakeState
    requires |s.positions| > 0
  {
    Move(UpdateDirection(HandleKeys(s, keys)))
  }

  /** What a frame needs: a snake, draws in range, and, when the apple is
      eaten, a draw that lands off the snake (the retry loop would run for
      ever otherwise). */
  predicate FrameEnabled(s: SnakeState, apple: Cell, keys: seq<Key>, draws: seq<Draw>) {
    |s.positions| > 0 && AllInRange(draws) &&
    (Classify(Advance(s, keys), apple) == Grew ==> HasFreeDraw(draws, Advance(s, keys).positions))
  }

  /** One frame: the new snake and the new apple cell. `resetDir` is the
      random direction a reset picks; `draws` are the randint outcomes the
      retry loop consumes. */
  function Frame(s: SnakeState, apple: Cell, keys: seq<Key>, resetDir: Dir, draws: seq<Draw>)
    : (r: (SnakeState, Cell))
    requires FrameEnabled(s, apple, keys, draws)
    ensures var t := Advance(s, keys);
            var head := t.positions[0];
            var n := |s.positions|;
            && head == NextHead(s.positions[0], t.direction)
            && r.0.last == Some(s.positions[n - 1])
            && (head in s.positions ==>
                  r.0.positions == [Center] && r.0.direction == resetDir &&
                  r.0.nextDirection == None && r.1 == apple)
            && (head !in s.positions && head != apple ==>
                  r.0.positions == [head] + s.positions[..n - 1] && r.1 == apple &&
                  r.0.direction == t.direction && r.0.nextDirection == None)
            && (head !in s.positions && head == apple ==>
                  r.0.positions == [head] + s.positions &&
                  OnBoard(r.1) && r.1 !in r.0.positions &&
                  r.0.direction == t.direction && r.0.nextDirection == None)
  {
    var t := Advance(s, keys);
    match Classify(t, apple)
    case Died => (Reset(t, resetDir), apple)
    case Moved => (t.(positions := t.positions[..|t.positions| - 1]), apple)
    case Grew => (t, DrawCell(draws[FirstFreeIndex(draws, t.positions)]))
  }

  /** A head landing on the cell the tail is about to leave still dies. */
  lemma TailCellIsFatal(s: SnakeState, apple: Cell, keys: seq<Key>, resetDir: Dir, draws: seq<Draw>)
    requires FrameEnabled(s, apple, keys, draws)
    requires Advance(s, keys).positions[0] == s.positions[|s.positions| - 1]
    ensures Classify(Advance(s, keys), apple) == Died
    ensures Frame(s, apple, keys, resetDir, draws).0.positions == [Center]
  {
  }

  /** Self-collision does not depend on the apple: any apple gives the same reset. */
  lemma CollisionBeforeApple(s: SnakeState, apple1: Cell, apple2: Cell, keys: seq<Key>,
                             resetDir: Dir, draws: seq<Draw>)
    requires FrameEnabled(s, apple1, keys, draws) && FrameEnabled(s, apple2, keys, draws)
    requires Advance(s, keys).positions[0] in s.positions
    ensures Frame(s, apple1, keys, resetDir, draws).0 == Frame(s, apple2, keys, resetDir, draws).0
  {
  }

  /** A frame leaves the snake's length as it was, adds one cell, or resets it to one. */
  lemma LengthChange(s: SnakeState, apple: Cell, keys: seq<Key>, resetDir: Dir, draws: seq<Draw>)
    requires FrameEnabled(s, apple, keys, draws)
    ensures var n' := |Frame(s, apple, keys, resetDir, draws).0.positions|;
            n' == 1 || n' == |s.positions| || n' == |s.positions| + 1
  {
  }

  /** Between frames no direction is pending, so the direction a frame moves
      in is never the reverse of the one before. */
  lemma NoReversal(s: SnakeState, keys: seq<Key>)
    requires |s.positions| > 0 && s.nextDirection == None
    ensures Advance(s, keys).direction != s.direction.Opposite()
  {
    PendingNeverReverse(keys, s.direction, None);
  }

  /** Every frame keeps the snake non-empty, on the lattice and free of
      repeated cells, and leaves nothing pending. */
  lemma FramePreservesInv(s: SnakeState, apple: Cell, keys: seq<Key>,
                           resetDir: Dir, draws: seq<Draw>)
    requires Inv(s) && FrameEnabled(s, apple, keys, draws)
    ensures Inv(Frame(s, apple, keys, resetDir, draws).0)
  {
  }

  /** An apple off the snake stays off it, unless the snake dies and its new
      single cell happens to be the apple's (a reset does not move the apple). */
  lemma AppleStaysOffSnake(s: SnakeState, apple: Cell, keys: seq<Key>,
                            resetDir: Dir, draws: seq<Draw>)
    requires FrameEnabled(s, apple, keys, draws) && apple !in s.positions
    requires Classify(Advance(s, keys), apple) == Died ==> apple != Center
    ensures var r := Frame(s, apple, keys, resetDir, draws);
            r.1 !in r.0.positions
  {
  }

  /** A reset can put the snake on the apple: the apple at the centre stays
      there when a snake dies. The example state is one a game can reach. */
  lemma ResetCanCoverApple()
    ensures exists s: SnakeState, keys: seq<Key>, d: Dir ::
              FrameEnabled(s, Center, keys, []) && Center !in s.positions &&
              Center in Frame(s, Center, keys, d, []).0.positions
  {
    var a, b, c, e := Cell(0, 0), Cell(20, 0), Cell(20, 20), Cell(0, 20);
    // A square of four cells: the snake moved right into a from (620, 0)
    // across the left edge, the tail it dropped last frame, then right, down
    // and left to e; the up arrow now turns it into its own tail.
    var s := SnakeState([e, c, b, a], Left, None, Some(Cell(620, 0)));
    var keys := [ArrowUp];
    assert PendingAfter(keys, Left, None) == Some(Up);
    assert NextHead(e, Up) == a;
    assert Advance(s, keys).positions == [a, e, c, b, a];
    assert FrameEnabled(s, Center, keys, []);
    assert Frame(s, Center, keys, Up, []).0.positions == [Center];
  }
}
