/** The game as a state machine over values: one session state, the
    transition for each player action and for the gravity step, and the
    invariant every transition keeps. The imperative engine in module
    Tetris is proved to compute exactly these transitions. */
module Rules {
  import opened Shapes
  import opened Board
  import opened Scoring

  /** The input read by one pass of the main loop: the arrow keys, the
      rotate keys (up arrow, x, z), space, q, and `KeyOther` for no key at
      all and for every key the loop does not handle. */
  datatype Key = KeyLeft | KeyRight | KeyRotate | KeyDown | KeySpace | KeyQuit | KeyOther

  /** Everything the game keeps between passes of the main loop: the board,
      the falling piece, the next shape, the counters, and whether a spawn
      has failed (after which the program ends). */
  datatype Session = Session(cells: Grid, current: Piece, next: ShapeId, stats: Stats, over: bool)

  /** What holds between two passes of the main loop. */
  predicate Inv(s: Session)
  {
    NoFullRow(s.cells) && Consistent(s.stats) && (!s.over ==> Fits(s.cells, s.current))
  }

  /** The next shape enters at the spawn placement and `r` becomes the next
      shape; the game is over when the placement does not fit. */
  function Spawn(s: Session, r: ShapeId): Session
  {
    var p := SpawnAt(s.next);
    s.(current := p, next := r, over := s.over || !Fits(s.cells, p))
  }

  /** The piece comes to rest: lock it, clear full rows, score them, spawn. */
  function Settle(s: Session, r: ShapeId): Session
  {
    var locked := Locked(s.cells, s.current);
    var cleared := FullCount(locked);
    Spawn(s.(cells := AfterClear(locked), stats := Award(s.stats, cleared)), r)
  }

  /** A move takes effect only when the moved piece fits. */
  function Try(s: Session, candidate: Piece): Session
  {
    if Fits(s.cells, candidate) then s.(current := candidate) else s
  }

  function MoveLeft(s: Session): Session { Try(s, s.current.(x := s.current.x - 1)) }

  function MoveRight(s: Session): Session { Try(s, s.current.(x := s.current.x + 1)) }

  function Rotate(s: Session): Session { Try(s, s.current.(rot := (s.current.rot + 1) % 4)) }

  /** One row down if that fits, otherwise the piece settles (soft drop and
      the gravity step share this code). */
  function Fall(s: Session, r: ShapeId): Session
  {
    if Fits(s.cells, Down(s.current)) then s.(current := Down(s.current)) else Settle(s, r)
  }

  /** Hard drop: down while the next row fits, then settle. */
  function Drop(s: Session, r: ShapeId): Session
  {
    Settle(s.(current := Landed(s.cells, s.current)), r)
  }

  /** The branch of the input dispatch taken for `key`; `r` is the shape
      drawn should the action spawn a piece. */
  function ApplyKey(s: Session, key: Key, r: ShapeId): Session
  {
    match key
    case KeyLeft => MoveLeft(s)
    case KeyRight => MoveRight(s)
    case KeyRotate => Rotate(s)
    case KeyDown => Fall(s, r)
    case KeySpace => Drop(s, r)
    case _ => s
  }

  /** One pass of the main loop: the key (if any), then the gravity step
      when it is due. Quit and game over end the program, so they leave the
      state as it is. */
  function Tick(s: Session, key: Key, gravityDue: bool, r1: ShapeId, r2: ShapeId): Session
  {
    if s.over || key == KeyQuit then s
    else
      var s1 := ApplyKey(s, key, r1);
      if gravityDue && !s1.over then Fall(s1, r2) else s1
  }

  /** The loop still runs after a pass. */
  predicate Running(s: Session, key: Key)
  {
    !s.over && key != KeyQuit
  }

  /** `init_game`: an empty board, the first shape as next, one spawn, the
      counters reset. */
  function Init(first: ShapeId, second: ShapeId): Session
  {
    var s := Spawn(Session(EmptyGrid, Piece(0, 0, 0, 0), first, Initial, false), second);
    s.(stats := Initial)
  }

  // ----- the invariant -----

  /** A fresh game satisfies the invariant, and is over at once unless its
      first shape is I. */
  lemma InitInv(first: ShapeId, second: ShapeId)
    ensures Inv(Init(first, second))
    ensures Init(first, second).over <==> first != 0
    ensures Init(first, second).current == SpawnAt(first) && Init(first, second).next == second
  {
    SpawnFits(EmptyGrid, first);
    forall y | 0 <= y < H ensures !IsFull(EmptyGrid[y]) {
      assert EmptyGrid[y][0] == Empty;
    }
  }

  /** Spawning while the game runs: the spawned piece fits exactly when the
      game goes on, and that needs shape I and an empty top row at columns
      3 to 6. */
  lemma SpawnOutcome(s: Session, r: ShapeId)
    requires !s.over
    ensures Spawn(s, r).current == SpawnAt(s.next) && Spawn(s, r).next == r
    ensures Spawn(s, r).over <==> !Fits(s.cells, SpawnAt(s.next))
    ensures !Spawn(s, r).over <==> s.next == 0 && forall x | 3 <= x <= 6 :: s.cells[0][x] == Empty
  {
    SpawnFits(s.cells, s.next);
  }

  lemma SettleInv(s: Session, r: ShapeId)
    requires Inv(s)
    ensures Inv(Settle(s, r))
  {
    AwardMonotone(s.stats, FullCount(Locked(s.cells, s.current)));
  }

  /** Settling a piece that fits adds its four cells and removes W cells
      per cleared row, and clears at most four rows. */
  lemma SettleCounts(s: Session, r: ShapeId)
    requires Inv(s) && !s.over
    ensures var l := Locked(s.cells, s.current);
      FilledCount(Settle(s, r).cells) + W * FullCount(l) == FilledCount(s.cells) + 4 &&
      FullCount(l) <= 4
  {
    var l := Locked(s.cells, s.current);
    LockAddsFour(s.cells, s.current);
    ClearCount(l);
    AtMostFourFull(s.cells, s.current);
  }

  lemma FallInv(s: Session, r: ShapeId)
    requires Inv(s)
    ensures Inv(Fall(s, r))
  {
    if !Fits(s.cells, Down(s.current)) {
      SettleInv(s, r);
    }
  }

  lemma DropInv(s: Session, r: ShapeId)
    requires Inv(s)
    ensures Inv(Drop(s, r))
  {
    SettleInv(s.(current := Landed(s.cells, s.current)), r);
  }

  /** Between two passes of the main loop the falling piece fits the
      board, unless the game is over. */
  lemma TickInv(s: Session, key: Key, gravityDue: bool, r1: ShapeId, r2: ShapeId)
    requires Inv(s)
    ensures Inv(Tick(s, key, gravityDue, r1, r2))
  {
    if !s.over && key != KeyQuit {
      var s1 := ApplyKey(s, key, r1);
      match key {
        case KeyDown => FallInv(s, r1);
        case KeySpace => DropInv(s, r1);
        case _ =>
      }
      assert Inv(s1);
      if gravityDue && !s1.over {
        FallInv(s1, r2);
      }
    }
  }

  /** None of score, level and line count is smaller in `b` than in `a`. */
  predicate NoLess(a: Stats, b: Stats)
  {
    b.score >= a.score && b.level >= a.level && b.lines >= a.lines
  }

  lemma SettleMonotone(s: Session, r: ShapeId)
    requires Consistent(s.stats)
    ensures Consistent(Settle(s, r).stats) && NoLess(s.stats, Settle(s, r).stats)
  {
    AwardMonotone(s.stats, FullCount(Locked(s.cells, s.current)));
  }

  lemma KeyMonotone(s: Session, key: Key, r: ShapeId)
    requires Consistent(s.stats)
    ensures Consistent(ApplyKey(s, key, r).stats) && NoLess(s.stats, ApplyKey(s, key, r).stats)
  {
    match key {
      case KeyDown =>
        if !Fits(s.cells, Down(s.current)) {
          SettleMonotone(s, r);
        }
      case KeySpace => SettleMonotone(s.(current := Landed(s.cells, s.current)), r);
      case _ =>
    }
  }

  /** Score, level and line count never decrease. */
  lemma TickMonotone(s: Session, key: Key, gravityDue: bool, r1: ShapeId, r2: ShapeId)
    requires Consistent(s.stats)
    ensures NoLess(s.stats, Tick(s, key, gravityDue, r1, r2).stats)
  {
    if !s.over && key != KeyQuit {
      var s1 := ApplyKey(s, key, r1);
      KeyMonotone(s, key, r1);
      if gravityDue && !s1.over {
        KeyMonotone(s1, KeyDown, r2);
      }
    }
  }

  /** After the game is over nothing changes any more. */
  lemma OverIsFinal(s: Session, key: Key, gravityDue: bool, r1: ShapeId, r2: ShapeId)
    requires s.over
    ensures Tick(s, key, gravityDue, r1, r2) == s
  {
  }

  // ----- the player's moves -----

  /** A sideways move or a rotation changes only the falling piece, and
      changes it exactly when the candidate placement fits. */
  lemma TryOutcome(s: Session, candidate: Piece)
    ensures Try(s, candidate).current == if Fits(s.cells, candidate) then candidate else s.current
    ensures Try(s, candidate).(current := s.current) == s
  {
  }

  /** A successful step left is undone by a step right. */
  lemma LeftRightUndo(s: Session)
    requires Inv(s) && !s.over
    ensures MoveLeft(s) != s ==> MoveRight(MoveLeft(s)) == s
  {
    var p := s.current;
    assert p.(x := p.x - 1).(x := p.x - 1 + 1) == p;
  }

  /** Four rotations in a row, each of which fits, bring the piece back. */
  lemma RotateFourTimes(s: Session)
    requires forall rot: RotId :: Fits(s.cells, s.current.(rot := rot))
    ensures Rotate(Rotate(Rotate(Rotate(s)))) == s
  {
    var p := s.current;
    var r1, r2, r3 := (p.rot + 1) % 4, (p.rot + 2) % 4, (p.rot + 3) % 4;
    assert Rotate(s).current == p.(rot := r1);
    assert Rotate(Rotate(s)).current == p.(rot := r2);
    assert Rotate(Rotate(Rotate(s))).current == p.(rot := r3);
    assert (p.rot + 4) % 4 == p.rot;
  }

  /** A hard drop locks the piece at the first position, going down, below
      which it does not fit; the board is the one settling there gives. */
  lemma DropLocksLowest(s: Session, r: ShapeId)
    requires Inv(s) && !s.over
    ensures var q := Landed(s.cells, s.current);
      q.x == s.current.x && q.shape == s.current.shape && q.rot == s.current.rot &&
      q.y >= s.current.y && Fits(s.cells, q) && !Fits(s.cells, Down(q)) &&
      Drop(s, r) == Settle(s.(current := q), r)
  {
  }

  // ----- whole runs -----

  /** One pass worth of input. */
  datatype Input = Input(key: Key, gravityDue: bool, r1: ShapeId, r2: ShapeId)

  /** The main loop over a sequence of passes; it stops at Quit or game over. */
  function Run(s: Session, inputs: seq<Input>): Session
    decreases |inputs|
  {
    if inputs == [] || s.over || inputs[0].key == KeyQuit then s
    else
      var i := inputs[0];
      Run(Tick(s, i.key, i.gravityDue, i.r1, i.r2), inputs[1..])
  }

  /** Every state the loop reaches satisfies the invariant, and its counters
      are at least those it started from. */
  lemma {:induction false} RunInv(s: Session, inputs: seq<Input>)
    requires Inv(s)
    ensures Inv(Run(s, inputs))
    ensures NoLess(s.stats, Run(s, inputs).stats)
    decreases |inputs|
  {
    if !(inputs == [] || s.over || inputs[0].key == KeyQuit) {
      var i := inputs[0];
      TickInv(s, i.key, i.gravityDue, i.r1, i.r2);
      TickMonotone(s, i.key, i.gravityDue, i.r1, i.r2);
      RunInv(Tick(s, i.key, i.gravityDue, i.r1, i.r2), inputs[1..]);
    }
  }
}
