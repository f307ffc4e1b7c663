/** The game session as the loop in main keeps it: a board array, a piece
    array, the anchor, the piece type, the score and line total, and the
    running flag, updated step by step. Every method is proved to move the
    session's state exactly as the corresponding function of Rules says. */
module GameLoop {
  import opened Constants
  import opened Board
  import opened Rotation
  import opened Rules

  class Session {
    var grid: array2<Bit>
    var currentPiece: array2<Bit>
    var pieceX: int
    var pieceY: int
    var currentType: PieceType
    var score: nat
    var totalLinesCleared: nat
    var running: bool

    /** The arrays have the board's and the mask's dimensions (so they are
        also distinct). */
    ghost predicate Valid()
      reads this
    {
      grid.Length0 == GridHeight && grid.Length1 == GridWidth &&
      currentPiece.Length0 == 4 && currentPiece.Length1 == 4
    }

    /** The session's locals, read as a value. */
    function State(): GameState
      reads this, grid, currentPiece
      requires Valid()
    {
      GameState(GridCells(grid), MaskCells(currentPiece), pieceX, pieceY, currentType,
        score, totalLinesCleared, running)
    }

    /** Session start: the board is zeroed cell by cell and the first piece,
        drawn by the caller, is copied in at the spawn anchor. */
    constructor(first: PieceType)
      ensures Valid() && fresh(grid) && fresh(currentPiece)
      ensures State() == NewGame(first)
    {
      var g := new Bit[GridHeight, GridWidth];
      for row := 0 to GridHeight
        invariant forall r, c :: 0 <= r < row && 0 <= c < GridWidth ==> g[r, c] == 0
      {
        for col := 0 to GridWidth
          invariant forall r, c :: 0 <= r < row && 0 <= c < GridWidth ==> g[r, c] == 0
          invariant forall c :: 0 <= c < col ==> g[row, c] == 0
        {
          g[row, col] := 0;
        }
      }
      GridExtensionality(GridCells(g), EmptyGrid);
      var p := new Bit[4, 4];
      CopyPiece(p, Pieces[first.Index()]);
      grid := g;
      currentPiece := p;
      pieceX := SpawnX;
      pieceY := SpawnY;
      currentType := first;
      score := 0;
      totalLinesCleared := 0;
      running := true;
    }

    /** Locks the piece into the board where it stands and removes the rows
        that became complete, returning how many there were. */
    method LockAndClear() returns (linesCleared: nat)
      requires Valid()
      modifies grid
      ensures GridCells(grid) == Settled(old(State()))
      ensures linesCleared == Completed(old(State()))
    {
      LockPiece(grid, currentPiece, pieceX, pieceY);
      linesCleared := ClearCompleteLines(grid);
    }

    /** After a landing: the next piece appears at the spawn anchor, and the
        game stops if it collides there. */
    method SpawnNext(next: PieceType) returns (toppedOut: bool)
      requires Valid()
      modifies this, currentPiece
      ensures Valid() && grid == old(grid) && currentPiece == old(currentPiece)
      ensures toppedOut == Collides(old(State()).grid, Shape(next), SpawnX, SpawnY)
      ensures State() == old(State()).(piece := Shape(next), x := SpawnX, y := SpawnY, kind := next,
        running := if toppedOut then false else old(running))
    {
      pieceX := SpawnX;
      pieceY := SpawnY;
      currentType := next;
      CopyPiece(currentPiece, Pieces[currentType.Index()]);
      toppedOut := CheckCollision(grid, currentPiece, pieceX, pieceY);
      if toppedOut {
        running := false;
      }
    }

    /** The grounded branch of the fall: lock and clear, score, then spawn. */
    method LandPiece(next: PieceType) returns (toppedOut: bool)
      requires Valid()
      modifies this, grid, currentPiece
      ensures Valid() && grid == old(grid) && currentPiece == old(currentPiece)
      ensures State() == Land(old(State()), next)
      ensures toppedOut == Collides(Settled(old(State())), Shape(next), SpawnX, SpawnY)
    {
      var linesCleared := LockAndClear();
      if linesCleared > 0 {
        totalLinesCleared := totalLinesCleared + linesCleared;
        var points := linesCleared * linesCleared * PointsMultiplier;
        score := score + points;
      }
      toppedOut := SpawnNext(next);
    }

    /** The automatic fall once the fall delay has elapsed. Returns whether
        the freshly spawned piece collided, which ends the game. */
    method GravityTick(next: PieceType) returns (toppedOut: bool)
      requires Valid()
      modifies this, grid, currentPiece
      ensures Valid() && grid == old(grid) && currentPiece == old(currentPiece)
      ensures State() == Gravity(old(State()), next)
      ensures toppedOut == TopsOut(old(State()), next)
    {
      var hit := CheckCollision(grid, currentPiece, pieceX, pieceY + 1);
      if !hit {
        pieceY := pieceY + 1;
        return false;
      }
      toppedOut := LandPiece(next);
    }

    /** A held left, right or down arrow: shift the anchor by (dx, dy) unless
        the shifted piece collides. */
    method Shift(dx: int, dy: int)
      requires Valid()
      modifies this
      ensures Valid() && grid == old(grid) && currentPiece == old(currentPiece)
      ensures State() == MoveBy(old(State()), dx, dy)
    {
      var hit := CheckCollision(grid, currentPiece, pieceX + dx, pieceY + dy);
      if !hit {
        pieceX := pieceX + dx;
        pieceY := pieceY + dy;
      }
    }

    /** A held up arrow: rotate with wall kicks. */
    method RotateCurrent()
      requires Valid()
      modifies this, currentPiece
      ensures Valid() && grid == old(grid) && currentPiece == old(currentPiece)
      ensures State() == Rotate(old(State()))
    {
      var rotated, newX, newY := RotatePieceWithKicks(grid, currentPiece, pieceX, pieceY);
      if rotated {
        pieceX := newX;
        pieceY := newY;
      }
    }

    /** The queued events of one pass: each close-window or Escape event hands
        the current (score, lines) to the score store and stops the game. */
    method HandleEvents(events: seq<Event>) returns (reports: seq<Report>)
      requires Valid()
      modifies this
      ensures Valid() && grid == old(grid) && currentPiece == old(currentPiece)
      ensures reports == Repeat(Report(old(score), old(totalLinesCleared)), QuitCount(events))
      ensures State() == if QuitCount(events) > 0 then old(State()).(running := false) else old(State())
    {
      ghost var s := State();
      reports := [];
      for i := 0 to |events|
        invariant Valid() && grid == old(grid) && currentPiece == old(currentPiece)
        invariant reports == Repeat(Report(s.score, s.lines), QuitCount(events[..i]))
        invariant State() == if QuitCount(events[..i]) > 0 then s.(running := false) else s
      {
        assert events[..i + 1][..i] == events[..i];
        var event := events[i];
        if event.WindowClosed? {
          reports := reports + [Report(score, totalLinesCleared)];
          running := false;
        }
        if event.KeyDown? && event.escape {
          reports := reports + [Report(score, totalLinesCleared)];
          running := false;
        }
      }
      assert events[..|events|] == events;
    }

    /** The held arrow keys of one pass, tested left, right, down, up. */
    method HandleKeys(keys: Keys)
      requires Valid()
      modifies this, currentPiece
      ensures Valid() && grid == old(grid) && currentPiece == old(currentPiece)
      ensures State() == ApplyKeys(old(State()), keys)
    {
      if keys.left {
        Shift(-1, 0);
      }
      if keys.right {
        Shift(1, 0);
      }
      if keys.down {
        Shift(0, 1);
      }
      if keys.up {
        RotateCurrent();
      }
    }

    /** One pass of the game loop while it runs: the queued events, then the
        fall when due, then the held keys. Returns the (score, lines) pairs
        handed to the score store during the pass. */
    method RunFrame(input: FrameInput, next: PieceType) returns (reports: seq<Report>)
      requires Valid() && running
      modifies this, grid, currentPiece
      ensures Valid() && grid == old(grid) && currentPiece == old(currentPiece)
      ensures FrameResult(State(), reports) == Frame(old(State()), input, next)
    {
      reports := HandleEvents(input.events);
      if input.gravityDue {
        var toppedOut := GravityTick(next);
        if toppedOut {
          reports := reports + [Report(score, totalLinesCleared)];
        }
      }
      HandleKeys(input.keys);
    }
  }
}
