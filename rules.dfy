/** The turn rule of one game: the session state the game loop keeps in its
    locals, what a gravity tick, a held arrow key and a rotation do to it, and
    what one pass of the loop (events, gravity, keys) does as a whole. These
    functions are the specification the imperative session is proved against. */
module Rules {
  import opened Constants
  import opened Board
  import opened Rotation

  /** The locals of one game: board, falling piece (mask, anchor, type),
      score, cleared-row total, and whether the loop is still running. */
  datatype GameState = GameState(
    grid: Grid, piece: Mask, x: int, y: int, kind: PieceType,
    score: nat, lines: nat, running: bool)

  /** Mask m turned clockwise k times. */
  function Turns(m: Mask, k: nat): Mask
  {
    if k == 0 then m else Rotated(Turns(m, k - 1))
  }

  lemma {:induction false} TurnsKeepCellCount(m: Mask, k: nat)
    ensures CellCount(Turns(m, k)) == CellCount(m)
  {
    if k > 0 {
      TurnsKeepCellCount(m, k - 1);
      RotationKeepsCellCount(Turns(m, k - 1));
    }
  }

  /** One more turn of the k-th turn is again one of the four orientations. */
  lemma TurnAgain(m: Mask, k: nat)
    requires k < 4
    ensures Rotated(Turns(m, k)) == Turns(m, (k + 1) % 4)
  {
    if k == 3 {
      FourTurnsAreIdentity(m);
    }
  }

  /** The falling piece is one of the four orientations of its type's shape. */
  predicate IsOrientationOf(piece: Mask, t: PieceType)
  {
    exists k :: 0 <= k < 4 && piece == Turns(Shape(t), k)
  }

  /** What the loop keeps true: no complete row is left on the board, the
      piece is an orientation of its catalogue shape, and while the game runs
      the piece does not collide. */
  predicate Invariant(s: GameState)
  {
    NoFullRows(s.grid) && IsOrientationOf(s.piece, s.kind) &&
    (s.running ==> !Collides(s.grid, s.piece, s.x, s.y))
  }

  /** The falling piece is always a tetromino. */
  lemma InvariantPieceHasFourCells(s: GameState)
    requires Invariant(s)
    ensures CellCount(s.piece) == 4
  {
    var k :| 0 <= k < 4 && s.piece == Turns(Shape(s.kind), k);
    TurnsKeepCellCount(Shape(s.kind), k);
    CatalogueIsTetrominoes(s.kind);
  }

  /** Session start: empty board, first piece at the spawn anchor, nothing scored. */
  function NewGame(first: PieceType): (g: GameState)
    ensures g.running && !Collides(g.grid, g.piece, g.x, g.y)
  {
    SpawnFitsOnEmptyBoard(first);
    GameState(EmptyGrid, Shape(first), SpawnX, SpawnY, first, 0, 0, true)
  }

  lemma NoFullRowsOnEmptyGrid()
    ensures NoFullRows(EmptyGrid)
  {
    EmptyRowNotFull();
  }

  /** A new game satisfies the invariant and is running: it never starts over. */
  lemma NewGameIsValid(first: PieceType)
    ensures Invariant(NewGame(first)) && NewGame(first).running
    ensures NewGame(first).score == 0 && NewGame(first).lines == 0
  {
    SpawnFitsOnEmptyBoard(first);
    NoFullRowsOnEmptyGrid();
    assert Shape(first) == Turns(Shape(first), 0);
  }

  // ---------------------------------------------------------------------
  // Gravity

  /** The board after locking the piece where it stands and removing the full rows. */
  function Settled(s: GameState): Grid
  {
    Compacted(Lock(s.grid, s.piece, s.x, s.y))
  }

  /** The number of rows that landing the piece where it stands completes. */
  function Completed(s: GameState): nat
  {
    FullCount(Lock(s.grid, s.piece, s.x, s.y))
  }

  /** Landing: lock, clear, score, and spawn the next piece at the spawn
      anchor; the game stops if that piece collides there. */
  function Land(s: GameState, next: PieceType): (t: GameState)
    ensures t.score >= s.score && t.lines >= s.lines && (t.running ==> s.running)
  {
    var n := Completed(s);
    var g := Settled(s);
    var score := s.score + Points(n);
    var lines := s.lines + n;
    var over := Collides(g, Shape(next), SpawnX, SpawnY);
    GameState(g, Shape(next), SpawnX, SpawnY, next, score, lines, if over then false else s.running)
  }

  /** The piece cannot move down one row. */
  predicate Grounded(s: GameState)
  {
    Collides(s.grid, s.piece, s.x, s.y + 1)
  }

  /** One gravity tick: one row down if that fits, otherwise land and spawn next. */
  function Gravity(s: GameState, next: PieceType): (t: GameState)
    ensures t.score >= s.score && t.lines >= s.lines && (t.running ==> s.running)
  {
    if !Grounded(s) then s.(y := s.y + 1) else Land(s, next)
  }

  /** The tick ends the game: the piece lands and the next one collides at spawn. */
  predicate TopsOut(s: GameState, next: PieceType)
  {
    Grounded(s) && Collides(Settled(s), Shape(next), SpawnX, SpawnY)
  }

  /** What a gravity tick does, in the terms of the rules: a free piece falls
      one row and nothing else changes; a grounded piece is locked, the n rows
      it completes (at most four) are removed with n * GridWidth cells, the
      score grows by Points(n) and the line total by n, the next piece appears
      at the spawn anchor, and the game stops exactly when that piece collides. */
  lemma GravityOutcome(s: GameState, next: PieceType)
    requires Invariant(s)
    ensures var t := Gravity(s, next);
      !Grounded(s) ==> t == s.(y := s.y + 1)
    ensures var t := Gravity(s, next); var n := Completed(s);
      Grounded(s) ==>
        n <= 4 && t.score == s.score + Points(n) && t.lines == s.lines + n &&
        NoFullRows(t.grid) &&
        Occupied(t.grid) + n * GridWidth == Occupied(Lock(s.grid, s.piece, s.x, s.y)) &&
        t.piece == Shape(next) && t.kind == next && t.x == SpawnX && t.y == SpawnY &&
        (t.running <==> s.running && !TopsOut(s, next))
  {
    if Grounded(s) {
      var locked := Lock(s.grid, s.piece, s.x, s.y);
      LockFillsAtMostFourRows(s.grid, s.piece, s.x, s.y);
      CompactedHasNoFullRows(locked);
      CompactedCount(locked);
    }
  }

  /** A gravity tick keeps the invariant. */
  lemma GravityKeepsInvariant(s: GameState, next: PieceType)
    requires Invariant(s)
    ensures Invariant(Gravity(s, next))
  {
    if Grounded(s) {
      CompactedHasNoFullRows(Lock(s.grid, s.piece, s.x, s.y));
      assert Shape(next) == Turns(Shape(next), 0);
    }
  }

  // ---------------------------------------------------------------------
  // Held keys

  /** Left, right and down: shift by (dx, dy) when the target does not collide. */
  function MoveBy(s: GameState, dx: int, dy: int): (t: GameState)
    ensures SameBoardAndScore(t, s) && t.piece == s.piece
  {
    if !Collides(s.grid, s.piece, s.x + dx, s.y + dy) then s.(x := s.x + dx, y := s.y + dy) else s
  }

  /** A move changes only the anchor, only to the requested target, and only
      onto a placement that fits; a target that fits is always taken, and a
      move that would collide is a no-op. */
  lemma MoveOutcome(s: GameState, dx: int, dy: int)
    ensures var t := MoveBy(s, dx, dy);
      t.grid == s.grid && t.piece == s.piece && t.kind == s.kind &&
      t.score == s.score && t.lines == s.lines && t.running == s.running
    ensures var t := MoveBy(s, dx, dy);
      (t.x, t.y) == (s.x + dx, s.y + dy) || t == s
    ensures var t := MoveBy(s, dx, dy);
      t != s ==> !Collides(t.grid, t.piece, t.x, t.y)
    ensures !Collides(s.grid, s.piece, s.x + dx, s.y + dy) ==>
      MoveBy(s, dx, dy) == s.(x := s.x + dx, y := s.y + dy)
    ensures Collides(s.grid, s.piece, s.x + dx, s.y + dy) ==> MoveBy(s, dx, dy) == s
  {
  }

  /** Up: rotate with wall kicks. */
  function Rotate(s: GameState): (t: GameState)
    ensures SameBoardAndScore(t, s)
  {
    match TryRotate(s.grid, s.piece, s.x, s.y)
    case Some(p) => s.(piece := p.mask, x := p.x, y := p.y)
    case None => s
  }

  /** Which keys are held down at the moment the frame reads the keyboard. */
  datatype Keys = Keys(left: bool, right: bool, down: bool, up: bool)

  /** The held keys, applied in the order the loop tests them. */
  function ApplyKeys(s: GameState, k: Keys): (t: GameState)
    ensures SameBoardAndScore(t, s)
  {
    var s1 := if k.left then MoveBy(s, -1, 0) else s;
    var s2 := if k.right then MoveBy(s1, 1, 0) else s1;
    var s3 := if k.down then MoveBy(s2, 0, 1) else s2;
    if k.up then Rotate(s3) else s3
  }

  /** t differs from s at most in its piece and anchor. */
  predicate SameBoardAndScore(t: GameState, s: GameState)
  {
    t.grid == s.grid && t.kind == s.kind && t.score == s.score && t.lines == s.lines && t.running == s.running
  }

  lemma MoveKeepsInvariant(s: GameState, dx: int, dy: int)
    requires Invariant(s)
    ensures Invariant(MoveBy(s, dx, dy)) && SameBoardAndScore(MoveBy(s, dx, dy), s)
  {
  }

  lemma RotateKeepsInvariant(s: GameState)
    requires Invariant(s)
    ensures Invariant(Rotate(s)) && SameBoardAndScore(Rotate(s), s)
  {
    var p := TryRotate(s.grid, s.piece, s.x, s.y);
    if p.Some? {
      var k :| 0 <= k < 4 && s.piece == Turns(Shape(s.kind), k);
      TurnAgain(Shape(s.kind), k);
      assert Rotate(s).piece == Turns(Shape(s.kind), (k + 1) % 4);
    }
  }

  /** The keys keep the invariant and never touch the board, the score, the
      line total or the running flag. */
  lemma KeysKeepInvariant(s: GameState, k: Keys)
    requires Invariant(s)
    ensures Invariant(ApplyKeys(s, k)) && SameBoardAndScore(ApplyKeys(s, k), s)
  {
    var s1 := if k.left then MoveBy(s, -1, 0) else s;
    if k.left { MoveKeepsInvariant(s, -1, 0); }
    assert Invariant(s1) && SameBoardAndScore(s1, s);
    var s2 := if k.right then MoveBy(s1, 1, 0) else s1;
    if k.right { MoveKeepsInvariant(s1, 1, 0); }
    assert Invariant(s2) && SameBoardAndScore(s2, s);
    var s3 := if k.down then MoveBy(s2, 0, 1) else s2;
    if k.down { MoveKeepsInvariant(s2, 0, 1); }
    assert Invariant(s3) && SameBoardAndScore(s3, s);
    if k.up { RotateKeepsInvariant(s3); }
  }

  // ---------------------------------------------------------------------
  // One pass of the game loop

  /** An input event: the window's close button, a key press (Escape or
      another key), or anything else. */
  datatype Event = WindowClosed | KeyDown(escape: bool) | OtherEvent

  /** The events that save the score and stop the game. */
  predicate IsQuit(e: Event)
  {
    e.WindowClosed? || (e.KeyDown? && e.escape)
  }

  function QuitCount(events: seq<Event>): (n: nat)
    ensures n <= |events|
    ensures n == 0 <==> forall i :: 0 <= i < |events| ==> !IsQuit(events[i])
  {
    if events == [] then 0
    else QuitCount(events[..|events| - 1]) + (if IsQuit(events[|events| - 1]) then 1 else 0)
  }

  /** The (score, lines) pair the loop hands to the score store. */
  datatype Report = Report(score: nat, lines: nat)

  function Repeat(r: Report, n: nat): (rs: seq<Report>)
    ensures |rs| == n && forall i :: 0 <= i < n ==> rs[i] == r
  {
    if n == 0 then [] else Repeat(r, n - 1) + [r]
  }

  /** What the loop reads in one pass: the queued events, whether the fall
      delay has elapsed, and the held arrow keys. */
  datatype FrameInput = FrameInput(events: seq<Event>, gravityDue: bool, keys: Keys)

  datatype FrameResult = FrameResult(state: GameState, reports: seq<Report>)

  /** One pass of the loop body: each quit event reports the current score and
      clears the running flag; then, when due, a gravity tick (reporting the
      final score on a top-out); then the held keys. The pass runs to its end
      even after a quit. */
  function Frame(s: GameState, input: FrameInput, next: PieceType): (r: FrameResult)
    ensures r.state.score >= s.score && r.state.lines >= s.lines
    ensures r.state.running ==> s.running && QuitCount(input.events) == 0
  {
    var quits := QuitCount(input.events);
    var s1 := if quits > 0 then s.(running := false) else s;
    var s2 := if input.gravityDue then Gravity(s1, next) else s1;
    var over := input.gravityDue && TopsOut(s1, next);
    var reports := Repeat(Report(s.score, s.lines), quits) +
      (if over then [Report(s2.score, s2.lines)] else []);
    FrameResult(ApplyKeys(s2, input.keys), reports)
  }

  /** A pass keeps the invariant, never lowers the score or the line total, and
      the running game stops in it exactly when it reports: once per quit event,
      and once more if the tick tops out. The quit reports carry the (score,
      lines) the pass started with; the top-out report, which comes after them,
      carries the final ones, since the held keys change neither. */
  lemma FrameOutcome(s: GameState, input: FrameInput, next: PieceType)
    requires Invariant(s) && s.running
    ensures var r := Frame(s, input, next);
      Invariant(r.state) && r.state.score >= s.score && r.state.lines >= s.lines
    ensures var r := Frame(s, input, next); var s1 := if QuitCount(input.events) > 0 then s.(running := false) else s;
      |r.reports| == QuitCount(input.events) + (if input.gravityDue && TopsOut(s1, next) then 1 else 0)
    ensures var r := Frame(s, input, next);
      !r.state.running <==> r.reports != []
    ensures var r := Frame(s, input, next); var q := QuitCount(input.events);
      q <= |r.reports| &&
      (forall i :: 0 <= i < q ==> r.reports[i] == Report(s.score, s.lines)) &&
      (|r.reports| > q ==> r.reports[q] == Report(r.state.score, r.state.lines))
  {
    var quits := QuitCount(input.events);
    var s1 := if quits > 0 then s.(running := false) else s;
    var s2 := if input.gravityDue then Gravity(s1, next) else s1;
    GravityKeepsInvariant(s1, next);
    GravityOutcome(s1, next);
    KeysKeepInvariant(s2, input.keys);
    assert SameBoardAndScore(ApplyKeys(s2, input.keys), s2);
  }

  /** A quit and a top-out in the same pass report twice. */
  lemma QuitAndTopOutReportTwice(s: GameState, input: FrameInput, next: PieceType)
    requires Invariant(s) && s.running
    requires QuitCount(input.events) == 1 && input.gravityDue
    requires TopsOut(s.(running := false), next)
    ensures |Frame(s, input, next).reports| == 2
  {
    FrameOutcome(s, input, next);
  }

  /** A quit followed, in the same pass, by a landing that clears rows without
      topping out reports only the score from before the landing: the points
      the landing earns are never handed out. */
  lemma QuitThenClearUnreported(s: GameState, input: FrameInput, next: PieceType)
    requires Invariant(s) && s.running
    requires QuitCount(input.events) > 0 && input.gravityDue
    requires Grounded(s) && Completed(s) > 0 && !TopsOut(s, next)
    ensures var r := Frame(s, input, next);
      |r.reports| == QuitCount(input.events) &&
      r.reports[|r.reports| - 1].score < r.state.score
  {
    var s1 := s.(running := false);
    FrameOutcome(s, input, next);
    GravityOutcome(s1, next);
    var r := Frame(s, input, next);
    assert r.reports[|r.reports| - 1] == Report(s.score, s.lines);
  }
}
