/** Piece rotation: copying a 4×4 mask, the clockwise quarter turn, and the
    wall-kick search that places a rotated piece at the first offset that
    fits, or leaves the piece alone. */
module Rotation {
  import opened Constants
  import opened Board

  datatype Option<T> = None | Some(value: T)

  /** copyPiece: copies a 4×4 mask into a piece array. The source is a mask
      value: a catalogue entry, or a snapshot of another piece array. */
  method CopyPiece(dest: array2<Bit>, src: Mask)
    requires dest.Length0 == 4 && dest.Length1 == 4
    modifies dest
    ensures MaskCells(dest) == src
  {
    for i := 0 to 4
      invariant forall r, c :: 0 <= r < i && 0 <= c < 4 ==> dest[r, c] == src[r][c]
    {
      for j := 0 to 4
        invariant forall r, c :: 0 <= r < i && 0 <= c < 4 ==> dest[r, c] == src[r][c]
        invariant forall c :: 0 <= c < j ==> dest[i, c] == src[i][c]
      {
        dest[i, j] := src[i][j];
      }
    }
    MaskExtensionality(MaskCells(dest), src);
  }

  lemma MaskExtensionality(a: Mask, b: Mask)
    requires forall r, c :: 0 <= r < 4 && 0 <= c < 4 ==> a[r][c] == b[r][c]
    ensures a == b
  {
    forall r | 0 <= r < 4
      ensures a[r] == b[r]
    {
      assert forall c :: 0 <= c < 4 ==> a[r][c] == b[r][c];
    }
  }

  /** Rows become columns. */
  function Transpose(m: Mask): Mask
  {
    seq(4, i requires 0 <= i < 4 => seq(4, j requires 0 <= j < 4 => m[j][i]))
  }

  /** Each row read right to left. */
  function MirrorRows(m: Mask): Mask
  {
    seq(4, i requires 0 <= i < 4 => seq(4, j requires 0 <= j < 4 => m[i][3 - j]))
  }

  /** The quarter turn clockwise: transpose, then reverse every row. */
  function Rotated(m: Mask): Mask
  {
    MirrorRows(Transpose(m))
  }

  /** Cell (i, j) of the turned mask is cell (3 - j, i) of the original. */
  lemma RotatedAt(m: Mask, i: nat, j: nat)
    requires i < 4 && j < 4
    ensures Rotated(m)[i][j] == m[3 - j][i]
  {
  }

  /** A turn moves cells around but neither adds nor removes any. */
  lemma RotationKeepsCellCount(m: Mask)
    ensures CellCount(Rotated(m)) == CellCount(m)
  {
    var r := Rotated(m);
    assert r[0] == [m[3][0], m[2][0], m[1][0], m[0][0]];
    assert r[1] == [m[3][1], m[2][1], m[1][1], m[0][1]];
    assert r[2] == [m[3][2], m[2][2], m[1][2], m[0][2]];
    assert r[3] == [m[3][3], m[2][3], m[1][3], m[0][3]];
  }

  /** Four quarter turns give back the original mask. */
  lemma FourTurnsAreIdentity(m: Mask)
    ensures Rotated(Rotated(Rotated(Rotated(m)))) == m
  {
    var r1 := Rotated(m);
    var r2 := Rotated(r1);
    var r3 := Rotated(r2);
    var r4 := Rotated(r3);
    forall i, j | 0 <= i < 4 && 0 <= j < 4
      ensures r4[i][j] == m[i][j]
    {
      RotatedAt(r3, i, j);
      RotatedAt(r2, 3 - j, i);
      RotatedAt(r1, 3 - i, 3 - j);
      RotatedAt(m, j, 3 - i);
    }
    MaskExtensionality(r4, m);
  }

  /** rotatePiece: turns a piece array a quarter clockwise in place, through
      a transposed copy. */
  method RotatePiece(piece: array2<Bit>)
    requires piece.Length0 == 4 && piece.Length1 == 4
    modifies piece
    ensures MaskCells(piece) == Rotated(old(MaskCells(piece)))
  {
    ghost var m := MaskCells(piece);
    var temp := new Bit[4, 4];
    for i := 0 to 4
      modifies temp
      invariant forall r, c :: 0 <= r < i && 0 <= c < 4 ==> temp[r, c] == m[c][r]
    {
      for j := 0 to 4
        modifies temp
        invariant forall r, c :: 0 <= r < i && 0 <= c < 4 ==> temp[r, c] == m[c][r]
        invariant forall c :: 0 <= c < j ==> temp[i, c] == m[c][i]
      {
        temp[i, j] := piece[j, i];
      }
    }
    for i := 0 to 4
      modifies piece
      invariant forall r, c :: 0 <= r < i && 0 <= c < 4 ==> piece[r, c] == m[3 - c][r]
    {
      for j := 0 to 4
        modifies piece
        invariant forall r, c :: 0 <= r < i && 0 <= c < 4 ==> piece[r, c] == m[3 - c][r]
        invariant forall c :: 0 <= c < j ==> piece[i, c] == m[3 - c][i]
      {
        piece[i, j] := temp[i, 4 - 1 - j];
      }
    }
    CellsAreRotated(piece, m);
  }

  /** An array whose cell (i, j) holds cell (3 - j, i) of m holds the turn of m. */
  lemma CellsAreRotated(piece: array2<Bit>, m: Mask)
    requires piece.Length0 == 4 && piece.Length1 == 4
    requires forall r, c :: 0 <= r < 4 && 0 <= c < 4 ==> piece[r, c] == m[3 - c][r]
    ensures MaskCells(piece) == Rotated(m)
  {
    forall i, j | 0 <= i < 4 && 0 <= j < 4
      ensures MaskCells(piece)[i][j] == Rotated(m)[i][j]
    {
      RotatedAt(m, i, j);
    }
    MaskExtensionality(MaskCells(piece), Rotated(m));
  }

  // ---------------------------------------------------------------------
  // Wall kicks

  /** Index of the first offset at which m fits on g, shifted from (x, y). */
  function FirstFit(g: Grid, m: Mask, x: int, y: int, offsets: seq<(int, int)>): (r: Option<nat>)
    ensures r.Some? ==> r.value < |offsets|
    ensures r.Some? ==> !Collides(g, m, x + offsets[r.value].0, y + offsets[r.value].1)
    ensures r.Some? ==> forall j :: 0 <= j < r.value ==> Collides(g, m, x + offsets[j].0, y + offsets[j].1)
    ensures r.None? ==> forall j :: 0 <= j < |offsets| ==> Collides(g, m, x + offsets[j].0, y + offsets[j].1)
  {
    if offsets == [] then None
    else if !Collides(g, m, x + offsets[0].0, y + offsets[0].1) then Some(0)
    else match FirstFit(g, m, x, y, offsets[1..])
      case Some(i) => Some(i + 1)
      case None => None
  }

  /** The first fitting offset is the one FirstFit finds. */
  lemma {:induction false} FirstFitIsFirst(g: Grid, m: Mask, x: int, y: int, offsets: seq<(int, int)>, k: nat)
    requires k < |offsets| && !Collides(g, m, x + offsets[k].0, y + offsets[k].1)
    requires forall j :: 0 <= j < k ==> Collides(g, m, x + offsets[j].0, y + offsets[j].1)
    ensures FirstFit(g, m, x, y, offsets) == Some(k)
  {
    if k > 0 {
      var rest := offsets[1..];
      assert rest[k - 1] == offsets[k];
      forall j | 0 <= j < k - 1
        ensures Collides(g, m, x + rest[j].0, y + rest[j].1)
      {
        assert rest[j] == offsets[j + 1];
      }
      FirstFitIsFirst(g, m, x, y, rest, k - 1);
    }
  }

  /** When FirstFit finds nothing, the mask collides at every offset. */
  lemma FirstFitMisses(g: Grid, m: Mask, x: int, y: int, offsets: seq<(int, int)>, j: nat)
    requires FirstFit(g, m, x, y, offsets) == None && j < |offsets|
    ensures Collides(g, m, x + offsets[j].0, y + offsets[j].1)
  {
  }

  /** Where the piece goes after a successful rotation: its new mask and anchor. */
  datatype Placement = Placement(mask: Mask, x: int, y: int)

  /** The first n wall kicks all collide for mask r anchored at (x, y). */
  predicate KicksCollide(g: Grid, r: Mask, x: int, y: int, n: nat)
    requires n <= |WallKicks|
  {
    forall j :: 0 <= j < n ==> Collides(g, r, x + WallKicks[j].0, y + WallKicks[j].1)
  }

  /** Where a turned mask r goes when the piece is anchored at (x, y): in
      place if it fits there, otherwise at the first wall kick that fits,
      otherwise nowhere. */
  function Place(g: Grid, r: Mask, x: int, y: int): (p: Option<Placement>)
    ensures p.Some? ==> p.value.mask == r && !Collides(g, r, p.value.x, p.value.y)
  {
    if !Collides(g, r, x, y) then Some(Placement(r, x, y))
    else match FirstFit(g, r, x, y, WallKicks)
      case Some(k) => Some(Placement(r, x + WallKicks[k].0, y + WallKicks[k].1))
      case None => None
  }

  /** The outcome of a rotation request for mask m anchored at (x, y): the
      quarter turn of m, placed as Place says. */
  function TryRotate(g: Grid, m: Mask, x: int, y: int): (p: Option<Placement>)
    ensures p.Some? ==> p.value.mask == Rotated(m) && !Collides(g, Rotated(m), p.value.x, p.value.y)
  {
    Place(g, Rotated(m), x, y)
  }

  /** A placement is refused exactly when the mask collides in place and at
      every wall kick; a kick is only used when the mask collides in place. */
  lemma PlaceOutcome(g: Grid, r: Mask, x: int, y: int)
    ensures var p := Place(g, r, x, y);
      p.Some? && (p.value.x, p.value.y) != (x, y) ==> Collides(g, r, x, y)
    ensures Place(g, r, x, y).None? <==>
      Collides(g, r, x, y) && KicksCollide(g, r, x, y, |WallKicks|)
  {
    if Collides(g, r, x, y) {
      var k := FirstFit(g, r, x, y, WallKicks);
      if k.Some? {
        assert !Collides(g, r, x + WallKicks[k.value].0, y + WallKicks[k.value].1);
        assert !KicksCollide(g, r, x, y, |WallKicks|);
      } else {
        NoKickFound(g, r, x, y);
      }
    }
  }

  /** The same, for a rotation request: refused exactly when the turn
      collides in place and at every kick. */
  lemma TryRotateOutcome(g: Grid, m: Mask, x: int, y: int)
    ensures var p := TryRotate(g, m, x, y);
      p.Some? && (p.value.x, p.value.y) != (x, y) ==> Collides(g, Rotated(m), x, y)
    ensures TryRotate(g, m, x, y).None? <==>
      Collides(g, Rotated(m), x, y) && KicksCollide(g, Rotated(m), x, y, |WallKicks|)
  {
    PlaceOutcome(g, Rotated(m), x, y);
  }

  /** A mask that fits in place is placed in place, before any kick. */
  lemma InPlaceWins(g: Grid, r: Mask, x: int, y: int)
    requires !Collides(g, r, x, y)
    ensures Place(g, r, x, y) == Some(Placement(r, x, y))
  {
  }

  lemma KicksCollideStep(g: Grid, r: Mask, x: int, y: int, n: nat)
    requires n < |WallKicks| && KicksCollide(g, r, x, y, n)
    requires Collides(g, r, x + WallKicks[n].0, y + WallKicks[n].1)
    ensures KicksCollide(g, r, x, y, n + 1)
  {
  }

  /** When every wall kick collides, no kick is found. */
  lemma NoKickFits(g: Grid, r: Mask, x: int, y: int)
    requires KicksCollide(g, r, x, y, |WallKicks|)
    ensures FirstFit(g, r, x, y, WallKicks) == None
  {
  }

  /** When the mask collides in place, the kick FirstFit finds decides the placement. */
  lemma KickUsed(g: Grid, r: Mask, x: int, y: int, k: nat)
    requires Collides(g, r, x, y)
    requires FirstFit(g, r, x, y, WallKicks) == Some(k)
    ensures k < |WallKicks|
    ensures Place(g, r, x, y) == Some(Placement(r, x + WallKicks[k].0, y + WallKicks[k].1))
  {
  }

  /** When the mask collides in place and no kick fits, it is refused. */
  lemma NoKickUsed(g: Grid, r: Mask, x: int, y: int)
    requires Collides(g, r, x, y)
    requires FirstFit(g, r, x, y, WallKicks) == None
    ensures Place(g, r, x, y) == None
  {
  }

  /** When no kick is found, every wall kick collides. */
  lemma NoKickFound(g: Grid, r: Mask, x: int, y: int)
    requires FirstFit(g, r, x, y, WallKicks) == None
    ensures KicksCollide(g, r, x, y, |WallKicks|)
  {
    forall j | 0 <= j < |WallKicks|
      ensures Collides(g, r, x + WallKicks[j].0, y + WallKicks[j].1)
    {
      FirstFitMisses(g, r, x, y, WallKicks, j);
    }
  }

  /** When the turn collides in place, it goes to the first wall kick that
      fits: kick k is taken when it fits and every earlier kick collides. */
  lemma KickTaken(g: Grid, m: Mask, x: int, y: int, k: nat)
    requires k < |WallKicks| && Collides(g, Rotated(m), x, y)
    requires !Collides(g, Rotated(m), x + WallKicks[k].0, y + WallKicks[k].1)
    requires KicksCollide(g, Rotated(m), x, y, k)
    ensures TryRotate(g, m, x, y) == Some(Placement(Rotated(m), x + WallKicks[k].0, y + WallKicks[k].1))
  {
    var r := Rotated(m);
    FirstFitIsFirst(g, r, x, y, WallKicks, k);
    KickUsed(g, r, x, y, k);
  }

  /** The kick loop of rotatePieceWithKicks: tries the wall kicks in table
      order and returns the index of the first one at which the turned mask
      fits, or None when every kick collides. Changes nothing. */
  method FindKick(grid: array2<Bit>, turned: array2<Bit>, x: int, y: int) returns (kick: Option<nat>)
    requires grid.Length0 == GridHeight && grid.Length1 == GridWidth
    requires turned.Length0 == 4 && turned.Length1 == 4
    ensures kick == FirstFit(GridCells(grid), MaskCells(turned), x, y, WallKicks)
  {
    ghost var g, r := GridCells(grid), MaskCells(turned);
    for i := 0 to NumWallKicks
      invariant KicksCollide(g, r, x, y, i)
    {
      var kickX := x + WallKicks[i].0;
      var kickY := y + WallKicks[i].1;
      var hit := CheckCollision(grid, turned, kickX, kickY);
      if !hit {
        FirstFitIsFirst(g, r, x, y, WallKicks, i);
        return Some(i);
      }
      KicksCollideStep(g, r, x, y, i);
    }
    NoKickFits(g, r, x, y);
    return None;
  }

  /** rotatePieceWithKicks: turns a copy of the piece, tries it in place and
      then at each wall kick in table order, and commits the first placement
      that fits. If none fits the piece and its anchor stay as they were. */
  method RotatePieceWithKicks(grid: array2<Bit>, currentPiece: array2<Bit>, x: int, y: int)
    returns (rotated: bool, newX: int, newY: int)
    requires grid.Length0 == GridHeight && grid.Length1 == GridWidth
    requires currentPiece.Length0 == 4 && currentPiece.Length1 == 4
    modifies currentPiece
    ensures rotated ==>
      TryRotate(GridCells(grid), old(MaskCells(currentPiece)), x, y) == Some(Placement(MaskCells(currentPiece), newX, newY))
    ensures !rotated ==>
      TryRotate(GridCells(grid), old(MaskCells(currentPiece)), x, y) == None &&
      MaskCells(currentPiece) == old(MaskCells(currentPiece)) && newX == x && newY == y
  {
    ghost var g, m := GridCells(grid), MaskCells(currentPiece);
    var turned := new Bit[4, 4];
    CopyPiece(turned, MaskCells(currentPiece));
    RotatePiece(turned);
    ghost var r := MaskCells(turned);
    assert r == Rotated(m) && GridCells(grid) == g;
    assert TryRotate(g, m, x, y) == Place(g, r, x, y);
    var hit := CheckCollision(grid, turned, x, y);
    if !hit {
      InPlaceWins(g, r, x, y);
      assert TryRotate(g, m, x, y) == Some(Placement(r, x, y));
      CopyPiece(currentPiece, MaskCells(turned));
      assert GridCells(grid) == g && MaskCells(currentPiece) == r;
      return true, x, y;
    }
    var kick := FindKick(grid, turned, x, y);
    if kick.None? {
      NoKickUsed(g, r, x, y);
      return false, x, y;
    }
    var i := kick.value;
    KickUsed(g, r, x, y, i);
    newX := x + WallKicks[i].0;
    newY := y + WallKicks[i].1;
    assert TryRotate(g, m, x, y) == Some(Placement(r, newX, newY));
    CopyPiece(currentPiece, MaskCells(turned));
    assert GridCells(grid) == g && MaskCells(currentPiece) == r;
    rotated := true;
  }
}
