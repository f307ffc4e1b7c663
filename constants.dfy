/** Fixed configuration of the game: board size, spawn anchor, the seven
    tetromino masks with their colours, the scoring multiplier and the
    wall-kick offsets tried when a rotation does not fit. */
module Constants {

  const GridWidth: nat := 10
  const GridHeight: nat := 20
  const SpawnX: int := 3
  const SpawnY: int := 0
  const NumPieces: nat := 7
  const PointsMultiplier: nat := 100
  const NumWallKicks: nat := 7

  /** One cell of the board or of a piece mask: 0 is empty, 1 is occupied. */
  type Bit = b: int | 0 <= b <= 1

  type MaskRow = r: seq<Bit> | |r| == 4 witness [0, 0, 0, 0]

  const EmptyMaskRow: MaskRow := [0, 0, 0, 0]

  /** A 4×4 occupancy mask, indexed [row][column]. */
  type Mask = m: seq<MaskRow> | |m| == 4
    witness [EmptyMaskRow, EmptyMaskRow, EmptyMaskRow, EmptyMaskRow]

  function RowCells(r: MaskRow): nat { r[0] as int + r[1] as int + r[2] as int + r[3] as int }

  /** Number of occupied cells of a mask. */
  function CellCount(m: Mask): nat
  {
    RowCells(m[0]) + RowCells(m[1]) + RowCells(m[2]) + RowCells(m[3])
  }

  /** The seven piece types, in the order of the enumeration. */
  datatype PieceType = I | O | T | S | Z | J | L {
    /** The enumerator's value: PIECE_I is 0, ..., PIECE_L is 6. */
    function Index(): (k: nat)
      ensures k < NumPieces
    {
      match this
      case I => 0
      case O => 1
      case T => 2
      case S => 3
      case Z => 4
      case J => 5
      case L => 6
    }
  }

  /** The piece type whose enumerator value is k (the cast to PieceType). */
  function FromIndex(k: nat): (t: PieceType)
    requires k < NumPieces
    ensures t.Index() == k
  {
    if k == 0 then I
    else if k == 1 then O
    else if k == 2 then T
    else if k == 3 then S
    else if k == 4 then Z
    else if k == 5 then J
    else L
  }

  lemma IndexRoundTrip(t: PieceType)
    ensures FromIndex(t.Index()) == t
  {
  }

  /** The type drawn from a non-negative pseudo-random value r (`rand() % NUM_PIECES`). */
  function RandomPiece(r: nat): (t: PieceType)
    ensures t.Index() == r % NumPieces
  {
    FromIndex(r % NumPieces)
  }

  /** Every type can be drawn, and the draw depends only on r modulo the number of types. */
  lemma RandomPieceCoversAllTypes(t: PieceType, r: nat)
    ensures RandomPiece(t.Index()) == t
    ensures RandomPiece(r + NumPieces) == RandomPiece(r)
  {
    IndexRoundTrip(t);
  }

  /** The canonical, unrotated masks, indexed by PieceType.Index(). */
  const Pieces: seq<Mask> := [
    // I
    [[1, 1, 1, 1],
     [0, 0, 0, 0],
     [0, 0, 0, 0],
     [0, 0, 0, 0]],
    // O
    [[0, 0, 0, 0],
     [0, 1, 1, 0],
     [0, 1, 1, 0],
     [0, 0, 0, 0]],
    // T
    [[0, 0, 0, 0],
     [0, 1, 1, 1],
     [0, 0, 1, 0],
     [0, 0, 0, 0]],
    // S
    [[0, 0, 0, 0],
     [0, 0, 1, 1],
     [0, 1, 1, 0],
     [0, 0, 0, 0]],
    // Z
    [[0, 0, 0, 0],
     [0, 1, 1, 0],
     [0, 0, 1, 1],
     [0, 0, 0, 0]],
    // J
    [[0, 0, 0, 0],
     [0, 1, 1, 1],
     [0, 0, 0, 1],
     [0, 0, 0, 0]],
    // L
    [[0, 0, 0, 0],
     [0, 1, 1, 1],
     [0, 1, 0, 0],
     [0, 0, 0, 0]]
  ]

  function Shape(t: PieceType): Mask
  {
    Pieces[t.Index()]
  }

  /** Every catalogue entry is a tetromino: exactly four occupied cells. */
  lemma CatalogueIsTetrominoes(t: PieceType)
    ensures |Pieces| == NumPieces
    ensures CellCount(Shape(t)) == 4
  {
  }

  type Byte = b: int | 0 <= b < 256

  /** An RGBA colour, as SDL_Color. */
  datatype Color = Color(r: Byte, g: Byte, b: Byte, a: Byte)

  /** Display colours, indexed by PieceType.Index(). */
  const PieceColors: seq<Color> := [
    Color(0, 240, 240, 255),   // I
    Color(240, 240, 0, 255),   // O
    Color(160, 0, 240, 255),   // T
    Color(0, 240, 0, 255),     // S
    Color(240, 0, 0, 255),     // Z
    Color(0, 0, 240, 255),     // J
    Color(240, 160, 0, 255)    // L
  ]

  function ColorOf(t: PieceType): Color
  {
    PieceColors[t.Index()]
  }

  /** One colour entry per type, and no two types share a colour. */
  lemma ColorsAreDistinct(t: PieceType, u: PieceType)
    ensures |PieceColors| == NumPieces
    ensures ColorOf(t) == ColorOf(u) <==> t == u
  {
  }

  /** Points awarded for clearing n rows with one landing. */
  function Points(n: nat): (p: nat)
    ensures p == 0 <==> n == 0
    ensures p >= n * PointsMultiplier
  {
    n * n * PointsMultiplier
  }

  /** The table of the scoring comment: 1, 2, 3, 4 rows give 100, 400, 900, 1600. */
  lemma PointsTable()
    ensures Points(0) == 0 && Points(1) == 100 && Points(2) == 400
    ensures Points(3) == 900 && Points(4) == 1600
  {
  }

  /** Clearing rows together beats clearing them in separate landings. */
  lemma PointsRewardCombos(a: nat, b: nat)
    requires a > 0 && b > 0
    ensures Points(a + b) > Points(a) + Points(b)
  {
    assert (a + b) * (a + b) == a * a + b * b + 2 * a * b;
    assert a * b > 0;
  }

  /** Offsets (dx, dy) tried, in this order, when a rotation in place collides. */
  const WallKicks: seq<(int, int)> := [
    (-1, 0),   // left
    (1, 0),    // right
    (0, -1),   // up
    (-1, -1),  // up-left
    (1, -1),   // up-right
    (-2, 0),   // two to the left (for I)
    (2, 0)     // two to the right (for I)
  ]

  /** The kick table has seven entries, each at most two columns sideways and
      at most one row up, never down. */
  lemma WallKicksAreSmall(k: nat)
    requires k < |WallKicks|
    ensures |WallKicks| == NumWallKicks
    ensures -2 <= WallKicks[k].0 <= 2
    ensures WallKicks[k].1 == 0 || WallKicks[k].1 == -1
  {
  }
}
