/**
 * Tile positions, the eight facing directions and the tile keys of the
 * reservation set (Sources/HelbreathRaylib/entity.h).
 *
 * `constant::TILE_SIZE` comes from global_constants.h, which is not part of
 * this model; it is the constant `TILE_SIZE` below, fixed at 32 pixels.
 */
module EntityGeometry {
  import opened Arith

  const TILE_SIZE: nat := 32
  const U16_LIMIT: int := 0x1_0000
  const TWO32: nat := 0x1_0000_0000
  const TWO64: nat := 0x1_0000_0000_0000_0000

  /** `Dir`: the eight facing directions, clockwise from north. */
  datatype Dir = North | NorthEast | East | SouthEast | South | SouthWest | West | NorthWest

  /** `Stance` (entity.h:16-18). */
  datatype Stance = Peace | Combat

  /** `AnimationType` (entity.h:20-22). */
  datatype AnimationType = Stand | Walk | Run | Attack | Pickup | TakeDamage | Dying

  /** `WeaponUsed` (entity.h:24-26). */
  datatype WeaponUsed = Hand | Bow | Cast

  /** The enumerator value of a direction. */
  function DirIndex(d: Dir): (i: nat)
    ensures i < 8
  {
    match d
    case North => 0
    case NorthEast => 1
    case East => 2
    case SouthEast => 3
    case South => 4
    case SouthWest => 5
    case West => 6
    case NorthWest => 7
  }

  /** The direction facing the other way. */
  function Opposite(d: Dir): (r: Dir)
    ensures DirIndex(r) == (DirIndex(d) + 4) % 8
  {
    match d
    case North => South
    case NorthEast => SouthWest
    case East => West
    case SouthEast => NorthWest
    case South => North
    case SouthWest => NorthEast
    case West => East
    case NorthWest => SouthEast
  }

  /** The tile offset one step in a direction; y grows southwards. */
  function StepOffset(d: Dir): (int, int)
  {
    match d
    case North => (0, -1)
    case NorthEast => (1, -1)
    case East => (1, 0)
    case SouthEast => (1, 1)
    case South => (0, 1)
    case SouthWest => (-1, 1)
    case West => (-1, 0)
    case NorthWest => (-1, -1)
  }

  /** `GamePosition`: a tile (two `uint16_t`) and the pixel it is drawn at (two `uint32_t`). */
  datatype GamePosition = GamePosition(tileX: nat, tileY: nat, pixelX: nat, pixelY: nat)

  /** The `uint16_t` a C++ `int` argument is narrowed to. */
  function ToU16(v: int): (r: nat)
    ensures r < U16_LIMIT
    ensures 0 <= v < U16_LIMIT ==> r == v
  {
    v % U16_LIMIT
  }

  /** The (t_x, t_y) constructor (entity.h:35-38): the pixel is the tile times `TILE_SIZE`. */
  function MakePosition(tx: int, ty: int): (p: GamePosition)
    ensures p.tileX == ToU16(tx) && p.tileY == ToU16(ty)
    ensures p.pixelX == p.tileX * TILE_SIZE && p.pixelY == p.tileY * TILE_SIZE
  {
    var x := ToU16(tx);
    var y := ToU16(ty);
    GamePosition(x, y, x * TILE_SIZE, y * TILE_SIZE)
  }

  /** `set_pixel_position` (entity.h:45-48): moves the drawing point and keeps the tile. */
  function SetPixelPosition(p: GamePosition, px: nat, py: nat): (r: GamePosition)
    ensures r.tileX == p.tileX && r.tileY == p.tileY && r.pixelX == px && r.pixelY == py
  {
    p.(pixelX := px, pixelY := py)
  }

  /** `operator==` (entity.h:50-52): positions on the same tile are equal, wherever they are drawn. */
  predicate SameTile(a: GamePosition, b: GamePosition)
  {
    a.tileX == b.tileX && a.tileY == b.tileY
  }

  /** Moving the drawing point does not change which tile a position is on. */
  lemma PixelMoveKeepsTile(p: GamePosition, px: nat, py: nat)
    ensures SameTile(SetPixelPosition(p, px, py), p)
    ensures SameTile(SetPixelPosition(p, px, py), MakePosition(p.tileX, p.tileY)) <==> p.tileX < U16_LIMIT && p.tileY < U16_LIMIT
  {
  }

  function Abs(v: int): nat
  {
    if v < 0 then -v else v
  }

  /**
   * `GetDirectionToPoint` (entity.h:75-120) on the tile differences: the
   * dominant axis picks the quadrant and the other axis, compared with half
   * the dominant one, picks the diagonal. C++ `-abs_dx / 2` truncates toward
   * zero, which for abs_dx >= 0 is `-(abs_dx / 2)`.
   */
  function DirectionOf(dx: int, dy: int): Dir
  {
    var ax := Abs(dx);
    var ay := Abs(dy);
    if ax > ay then
      if dx > 0 then
        if dy > ax / 2 then SouthEast else if dy < -(ax / 2) then NorthEast else East
      else
        if dy > ax / 2 then SouthWest else if dy < -(ax / 2) then NorthWest else West
    else
      if dy > 0 then
        if dx > ay / 2 then SouthEast else if dx < -(ay / 2) then SouthWest else South
      else
        if dx > ay / 2 then NorthEast else if dx < -(ay / 2) then NorthWest else North
  }

  /** `GetDirectionToPoint`: the direction from one position's tile to another's. */
  function GetDirectionToPoint(position: GamePosition, desired: GamePosition): Dir
  {
    DirectionOf(desired.tileX - position.tileX, desired.tileY - position.tileY)
  }

  /** Points on the same tile face north; a pure step east faces east and a pure step south faces south. */
  lemma DirectionSpecialCases(position: GamePosition, desired: GamePosition)
    ensures SameTile(position, desired) ==> GetDirectionToPoint(position, desired) == North
    ensures desired.tileY == position.tileY && desired.tileX > position.tileX ==> GetDirectionToPoint(position, desired) == East
    ensures desired.tileX == position.tileX && desired.tileY > position.tileY ==> GetDirectionToPoint(position, desired) == South
  {
  }

  /** Looking back from the other end of a non-zero difference faces the opposite way. */
  lemma DirectionReverses(dx: int, dy: int)
    requires dx != 0 || dy != 0
    ensures DirectionOf(-dx, -dy) == Opposite(DirectionOf(dx, dy))
  {
  }

  /** For distinct tiles, swapping the endpoints gives the opposite direction. */
  lemma SwappedEndpointsOpposite(a: GamePosition, b: GamePosition)
    requires !SameTile(a, b)
    ensures GetDirectionToPoint(b, a) == Opposite(GetDirectionToPoint(a, b))
  {
    var dx: int := b.tileX - a.tileX;
    var dy: int := b.tileY - a.tileY;
    assert a.tileX - b.tileX == -dx && a.tileY - b.tileY == -dy;
    DirectionReverses(dx, dy);
  }

  /** A one-tile step is faced exactly: the direction of a direction's own offset is that direction. */
  lemma StepDirection(d: Dir)
    ensures DirectionOf(StepOffset(d).0, StepOffset(d).1) == d
  {
  }

  // ---------------------------------------------------------------------
  // Tile keys
  // ---------------------------------------------------------------------

  /** Bitwise OR of two naturals, one binary digit at a time. */
  function BitOr(a: nat, b: nat): nat
    decreases a + b
  {
    if a == 0 then b
    else if b == 0 then a
    else 2 * BitOr(a / 2, b / 2) + (if a % 2 == 1 || b % 2 == 1 then 1 else 0)
  }

  function Pow2(k: nat): (p: nat)
    ensures p >= 1
  {
    if k == 0 then 1 else 2 * Pow2(k - 1)
  }

  lemma {:induction false} Pow2Add(a: nat, b: nat)
    ensures Pow2(a + b) == Pow2(a) * Pow2(b)
    decreases a
  {
    if a > 0 {
      Pow2Add(a - 1, b);
    }
  }

  lemma Pow2Of32()
    ensures Pow2(32) == TWO32
  {
    assert Pow2(8) == 256;
    Pow2Add(8, 8);
    Pow2Add(16, 16);
  }

  /** The `uint64_t` a C++ `int` is converted to. */
  function ToU64(v: int): (r: nat)
    ensures r < TWO64
  {
    v % TWO64
  }

  /** `MakeTileKey` (entity.h:203-205): `((uint64_t)x << 32) | (uint64_t)y`. */
  function MakeTileKey(x: int, y: int): nat
  {
    BitOr((ToU64(x) * TWO32) % TWO64, ToU64(y))
  }

  /** OR-ing a value below 2^k into a multiple of 2^k is addition: the bits do not overlap. */
  lemma {:induction false} BitOrDisjoint(a: nat, b: nat, k: nat)
    requires b < Pow2(k)
    ensures BitOr(a * Pow2(k), b) == a * Pow2(k) + b
    decreases k
  {
    if a == 0 || b == 0 {
    } else if k == 0 {
    } else {
      var h := Pow2(k - 1);
      assert a * Pow2(k) == 2 * (a * h);
      assert (a * Pow2(k)) / 2 == a * h && (a * Pow2(k)) % 2 == 0;
      assert b / 2 < h;
      BitOrDisjoint(a, b / 2, k - 1);
      assert BitOr(a * Pow2(k), b) == 2 * BitOr(a * h, b / 2) + b % 2;
    }
  }

  /** For coordinates in [0, 2^32) the key is x * 2^32 + y. */
  lemma TileKeyValue(x: int, y: int)
    requires 0 <= x < TWO32 && 0 <= y < TWO32
    ensures MakeTileKey(x, y) == x * TWO32 + y
  {
    Pow2Of32();
    assert x * TWO32 < TWO64 by {
      MulLess(x, TWO32, TWO32);
    }
    assert (ToU64(x) * TWO32) % TWO64 == x * TWO32 by {
      ModUnique(x * TWO32, 0, x * TWO32, TWO64);
    }
    assert ToU64(y) == y;
    BitOrDisjoint(x, y, 32);
  }

  /** `MakeTileKey` is injective on coordinates in [0, 2^32). */
  lemma TileKeyInjective(x1: int, y1: int, x2: int, y2: int)
    requires 0 <= x1 < TWO32 && 0 <= y1 < TWO32
    requires 0 <= x2 < TWO32 && 0 <= y2 < TWO32
    requires MakeTileKey(x1, y1) == MakeTileKey(x2, y2)
    ensures x1 == x2 && y1 == y2
  {
    TileKeyValue(x1, y1);
    TileKeyValue(x2, y2);
    ModUnique(x1 * TWO32 + y1, x1, y1, TWO32);
    ModUnique(x2 * TWO32 + y2, x2, y2, TWO32);
  }
}
