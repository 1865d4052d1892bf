/**
 * How an entity picks a target tile and walks towards it
 * (Sources/HelbreathRaylib/entity.cpp): the straight-line tile path, the
 * search for a free tile near a blocked target, the occupancy test, and
 * stopping.
 *
 * The map, the reservation set and the other entities are read through a
 * `World` value; the entity's own movement fields form the `Mover` class.
 */
module EntityMovement {
  import opened Wrappers
  import opened Arith
  import opened EntityGeometry

  /** The largest `int16_t`, the type of `_map_width` and `_map_height`. */
  const I16_MAX: int := 0x7FFF

  /** The search for a free tile gives up after rings 1 to 19 (entity.cpp:97). */
  const SEARCH_RADIUS: nat := 19

  /** Another entity: `Entity.get()`'s identity and its position. */
  datatype EntityRef = EntityRef(id: nat, position: GamePosition)

  /**
   * What the movement code reads: the map size, the tiles whose
   * `is_move_allowed` is set, the shared reservation set (None for a null
   * pointer), the entity list, and which entry is the moving entity itself.
   */
  datatype World = World(
    width: int,
    height: int,
    moveAllowed: set<(int, int)>,
    reserved: Option<set<nat>>,
    entities: seq<EntityRef>,
    self: nat)

  /** A map of at least one tile whose size fits the `int16_t` fields. */
  predicate ValidWorld(w: World)
  {
    0 < w.width <= I16_MAX && 0 < w.height <= I16_MAX
  }

  /** The tile is on the map: `get_tile` returns a tile for it rather than null. */
  predicate InBounds(w: World, x: int, y: int)
  {
    0 <= x < w.width && 0 <= y < w.height
  }

  predicate MoveAllowed(w: World, x: int, y: int)
  {
    (x, y) in w.moveAllowed
  }

  /** Another entity than the moving one stands on the tile. */
  predicate OtherEntityOn(w: World, x: int, y: int)
  {
    exists i | 0 <= i < |w.entities| ::
      w.entities[i].id != w.self && w.entities[i].position.tileX == x && w.entities[i].position.tileY == y
  }

  /** `is_tile_occupied` (entity.cpp:155-171): the tile's key is reserved or another entity stands on it. */
  predicate Occupied(w: World, x: int, y: int)
  {
    (w.reserved.Some? && MakeTileKey(x, y) in w.reserved.value) || OtherEntityOn(w, x, y)
  }

  /** A tile a path may step onto. */
  predicate Free(w: World, x: int, y: int)
  {
    MoveAllowed(w, x, y) && !Occupied(w, x, y)
  }

  /** `is_tile_occupied`: the reservation set first, then the other entities one by one. */
  method IsTileOccupied(w: World, x: int, y: int) returns (occupied: bool)
    ensures occupied == Occupied(w, x, y)
  {
    var key := MakeTileKey(x, y);
    if w.reserved.Some? && key in w.reserved.value {
      return true;
    }
    var i := 0;
    while i < |w.entities|
      invariant 0 <= i <= |w.entities|
      invariant forall j | 0 <= j < i ::
        !(w.entities[j].id != w.self && w.entities[j].position.tileX == x && w.entities[j].position.tileY == y)
    {
      var e := w.entities[i];
      if e.id != w.self && e.position.tileX == x && e.position.tileY == y {
        return true;
      }
      i := i + 1;
    }
    return false;
  }

  /** The test of entity.cpp:324-325: the tile allows movement and, only then, is asked whether it is occupied. */
  method CanStepOn(w: World, x: int, y: int) returns (free: bool)
    ensures free == Free(w, x, y)
  {
    if !MoveAllowed(w, x, y) {
      return false;
    }
    var occupied := IsTileOccupied(w, x, y);
    return !occupied;
  }

  // ---------------------------------------------------------------------
  // The straight-line path of `_build_path_direct`
  // ---------------------------------------------------------------------

  /** The step direction along one axis: `StepX`/`StepY`. */
  function Sign(v: int): int
  {
    if v > 0 then 1 else if v < 0 then -1 else 0
  }

  /** The coordinate s moved n steps in the direction of d. */
  function Advance(s: int, n: int, d: int): (r: int)
    ensures d != 0 ==> Abs(r - s) == Abs(n)
  {
    if d > 0 then s + n else if d < 0 then s - n else s
  }

  /**
   * The error term of the line walk after i steps along the major axis:
   * `k` is how many times the minor coordinate has moved. It starts at
   * major / 2, loses `minor` per step and gains `major` whenever it drops
   * below zero (entity.cpp:309-322, 341-354).
   */
  datatype WalkState = WalkState(k: nat, err: int)

  function LineWalk(major: nat, minor: nat, i: nat): (r: WalkState)
    requires minor <= major
    ensures r.k <= i
    ensures major > 0 ==> 0 <= r.err < major
    decreases i
  {
    if i == 0 then WalkState(0, major / 2)
    else
      var p := LineWalk(major, minor, i - 1);
      var e := p.err - minor;
      if e < 0 then WalkState(p.k + 1, e + major) else WalkState(p.k, e)
  }

  /** The error term is major / 2, less `minor` per step, plus `major` per move of the minor coordinate. */
  lemma {:induction false} LineWalkError(major: nat, minor: nat, i: nat)
    requires minor <= major
    ensures LineWalk(major, minor, i).err == major / 2 - i * minor + LineWalk(major, minor, i).k * major
    decreases i
  {
    if i > 0 {
      LineWalkError(major, minor, i - 1);
      assert i * minor == (i - 1) * minor + minor;
      assert (LineWalk(major, minor, i - 1).k + 1) * major == LineWalk(major, minor, i - 1).k * major + major;
    }
  }

  /** Each step moves the minor coordinate by zero or one. */
  lemma WalkStep(major: nat, minor: nat, i: nat)
    requires minor <= major && i > 0
    ensures LineWalk(major, minor, i).k == LineWalk(major, minor, i - 1).k || LineWalk(major, minor, i).k == LineWalk(major, minor, i - 1).k + 1
  {
  }

  /** After `major` steps the minor coordinate has moved exactly `minor` times. */
  lemma WalkEnds(major: nat, minor: nat)
    requires minor <= major && major > 0
    ensures LineWalk(major, minor, major).k == minor
  {
    var r := LineWalk(major, minor, major);
    LineWalkError(major, minor, major);
    MulDiff(r.k, minor, major);
    SmallMultipleIsZero(r.k - minor, major);
  }

  /** The minor coordinate never moves back. */
  lemma {:induction false} WalkMonotone(major: nat, minor: nat, i: nat, j: nat)
    requires minor <= major && i <= j
    ensures LineWalk(major, minor, i).k <= LineWalk(major, minor, j).k
    decreases j - i
  {
    if i < j {
      WalkMonotone(major, minor, i, j - 1);
      WalkStep(major, minor, j);
    }
  }

  /** The number of steps of the line: the larger of |dx| and |dy|. */
  function Steps(sx: int, sy: int, ex: int, ey: int): nat
  {
    var ax := Abs(ex - sx);
    var ay := Abs(ey - sy);
    if ax > ay then ax else ay
  }

  /**
   * The tile reached after i steps from (sx, sy) towards (ex, ey): x is the
   * major axis when |dx| > |dy|, otherwise y is.
   */
  function LinePoint(sx: int, sy: int, ex: int, ey: int, i: nat): (int, int)
  {
    var dx := ex - sx;
    var dy := ey - sy;
    var ax := Abs(dx);
    var ay := Abs(dy);
    if ax > ay then (Advance(sx, i, dx), Advance(sy, LineWalk(ax, ay, i).k, dy))
    else (Advance(sx, LineWalk(ay, ax, i).k, dx), Advance(sy, i, dy))
  }

  /** The tiles of the line after the start, in order. */
  function Line(sx: int, sy: int, ex: int, ey: int): (l: seq<(int, int)>)
    ensures |l| == Steps(sx, sy, ex, ey)
    ensures forall j | 0 <= j < |l| :: l[j] == LinePoint(sx, sy, ex, ey, j + 1)
  {
    seq(Steps(sx, sy, ex, ey), j requires 0 <= j => LinePoint(sx, sy, ex, ey, j + 1))
  }

  /** Step 0 is the start, and only the last step is the end. */
  lemma LineEnds(sx: int, sy: int, ex: int, ey: int, i: nat)
    requires i <= Steps(sx, sy, ex, ey)
    ensures LinePoint(sx, sy, ex, ey, 0) == (sx, sy)
    ensures LinePoint(sx, sy, ex, ey, i) == (ex, ey) <==> i == Steps(sx, sy, ex, ey)
  {
    var dx := ex - sx;
    var dy := ey - sy;
    if Abs(dx) > Abs(dy) {
      assert Steps(sx, sy, ex, ey) == Abs(dx);
      assert LinePoint(sx, sy, ex, ey, i) == (Advance(sx, i, dx), Advance(sy, LineWalk(Abs(dx), Abs(dy), i).k, dy));
      assert LinePoint(sx, sy, ex, ey, 0) == (Advance(sx, 0, dx), Advance(sy, LineWalk(Abs(dx), Abs(dy), 0).k, dy));
      WalkReaches(sx, dx, sy, dy, i);
    } else if Abs(dy) > 0 {
      assert Steps(sx, sy, ex, ey) == Abs(dy);
      assert LinePoint(sx, sy, ex, ey, i) == (Advance(sx, LineWalk(Abs(dy), Abs(dx), i).k, dx), Advance(sy, i, dy));
      assert LinePoint(sx, sy, ex, ey, 0) == (Advance(sx, LineWalk(Abs(dy), Abs(dx), 0).k, dx), Advance(sy, 0, dy));
      WalkReaches(sy, dy, sx, dx, i);
    } else {
      assert dx == 0 && dy == 0 && i == 0;
    }
  }

  /**
   * Along a major axis of distance |dmaj| > 0 and a minor axis no longer,
   * the walk is at its start after 0 steps and at its end after i steps
   * exactly when i = |dmaj|.
   */
  lemma WalkReaches(smaj: int, dmaj: int, smin: int, dmin: int, i: nat)
    requires Abs(dmin) <= Abs(dmaj) && Abs(dmaj) > 0 && i <= Abs(dmaj)
    ensures Advance(smaj, 0, dmaj) == smaj && Advance(smin, LineWalk(Abs(dmaj), Abs(dmin), 0).k, dmin) == smin
    ensures Advance(smaj, i, dmaj) == smaj + dmaj && Advance(smin, LineWalk(Abs(dmaj), Abs(dmin), i).k, dmin) == smin + dmin
      <==> i == Abs(dmaj)
  {
    var k := LineWalk(Abs(dmaj), Abs(dmin), i).k;
    WalkEnds(Abs(dmaj), Abs(dmin));
    AdvanceReaches(smaj, i, dmaj);
    AdvanceReaches(smin, k, dmin);
  }

  /** Moving n steps towards s + d lands on s + d exactly when n is the distance. */
  lemma AdvanceReaches(s: int, n: nat, d: int)
    ensures Advance(s, 0, d) == s
    ensures n == Abs(d) ==> Advance(s, n, d) == s + d
    ensures d != 0 && Advance(s, n, d) == s + d ==> n == Abs(d)
  {
  }

  /** No step of the line is the start tile. */
  lemma LineAvoidsStart(sx: int, sy: int, ex: int, ey: int, i: nat)
    requires 1 <= i <= Steps(sx, sy, ex, ey)
    ensures LinePoint(sx, sy, ex, ey, i) != (sx, sy)
  {
  }

  /** Consecutive tiles of the line, the start included, differ by at most one in each axis. */
  lemma LineAdjacent(sx: int, sy: int, ex: int, ey: int, i: nat)
    requires 1 <= i <= Steps(sx, sy, ex, ey)
    ensures var p, q := LinePoint(sx, sy, ex, ey, i - 1), LinePoint(sx, sy, ex, ey, i);
      -1 <= q.0 - p.0 <= 1 && -1 <= q.1 - p.1 <= 1
  {
    var ax := Abs(ex - sx);
    var ay := Abs(ey - sy);
    if ax > ay {
      WalkStep(ax, ay, i);
    } else {
      WalkStep(ay, ax, i);
    }
  }

  /** One step of the x-major walk, as the loop of `_build_path_direct` takes it. */
  lemma XMajorStep(sx: int, sy: int, ex: int, ey: int, i: nat)
    requires Abs(ex - sx) > Abs(ey - sy)
    ensures var p, q := LinePoint(sx, sy, ex, ey, i), LinePoint(sx, sy, ex, ey, i + 1);
      var e := LineWalk(Abs(ex - sx), Abs(ey - sy), i).err - Abs(ey - sy);
      q == (p.0 + Sign(ex - sx), if e < 0 then p.1 + Sign(ey - sy) else p.1) &&
      LineWalk(Abs(ex - sx), Abs(ey - sy), i + 1).err == (if e < 0 then e + Abs(ex - sx) else e)
  {
  }

  /** One step of the y-major walk, as the loop of `_build_path_direct` takes it. */
  lemma YMajorStep(sx: int, sy: int, ex: int, ey: int, i: nat)
    requires Abs(ex - sx) <= Abs(ey - sy)
    ensures var p, q := LinePoint(sx, sy, ex, ey, i), LinePoint(sx, sy, ex, ey, i + 1);
      var e := LineWalk(Abs(ey - sy), Abs(ex - sx), i).err - Abs(ex - sx);
      q == (if e < 0 then p.0 + Sign(ex - sx) else p.0, p.1 + Sign(ey - sy)) &&
      LineWalk(Abs(ey - sy), Abs(ex - sx), i + 1).err == (if e < 0 then e + Abs(ey - sy) else e)
  {
  }

  /** Every tile of the line lies in the rectangle spanned by its two ends. */
  lemma LineInBox(sx: int, sy: int, ex: int, ey: int, i: nat)
    requires i <= Steps(sx, sy, ex, ey)
    ensures var p := LinePoint(sx, sy, ex, ey, i);
      (if sx <= ex then sx <= p.0 <= ex else ex <= p.0 <= sx) &&
      (if sy <= ey then sy <= p.1 <= ey else ey <= p.1 <= sy)
  {
    var ax := Abs(ex - sx);
    var ay := Abs(ey - sy);
    if ax > ay {
      WalkMonotone(ax, ay, i, ax);
      WalkEnds(ax, ay);
    } else if ay > 0 {
      WalkMonotone(ay, ax, i, ay);
      WalkEnds(ay, ax);
    }
  }

  /** `_build_path_direct` (entity.cpp:287-373): the line from `start` to `end`, up to its first blocked tile. */
  method BuildPathDirect(w: World, start: GamePosition, end: GamePosition) returns (path: seq<GamePosition>, reached: bool)
    requires ValidWorld(w)
    requires InBounds(w, start.tileX, start.tileY) && InBounds(w, end.tileX, end.tileY)
    ensures var l := Line(start.tileX, start.tileY, end.tileX, end.tileY);
      |path| <= |l| &&
      (forall j | 0 <= j < |path| :: path[j] == MakePosition(l[j].0, l[j].1) && Free(w, l[j].0, l[j].1)) &&
      (|path| < |l| ==> !Free(w, l[|path|].0, l[|path|].1)) &&
      (reached <==> |l| > 0 && |path| == |l|)
  {
    var dx := end.tileX - start.tileX;
    var dy := end.tileY - start.tileY;
    if Abs(dx) > Abs(dy) {
      path, reached := WalkXMajor(w, start.tileX, start.tileY, end.tileX, end.tileY);
    } else if Abs(dy) > 0 {
      path, reached := WalkYMajor(w, start.tileX, start.tileY, end.tileX, end.tileY);
    } else {
      path, reached := [], false;
    }
    FreePrefixLine(w, start.tileX, start.tileY, end.tileX, end.tileY, path);
  }

  /** The path tiles are the first |path| tiles of the line, each free. */
  ghost predicate FreePrefix(w: World, sx: int, sy: int, ex: int, ey: int, path: seq<GamePosition>)
  {
    forall j | 0 <= j < |path| ::
      var p := LinePoint(sx, sy, ex, ey, j + 1);
      path[j] == MakePosition(p.0, p.1) && Free(w, p.0, p.1)
  }

  /** A free prefix extended by the next tile of the line, when that tile is free. */
  lemma FreePrefixExtend(w: World, sx: int, sy: int, ex: int, ey: int, path: seq<GamePosition>, x: int, y: int)
    requires FreePrefix(w, sx, sy, ex, ey, path)
    requires (x, y) == LinePoint(sx, sy, ex, ey, |path| + 1) && Free(w, x, y)
    ensures FreePrefix(w, sx, sy, ex, ey, path + [MakePosition(x, y)])
  {
    var q := path + [MakePosition(x, y)];
    forall j | 0 <= j < |q|
      ensures var p := LinePoint(sx, sy, ex, ey, j + 1); q[j] == MakePosition(p.0, p.1) && Free(w, p.0, p.1)
    {
      if j < |path| {
        assert q[j] == path[j];
      }
    }
  }

  /** The path contract in terms of the line. */
  lemma FreePrefixLine(w: World, sx: int, sy: int, ex: int, ey: int, path: seq<GamePosition>)
    requires FreePrefix(w, sx, sy, ex, ey, path) && |path| <= Steps(sx, sy, ex, ey)
    ensures var l := Line(sx, sy, ex, ey);
      forall j | 0 <= j < |path| :: path[j] == MakePosition(l[j].0, l[j].1) && Free(w, l[j].0, l[j].1)
  {
  }

  /** One step of the x-major loop body: the next tile and error term, on the map. */
  method StepXMajor(w: World, sx: int, sy: int, ex: int, ey: int, i: nat, cx: int, cy: int, error: int)
    returns (nx: int, ny: int, nerror: int)
    requires ValidWorld(w) && InBounds(w, sx, sy) && InBounds(w, ex, ey)
    requires Abs(ex - sx) > Abs(ey - sy) && i < Abs(ex - sx)
    requires error == LineWalk(Abs(ex - sx), Abs(ey - sy), i).err
    requires (cx, cy) == LinePoint(sx, sy, ex, ey, i)
    ensures nerror == LineWalk(Abs(ex - sx), Abs(ey - sy), i + 1).err
    ensures (nx, ny) == LinePoint(sx, sy, ex, ey, i + 1)
    ensures InBounds(w, nx, ny)
  {
    XMajorStep(sx, sy, ex, ey, i);
    nx, ny := cx + Sign(ex - sx), cy;
    nerror := error - Abs(ey - sy);
    if nerror < 0 {
      ny := cy + Sign(ey - sy);
      nerror := nerror + Abs(ex - sx);
    }
    LineInBox(sx, sy, ex, ey, i + 1);
  }

  /** One step of the y-major loop body. */
  method StepYMajor(w: World, sx: int, sy: int, ex: int, ey: int, i: nat, cx: int, cy: int, error: int)
    returns (nx: int, ny: int, nerror: int)
    requires ValidWorld(w) && InBounds(w, sx, sy) && InBounds(w, ex, ey)
    requires Abs(ex - sx) <= Abs(ey - sy) && i < Abs(ey - sy)
    requires error == LineWalk(Abs(ey - sy), Abs(ex - sx), i).err
    requires (cx, cy) == LinePoint(sx, sy, ex, ey, i)
    ensures nerror == LineWalk(Abs(ey - sy), Abs(ex - sx), i + 1).err
    ensures (nx, ny) == LinePoint(sx, sy, ex, ey, i + 1)
    ensures InBounds(w, nx, ny)
  {
    YMajorStep(sx, sy, ex, ey, i);
    nx, ny := cx, cy + Sign(ey - sy);
    nerror := error - Abs(ex - sx);
    if nerror < 0 {
      nx := cx + Sign(ex - sx);
      nerror := nerror + Abs(ey - sy);
    }
    LineInBox(sx, sy, ex, ey, i + 1);
  }

  /**
   * One pass of the loop body of the x-major walk: the next tile, then either
   * a stop at a blocked tile, or the tile appended and a stop if it is the end.
   */
  method XMajorPass(w: World, sx: int, sy: int, ex: int, ey: int, i: nat, cx: int, cy: int, error: int, path: seq<GamePosition>)
    returns (nx: int, ny: int, nerror: int, npath: seq<GamePosition>, blocked: bool, reached: bool)
    requires ValidWorld(w) && InBounds(w, sx, sy) && InBounds(w, ex, ey)
    requires Abs(ex - sx) > Abs(ey - sy) && i < Abs(ex - sx) && |path| == i
    requires error == LineWalk(Abs(ex - sx), Abs(ey - sy), i).err
    requires (cx, cy) == LinePoint(sx, sy, ex, ey, i)
    requires FreePrefix(w, sx, sy, ex, ey, path)
    ensures nerror == LineWalk(Abs(ex - sx), Abs(ey - sy), i + 1).err
    ensures (nx, ny) == LinePoint(sx, sy, ex, ey, i + 1)
    ensures blocked ==> npath == path && !Free(w, nx, ny) && !reached
    ensures !blocked ==> npath == path + [MakePosition(nx, ny)] && FreePrefix(w, sx, sy, ex, ey, npath)
    ensures !blocked ==> (reached <==> i + 1 == Abs(ex - sx))
  {
    nx, ny, nerror := StepXMajor(w, sx, sy, ex, ey, i, cx, cy, error);
    var free := CanStepOn(w, nx, ny);
    if !free {
      return nx, ny, nerror, path, true, false;
    }
    FreePrefixExtend(w, sx, sy, ex, ey, path, nx, ny);
    npath := path + [MakePosition(nx, ny)];
    LineEnds(sx, sy, ex, ey, i + 1);
    blocked := false;
    reached := nx == ex && ny == ey;
  }

  /** The |dx| > |dy| branch of `_build_path_direct` (entity.cpp:307-338). */
  method WalkXMajor(w: World, sx: int, sy: int, ex: int, ey: int) returns (path: seq<GamePosition>, reached: bool)
    requires ValidWorld(w) && InBounds(w, sx, sy) && InBounds(w, ex, ey)
    requires Abs(ex - sx) > Abs(ey - sy)
    ensures |path| <= Steps(sx, sy, ex, ey)
    ensures FreePrefix(w, sx, sy, ex, ey, path)
    ensures |path| < Steps(sx, sy, ex, ey) ==>
      var p := LinePoint(sx, sy, ex, ey, |path| + 1); !Free(w, p.0, p.1)
    ensures reached <==> |path| == Steps(sx, sy, ex, ey)
  {
    var absX := Abs(ex - sx);
    assert Steps(sx, sy, ex, ey) == absX;
    path, reached := [], false;
    var error: int := absX / 2;
    var cx: int, cy: int := sx, sy;
    var i := 0;
    while i < absX
      invariant 0 <= i < absX && |path| == i && !reached
      invariant error == LineWalk(absX, Abs(ey - sy), i).err
      invariant (cx, cy) == LinePoint(sx, sy, ex, ey, i)
      invariant FreePrefix(w, sx, sy, ex, ey, path)
    {
      var blocked;
      cx, cy, error, path, blocked, reached := XMajorPass(w, sx, sy, ex, ey, i, cx, cy, error, path);
      if blocked || reached {
        break;
      }
      i := i + 1;
    }
  }

  /**
   * One pass of the loop body of the y-major walk: the next tile, then either
   * a stop at a blocked tile, or the tile appended and a stop if it is the end.
   */
  method YMajorPass(w: World, sx: int, sy: int, ex: int, ey: int, i: nat, cx: int, cy: int, error: int, path: seq<GamePosition>)
    returns (nx: int, ny: int, nerror: int, npath: seq<GamePosition>, blocked: bool, reached: bool)
    requires ValidWorld(w) && InBounds(w, sx, sy) && InBounds(w, ex, ey)
    requires Abs(ex - sx) <= Abs(ey - sy) && i < Abs(ey - sy) && |path| == i
    requires error == LineWalk(Abs(ey - sy), Abs(ex - sx), i).err
    requires (cx, cy) == LinePoint(sx, sy, ex, ey, i)
    requires FreePrefix(w, sx, sy, ex, ey, path)
    ensures nerror == LineWalk(Abs(ey - sy), Abs(ex - sx), i + 1).err
    ensures (nx, ny) == LinePoint(sx, sy, ex, ey, i + 1)
    ensures blocked ==> npath == path && !Free(w, nx, ny) && !reached
    ensures !blocked ==> npath == path + [MakePosition(nx, ny)] && FreePrefix(w, sx, sy, ex, ey, npath)
    ensures !blocked ==> (reached <==> i + 1 == Abs(ey - sy))
  {
    nx, ny, nerror := StepYMajor(w, sx, sy, ex, ey, i, cx, cy, error);
    var free := CanStepOn(w, nx, ny);
    if !free {
      return nx, ny, nerror, path, true, false;
    }
    FreePrefixExtend(w, sx, sy, ex, ey, path, nx, ny);
    npath := path + [MakePosition(nx, ny)];
    LineEnds(sx, sy, ex, ey, i + 1);
    blocked := false;
    reached := nx == ex && ny == ey;
  }

  /** The |dx| <= |dy| branch of `_build_path_direct` (entity.cpp:339-370), for distinct ends. */
  method WalkYMajor(w: World, sx: int, sy: int, ex: int, ey: int) returns (path: seq<GamePosition>, reached: bool)
    requires ValidWorld(w) && InBounds(w, sx, sy) && InBounds(w, ex, ey)
    requires Abs(ex - sx) <= Abs(ey - sy) && Abs(ey - sy) > 0
    ensures |path| <= Steps(sx, sy, ex, ey)
    ensures FreePrefix(w, sx, sy, ex, ey, path)
    ensures |path| < Steps(sx, sy, ex, ey) ==>
      var p := LinePoint(sx, sy, ex, ey, |path| + 1); !Free(w, p.0, p.1)
    ensures reached <==> |path| == Steps(sx, sy, ex, ey)
  {
    var absY := Abs(ey - sy);
    assert Steps(sx, sy, ex, ey) == absY;
    path, reached := [], false;
    var error: int := absY / 2;
    var cx: int, cy: int := sx, sy;
    var i := 0;
    while i < absY
      invariant 0 <= i < absY && |path| == i && !reached
      invariant error == LineWalk(absY, Abs(ex - sx), i).err
      invariant (cx, cy) == LinePoint(sx, sy, ex, ey, i)
      invariant FreePrefix(w, sx, sy, ex, ey, path)
    {
      var blocked;
      cx, cy, error, path, blocked, reached := YMajorPass(w, sx, sy, ex, ey, i, cx, cy, error, path);
      if blocked || reached {
        break;
      }
      i := i + 1;
    }
  }

  // ---------------------------------------------------------------------
  // `find_valid_target`
  // ---------------------------------------------------------------------

  /** The eight neighbour offsets, in the order of entity.cpp:91-94. */
  const NEIGHBOUR_OFFSETS: seq<(int, int)> := [(0, -1), (1, 0), (0, 1), (-1, 0), (1, -1), (1, 1), (-1, 1), (-1, -1)]

  /** Some in-bounds neighbour of the tile allows movement (occupied or not). */
  predicate WalkableNeighbour(w: World, x: int, y: int)
  {
    exists i | 0 <= i < |NEIGHBOUR_OFFSETS| ::
      InBounds(w, x + NEIGHBOUR_OFFSETS[i].0, y + NEIGHBOUR_OFFSETS[i].1) &&
      MoveAllowed(w, x + NEIGHBOUR_OFFSETS[i].0, y + NEIGHBOUR_OFFSETS[i].1)
  }

  /** The neighbour loop of entity.cpp:121-138, which stops at the first walkable neighbour. */
  method HasWalkableNeighbour(w: World, x: int, y: int) returns (found: bool)
    ensures found == WalkableNeighbour(w, x, y)
  {
    found := false;
    var i := 0;
    while i < 8
      invariant 0 <= i <= 8
      invariant forall j | 0 <= j < i ::
        !(InBounds(w, x + NEIGHBOUR_OFFSETS[j].0, y + NEIGHBOUR_OFFSETS[j].1) &&
          MoveAllowed(w, x + NEIGHBOUR_OFFSETS[j].0, y + NEIGHBOUR_OFFSETS[j].1))
    {
      var nx, ny := x + NEIGHBOUR_OFFSETS[i].0, y + NEIGHBOUR_OFFSETS[i].1;
      if InBounds(w, nx, ny) && MoveAllowed(w, nx, ny) {
        return true;
      }
      i := i + 1;
    }
  }

  /** A tile the search may return: on the map, free, and with a walkable neighbour. */
  predicate Acceptable(w: World, x: int, y: int)
  {
    InBounds(w, x, y) && Free(w, x, y) && WalkableNeighbour(w, x, y)
  }

  /** The checks of one search candidate (entity.cpp:109-143), in the source's order. */
  method CheckCandidate(w: World, x: int, y: int) returns (ok: bool)
    ensures ok == Acceptable(w, x, y)
  {
    if !InBounds(w, x, y) {
      return false;
    }
    var free := CanStepOn(w, x, y);
    if !free {
      return false;
    }
    ok := HasWalkableNeighbour(w, x, y);
  }

  /** The ring an offset lies on: the larger of |dx| and |dy|. */
  function Ring(dx: int, dy: int): nat
  {
    if Abs(dx) > Abs(dy) then Abs(dx) else Abs(dy)
  }

  /** The offset (dx, dy) from (cx, cy) lies on a searched ring and leads to an acceptable tile. */
  predicate Hit(w: World, cx: int, cy: int, dx: int, dy: int)
  {
    1 <= Ring(dx, dy) <= SEARCH_RADIUS && Acceptable(w, cx + dx, cy + dy)
  }

  /** The search order: ring by ring outward, then by dx, then by dy. */
  predicate Before(dx1: int, dy1: int, dx2: int, dy2: int)
  {
    Ring(dx1, dy1) < Ring(dx2, dy2) ||
    (Ring(dx1, dy1) == Ring(dx2, dy2) && (dx1 < dx2 || (dx1 == dx2 && dy1 < dy2)))
  }

  /** (dx, dy) is the first hit in search order. */
  ghost predicate FirstHit(w: World, cx: int, cy: int, dx: int, dy: int)
  {
    Hit(w, cx, cy, dx, dy) && forall a, b | Before(a, b, dx, dy) :: !Hit(w, cx, cy, a, b)
  }

  /** The search order is total, so there is at most one first hit. */
  lemma FirstHitUnique(w: World, cx: int, cy: int, dx1: int, dy1: int, dx2: int, dy2: int)
    requires FirstHit(w, cx, cy, dx1, dy1) && FirstHit(w, cx, cy, dx2, dy2)
    ensures dx1 == dx2 && dy1 == dy2
  {
  }

  /** (dx, dy) lies on ring r and leads to an acceptable tile. */
  predicate RingHit(w: World, cx: int, cy: int, r: int, dx: int, dy: int)
  {
    Ring(dx, dy) == r && Acceptable(w, cx + dx, cy + dy)
  }

  /** The Dy loop of entity.cpp:101-145 for one Dx: the first dy on ring r that leads to an acceptable tile. */
  method SearchColumn(w: World, cx: int, cy: int, r: int, dx: int) returns (found: bool, dy: int)
    requires 0 <= r && -r <= dx <= r
    ensures found ==> -r <= dy <= r && RingHit(w, cx, cy, r, dx, dy)
    ensures found ==> forall b | -r <= b < dy :: !RingHit(w, cx, cy, r, dx, b)
    ensures !found ==> forall b | -r <= b <= r :: !RingHit(w, cx, cy, r, dx, b)
  {
    dy := -r;
    while dy <= r
      invariant -r <= dy <= r + 1
      invariant forall b | -r <= b < dy :: !RingHit(w, cx, cy, r, dx, b)
    {
      if Abs(dx) == r || Abs(dy) == r {
        var ok := CheckCandidate(w, cx + dx, cy + dy);
        if ok {
          return true, dy;
        }
      }
      dy := dy + 1;
    }
    return false, dy;
  }

  /** The Dx loop of entity.cpp:99-146: the first offset on ring r, in (dx, dy) order, that leads to an acceptable tile. */
  method SearchRing(w: World, cx: int, cy: int, r: int) returns (found: bool, dx: int, dy: int)
    requires 0 <= r
    ensures found ==> RingHit(w, cx, cy, r, dx, dy)
    ensures found ==> forall a, b | Ring(a, b) == r && (a < dx || (a == dx && b < dy)) :: !RingHit(w, cx, cy, r, a, b)
    ensures !found ==> forall a, b :: !RingHit(w, cx, cy, r, a, b)
  {
    dx := -r;
    while dx <= r
      invariant -r <= dx <= r + 1
      invariant forall a, b | Ring(a, b) == r && a < dx :: !RingHit(w, cx, cy, r, a, b)
    {
      var f, d := SearchColumn(w, cx, cy, r, dx);
      if f {
        return true, dx, d;
      }
      dx := dx + 1;
    }
    return false, dx, 0;
  }

  /** The Radius loop of entity.cpp:97-147: the first hit over rings 1 to 19. */
  method SearchRings(w: World, cx: int, cy: int) returns (found: bool, dx: int, dy: int)
    ensures found ==> FirstHit(w, cx, cy, dx, dy)
    ensures !found ==> forall a, b :: !Hit(w, cx, cy, a, b)
  {
    var r := 1;
    while r < SEARCH_RADIUS + 1
      invariant 1 <= r <= SEARCH_RADIUS + 1
      invariant forall a, b | Ring(a, b) < r :: !Hit(w, cx, cy, a, b)
    {
      var f, a, b := SearchRing(w, cx, cy, r);
      if f {
        forall a', b' | Before(a', b', a, b)
          ensures !Hit(w, cx, cy, a', b')
        {
          if Ring(a', b') == r {
            assert !RingHit(w, cx, cy, r, a', b');
          }
        }
        return true, a, b;
      }
      forall a', b' | Ring(a', b') < r + 1
        ensures !Hit(w, cx, cy, a', b')
      {
        if Ring(a', b') == r {
          assert !RingHit(w, cx, cy, r, a', b');
        }
      }
      r := r + 1;
    }
    return false, 0, 0;
  }

  /** `std::max(0, std::min(v, size - 1))`: v pulled onto the map along one axis. */
  function ClampToMap(v: int, size: int): (r: int)
    requires size > 0
    ensures 0 <= r < size
    ensures 0 <= v < size ==> r == v
  {
    if v < 0 then 0 else if v > size - 1 then size - 1 else v
  }

  /**
   * `find_valid_target` (entity.cpp:72-153): the target pulled onto the map
   * if that tile is free; otherwise the first acceptable tile of the ring
   * search around it; otherwise the entity's own position.
   */
  method FindValidTarget(w: World, position: GamePosition, target: GamePosition) returns (r: GamePosition)
    requires ValidWorld(w)
    ensures var cx, cy := ClampToMap(target.tileX, w.width), ClampToMap(target.tileY, w.height);
      Free(w, cx, cy) ==> r == MakePosition(cx, cy)
    ensures var cx, cy := ClampToMap(target.tileX, w.width), ClampToMap(target.tileY, w.height);
      !Free(w, cx, cy) ==> forall a, b | FirstHit(w, cx, cy, a, b) :: r == MakePosition(cx + a, cy + b)
    ensures var cx, cy := ClampToMap(target.tileX, w.width), ClampToMap(target.tileY, w.height);
      !Free(w, cx, cy) && (forall a, b :: !Hit(w, cx, cy, a, b)) ==> r == position
    ensures var cx, cy := ClampToMap(target.tileX, w.width), ClampToMap(target.tileY, w.height);
      r == position || (exists x, y | InBounds(w, x, y) && Free(w, x, y) :: r == MakePosition(x, y))
  {
    var cx := ClampToMap(target.tileX, w.width);
    var cy := ClampToMap(target.tileY, w.height);
    var free := CanStepOn(w, cx, cy);
    if free {
      return MakePosition(cx, cy);
    }
    var found, dx, dy := SearchRings(w, cx, cy);
    if found {
      forall a, b | FirstHit(w, cx, cy, a, b)
        ensures MakePosition(cx + a, cy + b) == MakePosition(cx + dx, cy + dy)
      {
        FirstHitUnique(w, cx, cy, a, b, dx, dy);
      }
      return MakePosition(cx + dx, cy + dy);
    }
    return position;
  }

  // ---------------------------------------------------------------------
  // Stopping
  // ---------------------------------------------------------------------

  /** The reservation set one map shares between all its entities: the keys of tiles being stepped onto. */
  class ReservedTiles {
    var keys: set<nat>

    constructor ()
      ensures keys == {}
    {
      keys := {};
    }
  }

  /**
   * The movement fields of `Entity` (entity.h:180-201); `animation` and
   * `weapon` record the last `set_animation` request.
   */
  class Mover {
    var position: GamePosition
    var isMoving: bool
    var stopRequested: bool
    var movementPath: seq<GamePosition>
    var nextMovementPath: seq<GamePosition>
    var reservedTiles: ReservedTiles?
    var reservedTileKey: nat
    var animation: AnimationType
    var weapon: WeaponUsed

    /** A standing entity at `p` on a map whose reservation set is `tiles`. */
    constructor (p: GamePosition, tiles: ReservedTiles?)
      ensures position == p && reservedTiles == tiles && reservedTileKey == 0
      ensures !isMoving && !stopRequested && movementPath == [] && nextMovementPath == []
      ensures animation == Stand && weapon == Hand
    {
      position := p;
      isMoving := false;
      stopRequested := false;
      movementPath := [];
      nextMovementPath := [];
      reservedTiles := tiles;
      reservedTileKey := 0;
      animation := Stand;
      weapon := Hand;
    }

    /**
     * `stop_movement` (entity.cpp:497-510): the tile this entity reserved is
     * released, both paths are dropped and the entity stands. The source
     * treats key 0 as "no reservation", but 0 is also the key of tile (0,0)
     * (`TileKeyValue`), so a reservation of that tile is never released here.
     */
    method StopMovement()
      modifies this, reservedTiles
      ensures movementPath == [] && nextMovementPath == []
      ensures !isMoving && !stopRequested && animation == Stand && weapon == Hand
      ensures position == old(position) && reservedTiles == old(reservedTiles)
      ensures reservedTiles != null && old(reservedTileKey) != 0 ==>
        reservedTiles.keys == old(reservedTiles.keys) - {old(reservedTileKey)} && reservedTileKey == 0
      ensures reservedTiles != null ==> old(reservedTileKey) !in reservedTiles.keys || old(reservedTileKey) == 0
      ensures reservedTiles != null && old(reservedTileKey) == 0 ==> reservedTiles.keys == old(reservedTiles.keys)
      ensures reservedTileKey == if reservedTiles != null then 0 else old(reservedTileKey)
    {
      if reservedTiles != null && reservedTileKey != 0 {
        reservedTiles.keys := reservedTiles.keys - {reservedTileKey};
        reservedTileKey := 0;
      }
      movementPath := [];
      nextMovementPath := [];
      isMoving := false;
      stopRequested := false;
      animation := Stand;
      weapon := Hand;
    }
  }
}
