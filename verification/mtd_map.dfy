/**
 * The tile map of the client (Sources/HelbreathRaylib/CMap.h): the tile
 * grid of `CMapData` with its bounds check, and the `LoadMTDFile` reader
 * taken over the bytes of the file.
 *
 * An MTD file is the magic "<MTD>", a stored checksum, two length-prefixed
 * strings (map identifier and map name), the map width, height and tile
 * size, 100 bytes of padding, the tag "<TILES>" and then 10 bytes per tile,
 * row after row.
 */
module MtdMap {
  import opened Wrappers
  import opened Bytes
  import Arith

  /** One map cell, `CTile`. */
  datatype Tile = Tile(
    tileSprite: int, tileSpriteFrame: int,
    objectSprite: int, objectSpriteFrame: int,
    isMoveAllowed: bool, isTeleport: bool)

  const DefaultTile := Tile(0, 0, 0, 0, false, false)

  /** Bytes of one tile record: four `int16_t` and two flags. */
  const TILE_RECORD_SIZE: nat := 10
  /** The size check `LoadMTDFile` makes first: magic, checksum and three 16-bit fields. */
  const MIN_FILE_SIZE: nat := 5 + 4 + 2 + 2 + 2
  const HEADER_PADDING: nat := 100
  const TILES_TAG_SIZE: nat := 7
  /** Bytes the end-of-file check wants after the tile records. */
  const TRAILER_SIZE: nat := 8
  const U32_LIMIT: nat := 0x1_0000_0000
  const U64_LIMIT: nat := 0x1_0000_0000_0000_0000

  const Magic: seq<bv8> := Ascii("<MTD>")
  const TilesTag: seq<bv8> := Ascii("<TILES>")

  /** `CMapData`: the map dimensions, its names and the tile grid, indexed [x, y]. */
  class MapData {
    var sizeX: int
    var sizeY: int
    var tileSize: int
    var identifier: seq<bv8>
    var name: seq<bv8>
    var tiles: array2<Tile>

    /** The grid has one cell per coordinate of the map. */
    ghost predicate Valid()
      reads this
    {
      0 <= sizeX && 0 <= sizeY && tiles.Length0 == sizeX && tiles.Length1 == sizeY
    }

    /** The sizing constructor: every cell starts as a default tile (CMap.h:52-56). */
    constructor (sizeX: int, sizeY: int, tileSize: int, identifier: seq<bv8>, name: seq<bv8>)
      requires 0 <= sizeX && 0 <= sizeY
      ensures Valid() && fresh(tiles)
      ensures this.sizeX == sizeX && this.sizeY == sizeY && this.tileSize == tileSize
      ensures this.identifier == identifier && this.name == name
      ensures forall x, y | 0 <= x < sizeX && 0 <= y < sizeY :: tiles[x, y] == DefaultTile
    {
      this.sizeX := sizeX;
      this.sizeY := sizeY;
      this.tileSize := tileSize;
      this.identifier := identifier;
      this.name := name;
      tiles := new Tile[sizeX, sizeY]((x, y) => DefaultTile);
    }

    /** `InBounds`: the coordinate names a cell of the map. */
    predicate InBounds(x: int, y: int)
      reads this
    {
      x >= 0 && y >= 0 && x < sizeX && y < sizeY
    }

    /** `GetTile`: the cell at (x, y), or nothing exactly when (x, y) is outside the map. */
    function GetTile(x: int, y: int): (r: Option<Tile>)
      requires Valid()
      reads this, tiles
      ensures r.None? <==> !(0 <= x < sizeX && 0 <= y < sizeY)
      ensures r.Some? ==> r.value == tiles[x, y]
    {
      if !InBounds(x, y) then None else Some(tiles[x, y])
    }
  }

  /** What the header of a well-formed file holds; `tilesAt` is where "<TILES>" must begin. */
  datatype MtdHeader = MtdHeader(
    crc: nat, identifier: seq<bv8>, name: seq<bv8>,
    sizeX: int, sizeY: int, tileSize: int, tilesAt: nat)

  /** The reasons `LoadMTDFile` returns null, plus the one the corrected reader adds. */
  datatype MtdError =
    | InvalidFile       // CMap.h:160-163
    | InvalidHeader     // CMap.h:166-169
    | BadDimensions     // CMap.h:195-198
    | UnexpectedEof     // CMap.h:205-208
    | MissingTilesTag   // CMap.h:210-213
    | CrcMismatch       // CMap.h:219-223
    | TruncatedHeader   // a string length or field that does not fit in the file

  /** Where the first tile record begins. */
  function TileStart(h: MtdHeader): nat
  {
    h.tilesAt + TILES_TAG_SIZE
  }

  /** Bytes of tile records: 10 per cell. */
  function TileBytes(sizeX: nat, sizeY: nat): nat
  {
    TILE_RECORD_SIZE * (sizeX * sizeY)
  }

  /**
   * The part of the header after the two strings, read at `dimsAt`: the
   * dimensions and tile size, then the padding, the dimension check, the
   * end-of-file check and the "<TILES>" tag.
   */
  function RestOfLayout(data: seq<bv8>, crc: nat, identifier: seq<bv8>, name: seq<bv8>, dimsAt: nat): Result<MtdHeader, MtdError>
    requires dimsAt + 6 <= |data|
  {
    var sizeX := I16At(data, dimsAt);
    var sizeY := I16At(data, dimsAt + 2);
    var tileSize := I16At(data, dimsAt + 4);
    var tilesAt := dimsAt + 6 + HEADER_PADDING;
    if sizeX <= 0 || sizeY <= 0 then Failure(BadDimensions)
    else if tilesAt + TILES_TAG_SIZE + TileBytes(sizeX, sizeY) + TRAILER_SIZE > |data| then Failure(UnexpectedEof)
    else if data[tilesAt..tilesAt + TILES_TAG_SIZE] != TilesTag then Failure(MissingTilesTag)
    else Success(MtdHeader(crc, identifier, name, sizeX, sizeY, tileSize, tilesAt))
  }

  /**
   * The header checks of `LoadMTDFile`, with every read bounds-checked: a
   * negative string length, or a string or field running past the end of
   * the file, is rejected as a truncated header.
   */
  function CheckLayout(data: seq<bv8>): Result<MtdHeader, MtdError>
  {
    if |data| < MIN_FILE_SIZE then Failure(InvalidFile)
    else if data[..5] != Magic then Failure(InvalidHeader)
    else
      var crc := U32At(data, 5);
      var idLen := I16At(data, 9);
      if idLen < 0 || 11 + idLen + 2 > |data| then Failure(TruncatedHeader)
      else
        var nameLen := I16At(data, 11 + idLen);
        var dimsAt := 13 + idLen + nameLen;
        if nameLen < 0 || dimsAt + 6 > |data| then Failure(TruncatedHeader)
        else RestOfLayout(data, crc, data[11..11 + idLen], data[13 + idLen..dimsAt], dimsAt)
  }

  /** How the reader as written ends: with a result, by throwing, or by reading outside the file. */
  datatype AsWrittenOutcome =
    | Returns(result: Result<MtdHeader, MtdError>)
    | ThrowsLengthError
    | ReadsPastEnd

  /**
   * The header checks as CMap.h:159-213 write them: after the 15-byte size
   * check nothing bounds the reads of the identifier, the name, their
   * lengths or the dimensions. A negative length makes the string
   * constructor throw; a read beyond the data is undefined behaviour.
   */
  function LayoutAsWritten(data: seq<bv8>): AsWrittenOutcome
  {
    if |data| < MIN_FILE_SIZE then Returns(Failure(InvalidFile))
    else if data[..5] != Magic then Returns(Failure(InvalidHeader))
    else
      var crc := U32At(data, 5);
      var idLen := I16At(data, 9);
      if idLen < 0 then ThrowsLengthError
      else if 11 + idLen + 2 > |data| then ReadsPastEnd
      else
        var nameLen := I16At(data, 11 + idLen);
        var dimsAt := 13 + idLen + nameLen;
        if nameLen < 0 then ThrowsLengthError
        else if dimsAt + 6 > |data| then ReadsPastEnd
        else Returns(RestOfLayout(data, crc, data[11..11 + idLen], data[13 + idLen..dimsAt], dimsAt))
  }

  /**
   * A 15-byte file holding the magic and zero lengths passes the size check,
   * yet reading its height and tile size needs 19 bytes.
   */
  lemma ShortFileReadsPastEnd()
    ensures var data := Magic + seq(10, _ => 0 as bv8);
      |data| == MIN_FILE_SIZE && data[..5] == Magic &&
      LayoutAsWritten(data) == ReadsPastEnd &&
      CheckLayout(data) == Failure(TruncatedHeader)
  {
    var data := Magic + seq(10, _ => 0 as bv8);
    assert data[..5] == Magic;
    assert data[9] == 0 && data[10] == 0 && data[11] == 0 && data[12] == 0;
  }

  /**
   * The corrected checks agree with the reader as written wherever that
   * reader is defined, and reject as truncated every file on which it throws
   * or reads outside the data.
   */
  lemma CheckLayoutCorrectsAsWritten(data: seq<bv8>)
    ensures LayoutAsWritten(data).Returns? ==> CheckLayout(data) == LayoutAsWritten(data).result
    ensures !LayoutAsWritten(data).Returns? ==> CheckLayout(data) == Failure(TruncatedHeader)
  {
  }

  /** The sum `LoadMTDFile` accumulates: every tile byte plus its index. */
  function TileSum(bytes: seq<bv8>): nat
  {
    if |bytes| == 0 then 0
    else TileSum(bytes[..|bytes| - 1]) + bytes[|bytes| - 1] as nat + (|bytes| - 1)
  }

  /** The checksum of a file: the sum XOR the file size, both taken modulo 2^32. */
  function Checksum(tileBytes: seq<bv8>, fileSize: nat): nat
  {
    Xor32(TileSum(tileBytes) % U32_LIMIT, fileSize % U32_LIMIT)
  }

  /** The XOR of two 32-bit values. */
  function Xor32(a: nat, b: nat): nat
    requires a < U32_LIMIT && b < U32_LIMIT
  {
    ((a as bv32) ^ (b as bv32)) as nat
  }

  /** The tile records of a file whose layout checks passed. */
  function TileArea(data: seq<bv8>, h: MtdHeader): seq<bv8>
    requires h.sizeX > 0 && h.sizeY > 0
    requires TileStart(h) + TileBytes(h.sizeX, h.sizeY) <= |data|
  {
    data[TileStart(h)..TileStart(h) + TileBytes(h.sizeX, h.sizeY)]
  }

  /** Everything the checks of `LoadMTDFile` establish about the header of an accepted file. */
  predicate WellFormed(data: seq<bv8>, h: MtdHeader)
  {
    h.sizeX > 0 && h.sizeY > 0 &&
    TileStart(h) + TileBytes(h.sizeX, h.sizeY) + TRAILER_SIZE <= |data| &&
    data[h.tilesAt..TileStart(h)] == TilesTag
  }

  lemma RestWellFormed(data: seq<bv8>, crc: nat, identifier: seq<bv8>, name: seq<bv8>, dimsAt: nat)
    requires dimsAt + 6 <= |data|
    requires RestOfLayout(data, crc, identifier, name, dimsAt).Success?
    ensures WellFormed(data, RestOfLayout(data, crc, identifier, name, dimsAt).value)
  {
  }

  lemma LayoutWellFormed(data: seq<bv8>)
    requires CheckLayout(data).Success?
    ensures WellFormed(data, CheckLayout(data).value)
  {
    var idLen := I16At(data, 9);
    var nameLen := I16At(data, 11 + idLen);
    var dimsAt := 13 + idLen + nameLen;
    RestWellFormed(data, U32At(data, 5), data[11..11 + idLen], data[13 + idLen..dimsAt], dimsAt);
  }

  /** Whether `LoadMTDFile` accepts the file, and the header it then builds the map from. */
  function DecodeMtd(data: seq<bv8>): Result<MtdHeader, MtdError>
  {
    match CheckLayout(data)
    case Failure(e) => Failure(e)
    case Success(h) =>
      LayoutWellFormed(data);
      if Checksum(TileArea(data, h), |data|) != h.crc then Failure(CrcMismatch) else Success(h)
  }

  /** The tile record at byte `pos`. */
  function ReadTile(data: seq<bv8>, pos: nat): Tile
    requires pos + TILE_RECORD_SIZE <= |data|
  {
    Tile(I16At(data, pos), I16At(data, pos + 2), I16At(data, pos + 4), I16At(data, pos + 6),
         data[pos + 8] != 0, data[pos + 9] != 0)
  }

  /** Where the record of cell (x, y) lies: rows are stored one after another. */
  function TileOffset(tileStart: nat, sizeX: nat, x: nat, y: nat): nat
  {
    tileStart + TILE_RECORD_SIZE * (y * sizeX + x)
  }

  /** Each cell's record lies inside the tile area, and distinct cells use distinct records. */
  lemma TileOffsetInArea(sizeX: nat, sizeY: nat, x: nat, y: nat)
    requires x < sizeX && y < sizeY
    ensures y * sizeX + x + 1 <= sizeX * sizeY
    ensures TileOffset(0, sizeX, x, y) + TILE_RECORD_SIZE <= TileBytes(sizeX, sizeY)
  {
    RowsAfter(y, sizeY, sizeX);
  }

  lemma {:induction false} TileOffsetInjective(sizeX: nat, x1: nat, y1: nat, x2: nat, y2: nat)
    requires x1 < sizeX && x2 < sizeX
    requires x1 != x2 || y1 != y2
    ensures TileOffset(0, sizeX, x1, y1) != TileOffset(0, sizeX, x2, y2)
  {
    if y1 < y2 {
      RowsAfter(y1, y2, sizeX);
    } else if y2 < y1 {
      RowsAfter(y2, y1, sizeX);
    }
  }

  /** A later row starts after every cell of an earlier one. */
  lemma RowsAfter(a: nat, b: nat, sizeX: nat)
    requires a < b
    ensures (a + 1) * sizeX <= b * sizeX
  {
    assert b * sizeX == (a + 1) * sizeX + (b - (a + 1)) * sizeX;
  }

  /** Adds `b + i` to a 64-bit sum, wrapping as `uint64_t` does. */
  lemma SumStep(bytes: seq<bv8>, b: bv8)
    ensures TileSum(bytes + [b]) == TileSum(bytes) + (b as nat + |bytes|)
  {
    assert (bytes + [b])[..|bytes|] == bytes;
  }

  /** One more byte of the 64-bit wrapping sum. */
  lemma SumModStep(bytes: seq<bv8>, b: bv8)
    ensures (TileSum(bytes) % U64_LIMIT + (b as nat + |bytes|)) % U64_LIMIT == TileSum(bytes + [b]) % U64_LIMIT
  {
    var t: int := TileSum(bytes);
    var c: int := b as int + |bytes|;
    SumStep(bytes, b);
    Arith.ModAddLeft(t, c, U64_LIMIT);
  }

  /** Reducing modulo 2^64 first does not change the value modulo 2^32. */
  lemma Mod64Mod32(a: nat)
    ensures (a % U64_LIMIT) % U32_LIMIT == a % U32_LIMIT
  {
    var q := a / U64_LIMIT;
    assert a == q * U64_LIMIT + a % U64_LIMIT;
    assert q * U64_LIMIT == (q * U32_LIMIT) * U32_LIMIT;
  }

  /** The checksum loop of `LoadMTDFile` (CMap.h:216-218): a 64-bit wrapping sum, then the XOR. */
  method ComputeChecksum(data: seq<bv8>, tileStart: nat, tileBytes: nat) returns (crc: nat)
    requires tileStart + tileBytes <= |data|
    ensures crc == Checksum(data[tileStart..tileStart + tileBytes], |data|)
  {
    var sum := 0;
    var i := 0;
    while i < tileBytes
      invariant 0 <= i <= tileBytes
      invariant sum == TileSum(data[tileStart..tileStart + i]) % U64_LIMIT
    {
      SumModStep(data[tileStart..tileStart + i], data[tileStart + i]);
      assert data[tileStart..tileStart + i + 1] == data[tileStart..tileStart + i] + [data[tileStart + i]];
      sum := (sum + (data[tileStart + i] as nat + i)) % U64_LIMIT;
      i := i + 1;
    }
    ghost var total := TileSum(data[tileStart..tileStart + tileBytes]);
    Mod64Mod32(total);
    assert sum % U32_LIMIT == total % U32_LIMIT;
    crc := Xor32(sum % U32_LIMIT, |data| % U32_LIMIT);
  }

  /** The tile loops of `LoadMTDFile` (CMap.h:225-237): y outer, x inner, one record after another. */
  method FillTiles(m: MapData, data: seq<bv8>, tileStart: nat)
    requires m.Valid()
    requires tileStart + TileBytes(m.sizeX, m.sizeY) <= |data|
    modifies m.tiles
    ensures forall x, y | 0 <= x < m.sizeX && 0 <= y < m.sizeY ::
      TileOffset(tileStart, m.sizeX, x, y) + TILE_RECORD_SIZE <= |data| &&
      m.tiles[x, y] == ReadTile(data, TileOffset(tileStart, m.sizeX, x, y))
  {
    var tiles := m.tiles;
    var sizeX: nat := m.sizeX;
    var sizeY: nat := m.sizeY;
    forall x, y | 0 <= x < sizeX && 0 <= y < sizeY
      ensures TileOffset(tileStart, sizeX, x, y) + TILE_RECORD_SIZE <= |data|
    {
      TileOffsetInArea(sizeX, sizeY, x, y);
    }
    var tp := tileStart;
    var y := 0;
    while y < sizeY
      invariant 0 <= y <= sizeY
      invariant tp == TileOffset(tileStart, sizeX, 0, y)
      invariant forall xx, yy | 0 <= xx < sizeX && 0 <= yy < y ::
        tiles[xx, yy] == ReadTile(data, TileOffset(tileStart, sizeX, xx, yy))
    {
      RowEndInArea(sizeX, sizeY, y);
      tp := FillRow(m, data, tileStart, y, tp);
      NextRow(tileStart, sizeX, y);
      y := y + 1;
    }
  }

  /** The inner loop of the tile reading: the cells of row y, left to right. */
  method FillRow(m: MapData, data: seq<bv8>, tileStart: nat, y: nat, rowStart: nat) returns (tp: nat)
    requires m.Valid() && y < m.sizeY
    requires rowStart == TileOffset(tileStart, m.sizeX, 0, y)
    requires TileOffset(tileStart, m.sizeX, m.sizeX, y) <= |data|
    modifies m.tiles
    ensures tp == TileOffset(tileStart, m.sizeX, m.sizeX, y)
    ensures forall xx | 0 <= xx < m.sizeX :: m.tiles[xx, y] == ReadTile(data, TileOffset(tileStart, m.sizeX, xx, y))
    ensures forall xx, yy | 0 <= xx < m.sizeX && 0 <= yy < m.sizeY && yy != y :: m.tiles[xx, yy] == old(m.tiles[xx, yy])
  {
    var tiles := m.tiles;
    tp := rowStart;
    var x := 0;
    while x < m.sizeX
      invariant 0 <= x <= m.sizeX
      invariant tp == TileOffset(tileStart, m.sizeX, x, y)
      invariant forall xx | 0 <= xx < x :: tiles[xx, y] == ReadTile(data, TileOffset(tileStart, m.sizeX, xx, y))
      invariant forall xx, yy | 0 <= xx < m.sizeX && 0 <= yy < m.sizeY && yy != y :: tiles[xx, yy] == old(tiles[xx, yy])
    {
      if m.InBounds(x, y) {
        tiles[x, y] := ReadTile(data, tp);
        tp := tp + TILE_RECORD_SIZE;
      }
      x := x + 1;
    }
  }

  /** The records of every row lie inside the tile area. */
  lemma RowEndInArea(sizeX: nat, sizeY: nat, y: nat)
    requires y < sizeY
    ensures y * sizeX + sizeX <= sizeX * sizeY
  {
    if y + 1 < sizeY {
      RowsAfter(y + 1, sizeY, sizeX);
    }
    assert (y + 1) * sizeX == y * sizeX + sizeX;
  }

  /** The record after the last cell of a row is the first cell of the next row. */
  lemma NextRow(tileStart: nat, sizeX: nat, y: nat)
    ensures TileOffset(tileStart, sizeX, sizeX, y) == TileOffset(tileStart, sizeX, 0, y + 1)
  {
    assert (y + 1) * sizeX == y * sizeX + sizeX;
  }

  /**
   * `LoadMTDFile`: checks the header, sums the tile bytes, compares the
   * checksum and fills the grid of a new map.
   */
  method LoadMtdFile(data: seq<bv8>) returns (r: Result<MapData, MtdError>)
    ensures r.Failure? ==> DecodeMtd(data) == Failure(r.error)
    ensures r.Success? ==> DecodeMtd(data).Success? && fresh(r.value) && fresh(r.value.tiles)
    ensures r.Success? ==>
      var h := DecodeMtd(data).value;
      var m := r.value;
      m.Valid() && m.sizeX == h.sizeX && m.sizeY == h.sizeY && m.tileSize == h.tileSize &&
      m.identifier == h.identifier && m.name == h.name &&
      forall x, y | 0 <= x < h.sizeX && 0 <= y < h.sizeY ::
        TileOffset(TileStart(h), h.sizeX, x, y) + TILE_RECORD_SIZE <= |data| &&
        m.tiles[x, y] == ReadTile(data, TileOffset(TileStart(h), h.sizeX, x, y))
  {
    var layout := CheckLayout(data);
    if layout.Failure? {
      DecodeOutcome(data);
      return Failure(layout.error);
    }
    r := LoadLaidOut(data, layout.value);
  }

  /** The part of `LoadMTDFile` after an accepted header: the checksum test, then the map. */
  method LoadLaidOut(data: seq<bv8>, h: MtdHeader) returns (r: Result<MapData, MtdError>)
    requires CheckLayout(data) == Success(h)
    ensures r.Failure? ==> DecodeMtd(data) == Failure(r.error)
    ensures r.Success? ==> DecodeMtd(data) == Success(h) && fresh(r.value) && fresh(r.value.tiles)
    ensures r.Success? ==>
      var m := r.value;
      m.Valid() && m.sizeX == h.sizeX && m.sizeY == h.sizeY && m.tileSize == h.tileSize &&
      m.identifier == h.identifier && m.name == h.name &&
      forall x, y | 0 <= x < h.sizeX && 0 <= y < h.sizeY ::
        TileOffset(TileStart(h), h.sizeX, x, y) + TILE_RECORD_SIZE <= |data| &&
        m.tiles[x, y] == ReadTile(data, TileOffset(TileStart(h), h.sizeX, x, y))
  {
    LayoutWellFormed(data);
    var computed := ComputeChecksum(data, TileStart(h), TileBytes(h.sizeX, h.sizeY));
    ChecksumDecides(data, h, computed);
    if computed != h.crc {
      return Failure(CrcMismatch);
    }
    var m := BuildMap(data, h);
    r := Success(m);
  }

  /** How `DecodeMtd` decides once the layout is accepted. */
  lemma DecodeOutcome(data: seq<bv8>)
    ensures CheckLayout(data).Failure? ==> DecodeMtd(data) == Failure(CheckLayout(data).error)
    ensures CheckLayout(data).Success? ==>
      var h := CheckLayout(data).value;
      WellFormed(data, h) &&
      (Checksum(TileArea(data, h), |data|) != h.crc ==> DecodeMtd(data) == Failure(CrcMismatch)) &&
      (Checksum(TileArea(data, h), |data|) == h.crc ==> DecodeMtd(data) == Success(h))
  {
    if CheckLayout(data).Success? {
      LayoutWellFormed(data);
    }
  }

  /** The checksum computed over the tile records decides between rejection and acceptance. */
  lemma ChecksumDecides(data: seq<bv8>, h: MtdHeader, computed: nat)
    requires CheckLayout(data) == Success(h)
    requires WellFormed(data, h)
    requires computed == Checksum(data[TileStart(h)..TileStart(h) + TileBytes(h.sizeX, h.sizeY)], |data|)
    ensures computed != h.crc ==> DecodeMtd(data) == Failure(CrcMismatch)
    ensures computed == h.crc ==> DecodeMtd(data) == Success(h)
  {
    assert TileArea(data, h) == data[TileStart(h)..TileStart(h) + TileBytes(h.sizeX, h.sizeY)];
  }

  /** The map `LoadMTDFile` builds from an accepted header: its fields, then its grid filled from the tile records. */
  method BuildMap(data: seq<bv8>, h: MtdHeader) returns (m: MapData)
    requires WellFormed(data, h)
    ensures fresh(m) && fresh(m.tiles)
    ensures m.Valid() && m.sizeX == h.sizeX && m.sizeY == h.sizeY && m.tileSize == h.tileSize
    ensures m.identifier == h.identifier && m.name == h.name
    ensures forall x, y | 0 <= x < h.sizeX && 0 <= y < h.sizeY ::
      TileOffset(TileStart(h), h.sizeX, x, y) + TILE_RECORD_SIZE <= |data| &&
      m.tiles[x, y] == ReadTile(data, TileOffset(TileStart(h), h.sizeX, x, y))
  {
    m := new MapData(h.sizeX, h.sizeY, h.tileSize, h.identifier, h.name);
    FillTiles(m, data, TileStart(h));
  }

  // ---------------------------------------------------------------------
  // Properties
  // ---------------------------------------------------------------------

  /** Files shorter than 15 bytes, or without the "<MTD>" magic, are rejected. */
  lemma RejectsShortOrUnsigned(data: seq<bv8>)
    ensures |data| < MIN_FILE_SIZE ==> DecodeMtd(data) == Failure(InvalidFile)
    ensures |data| >= MIN_FILE_SIZE && data[..5] != Magic ==> DecodeMtd(data) == Failure(InvalidHeader)
  {
  }

  /**
   * An accepted file has positive dimensions, room for its tag, its 10-byte
   * tile records and the 8 trailing bytes, the "<TILES>" tag, and a stored
   * checksum equal to the one computed over its tile records.
   */
  lemma AcceptedFileShape(data: seq<bv8>)
    requires DecodeMtd(data).Success?
    ensures var h := DecodeMtd(data).value;
      WellFormed(data, h) && h.crc == Checksum(TileArea(data, h), |data|)
  {
    LayoutWellFormed(data);
  }

  /** A file whose stored checksum differs from the computed one is rejected. */
  lemma RejectsBadChecksum(data: seq<bv8>)
    requires CheckLayout(data).Success?
    ensures var h := CheckLayout(data).value;
      Checksum(TileArea(data, h), |data|) != h.crc <==> DecodeMtd(data) == Failure(CrcMismatch)
  {
    LayoutWellFormed(data);
  }
}
