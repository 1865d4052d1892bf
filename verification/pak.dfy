/**
 * The PAK sprite archive of PAKLib (Sources/Dependencies/Includes/PAK.h):
 * the key-rotated XOR cipher with bit rotation, and the `loadpak` reader
 * taken over the bytes of the file instead of an input stream.
 *
 * Bytes are `bv8`; a key is the bytes of the key string. All multi-byte
 * fields of the format are little-endian.
 */
module Pak {
  import opened Wrappers
  import opened Bytes

  // ---------------------------------------------------------------------
  // Layout constants (PAK.h:14-44, packed structs)
  // ---------------------------------------------------------------------

  /** `file_header`: a 17-byte signature and 3 bytes of padding. */
  const FILE_HEADER_SIZE: nat := 20
  /** `sprite_header`: a 20-byte signature and 80 bytes of padding. */
  const SPRITE_HEADER_SIZE: nat := 100
  /** `sprite_entry`: offset and size, two `uint32_t`. */
  const SPRITE_ENTRY_SIZE: nat := 8
  /** `sprite_rect`: four `uint16_t` and two `int16_t`. */
  const SPRITE_RECT_SIZE: nat := 12
  const RECT_COUNT_SIZE: nat := 4
  const PADDING_SIZE: nat := 4
  const MAX_SPRITES: nat := 1500
  const MAX_RECTS: nat := 1000
  const U32_LIMIT: nat := 0x1_0000_0000

  const FileSignature: seq<bv8> := Ascii("<Pak file header>")
  const SpriteSignature: seq<bv8> := Ascii("<Sprite File Header>")

  // ---------------------------------------------------------------------
  // Bit rotation (PAK.h:329-335)
  // ---------------------------------------------------------------------

  /** `rotl8`; the cipher calls it only with a shift of 1 to 7. */
  function RotL8(v: bv8, s: bv8): bv8
    requires 1 <= s <= 7
  {
    (v << s) | (v >> (8 - s))
  }

  /** `rotr8`; the cipher calls it only with a shift of 1 to 7. */
  function RotR8(v: bv8, s: bv8): bv8
    requires 1 <= s <= 7
  {
    (v >> s) | (v << (8 - s))
  }

  /** Rotating right undoes rotating left by the same amount. */
  lemma RotateLeftRoundTrip(v: bv8, s: bv8)
    requires 1 <= s <= 7
    ensures RotR8(RotL8(v, s), s) == v
  {
  }

  /** Rotating left undoes rotating right by the same amount. */
  lemma RotateRightRoundTrip(v: bv8, s: bv8)
    requires 1 <= s <= 7
    ensures RotL8(RotR8(v, s), s) == v
  {
  }

  // ---------------------------------------------------------------------
  // The cipher (PAK.h:337-373)
  // ---------------------------------------------------------------------

  /** The rotation a key byte selects: its value modulo 8. */
  function Rotation(k: bv8): (r: bv8)
    ensures r < 8
  {
    k % 8
  }

  /** The key byte that transforms the byte at absolute position `globalIndex`. */
  function KeyByte(key: seq<bv8>, globalIndex: nat): bv8
    requires |key| > 0
  {
    key[globalIndex % |key|]
  }

  /** One byte of `encrypt_bytes`: XOR with the key byte, then rotate left. */
  function EncryptByte(b: bv8, k: bv8): bv8
  {
    var x := b ^ k;
    if Rotation(k) != 0 then RotL8(x, Rotation(k)) else x
  }

  /** One byte of `decrypt_bytes`: rotate right, then XOR with the key byte. */
  function DecryptByte(b: bv8, k: bv8): bv8
  {
    var x := if Rotation(k) != 0 then RotR8(b, Rotation(k)) else b;
    x ^ k
  }

  /** Decrypting a byte undoes encrypting it with the same key byte. */
  lemma DecryptEncryptByte(b: bv8, k: bv8)
    ensures DecryptByte(EncryptByte(b, k), k) == b
  {
    var rot := Rotation(k);
    if rot != 0 {
      RotateLeftRoundTrip(b ^ k, rot);
    }
  }

  /** Encrypting a byte undoes decrypting it with the same key byte. */
  lemma EncryptDecryptByte(b: bv8, k: bv8)
    ensures EncryptByte(DecryptByte(b, k), k) == b
  {
    var rot := Rotation(k);
    if rot != 0 {
      RotateRightRoundTrip(b, rot);
    }
  }

  /** What `encrypt_bytes(data, key, startOffset)` leaves in the buffer. */
  function Encrypted(data: seq<bv8>, key: seq<bv8>, startOffset: nat): seq<bv8>
    requires |key| > 0
  {
    seq(|data|, i requires 0 <= i < |data| => EncryptByte(data[i], KeyByte(key, startOffset + i)))
  }

  /** What `decrypt_bytes(data, key, startOffset)` leaves in the buffer. */
  function Decrypted(data: seq<bv8>, key: seq<bv8>, startOffset: nat): seq<bv8>
    requires |key| > 0
  {
    seq(|data|, i requires 0 <= i < |data| => DecryptByte(data[i], KeyByte(key, startOffset + i)))
  }

  /** Decrypting with the same key and offset returns the original bytes, and back. */
  lemma CipherRoundTrip(data: seq<bv8>, key: seq<bv8>, startOffset: nat)
    requires |key| > 0
    ensures Decrypted(Encrypted(data, key, startOffset), key, startOffset) == data
    ensures Encrypted(Decrypted(data, key, startOffset), key, startOffset) == data
  {
    var e := Encrypted(data, key, startOffset);
    var d := Decrypted(data, key, startOffset);
    forall i | 0 <= i < |data|
      ensures Decrypted(e, key, startOffset)[i] == data[i]
      ensures Encrypted(d, key, startOffset)[i] == data[i]
    {
      DecryptEncryptByte(data[i], KeyByte(key, startOffset + i));
      EncryptDecryptByte(data[i], KeyByte(key, startOffset + i));
    }
  }

  /**
   * Byte i depends only on the key byte at absolute position startOffset + i,
   * so decrypting a section read at its own file offset gives the same bytes
   * as slicing the decryption of the whole buffer (`read_and_decrypt_section`).
   */
  lemma DecryptSection(data: seq<bv8>, key: seq<bv8>, startOffset: nat, lo: nat, hi: nat)
    requires |key| > 0
    requires lo <= hi <= |data|
    ensures Decrypted(data, key, startOffset)[lo..hi] == Decrypted(data[lo..hi], key, startOffset + lo)
  {
    var whole := Decrypted(data, key, startOffset);
    var part := Decrypted(data[lo..hi], key, startOffset + lo);
    assert |whole[lo..hi]| == |part|;
    forall j | 0 <= j < hi - lo
      ensures whole[lo..hi][j] == part[j]
    {
      assert whole[lo..hi][j] == whole[lo + j];
      assert startOffset + lo + j == startOffset + (lo + j);
    }
  }

  /** Decrypting two adjacent pieces separately equals decrypting them together. */
  lemma DecryptConcat(a: seq<bv8>, b: seq<bv8>, key: seq<bv8>, startOffset: nat)
    requires |key| > 0
    ensures Decrypted(a + b, key, startOffset)
         == Decrypted(a, key, startOffset) + Decrypted(b, key, startOffset + |a|)
  {
    var whole := Decrypted(a + b, key, startOffset);
    var left := Decrypted(a, key, startOffset);
    var right := Decrypted(b, key, startOffset + |a|);
    forall i | 0 <= i < |whole|
      ensures whole[i] == (left + right)[i]
    {
      if i < |a| {
        assert (a + b)[i] == a[i];
      } else {
        assert (a + b)[i] == b[i - |a|];
        assert startOffset + i == startOffset + |a| + (i - |a|);
      }
    }
  }

  /** The argument error both cipher routines raise for an empty key. */
  datatype CipherError = EmptyKey

  /** `decrypt_bytes`: decrypts the buffer in place. */
  method DecryptBytes(data: array<bv8>, key: seq<bv8>, startOffset: nat) returns (r: Outcome<CipherError>)
    modifies data
    ensures r.Fail? <==> |key| == 0
    ensures |key| == 0 ==> data[..] == old(data[..])
    ensures |key| > 0 ==> data[..] == Decrypted(old(data[..]), key, startOffset)
  {
    if |key| == 0 {
      return Fail(EmptyKey);
    }
    if data.Length == 0 {
      return Pass;
    }
    var i := 0;
    while i < data.Length
      invariant 0 <= i <= data.Length
      invariant forall j | 0 <= j < i :: data[j] == DecryptByte(old(data[j]), KeyByte(key, startOffset + j))
      invariant forall j | i <= j < data.Length :: data[j] == old(data[j])
    {
      var keyByte := key[(startOffset + i) % |key|];
      var b := data[i];
      var rot := keyByte % 8;
      if rot != 0 {
        b := RotR8(b, rot);
      }
      data[i] := b ^ keyByte;
      i := i + 1;
    }
    r := Pass;
  }

  /** `encrypt_bytes`: encrypts the buffer in place. */
  method EncryptBytes(data: array<bv8>, key: seq<bv8>, startOffset: nat) returns (r: Outcome<CipherError>)
    modifies data
    ensures r.Fail? <==> |key| == 0
    ensures |key| == 0 ==> data[..] == old(data[..])
    ensures |key| > 0 ==> data[..] == Encrypted(old(data[..]), key, startOffset)
  {
    if |key| == 0 {
      return Fail(EmptyKey);
    }
    if data.Length == 0 {
      return Pass;
    }
    var i := 0;
    while i < data.Length
      invariant 0 <= i <= data.Length
      invariant forall j | 0 <= j < i :: data[j] == EncryptByte(old(data[j]), KeyByte(key, startOffset + j))
      invariant forall j | i <= j < data.Length :: data[j] == old(data[j])
    {
      var keyByte := key[(startOffset + i) % |key|];
      var b := data[i] ^ keyByte;
      var rot := keyByte % 8;
      if rot != 0 {
        b := RotL8(b, rot);
      }
      assert b == EncryptByte(data[i], KeyByte(key, startOffset + i));
      data[i] := b;
      i := i + 1;
    }
    r := Pass;
  }

  // ---------------------------------------------------------------------
  // Field decoding
  // ---------------------------------------------------------------------

  /** Byte `k` of a little-endian field at `pos`, or 0 past the end of the data. */
  function ByteOrZero(data: seq<bv8>, pos: nat, k: nat): nat
  {
    if pos + k < |data| then data[pos + k] as nat else 0
  }

  /**
   * A `uint32_t` read at `pos`. When fewer than four bytes remain, the
   * stream fills only the low bytes it could read and the rest keep their
   * initial zero, as `file.read` into a zero-initialised integer does.
   */
  function U32Partial(data: seq<bv8>, pos: nat): (v: nat)
    ensures v < U32_LIMIT
  {
    ByteOrZero(data, pos, 0) + 0x100 * ByteOrZero(data, pos, 1)
      + 0x1_0000 * ByteOrZero(data, pos, 2) + 0x100_0000 * ByteOrZero(data, pos, 3)
  }

  datatype SpriteRect = SpriteRect(x: nat, y: nat, width: nat, height: nat, pivotX: int, pivotY: int)
  datatype SpriteEntry = SpriteEntry(offset: nat, size: nat)
  datatype Sprite = Sprite(rects: seq<SpriteRect>, imageData: seq<bv8>)
  datatype PakArchive = PakArchive(spriteCount: nat, entries: seq<SpriteEntry>, sprites: seq<Sprite>)

  /** The `runtime_error`s `loadpak` throws, one per check. */
  datatype PakError =
    | InvalidFileHeader      // PAK.h:74-76
    | NoSprites              // PAK.h:80-82
    | TooManySprites         // PAK.h:83-85
    | EntriesTruncated       // PAK.h:90-92
    | OffsetMismatch         // PAK.h:105-107
    | InvalidSpriteHeader    // PAK.h:113-115
    | BadRectCount           // PAK.h:120-122
    | RectsTruncated         // PAK.h:127-129
    | ImageTruncated         // PAK.h:145-147

  function RectAt(data: seq<bv8>, pos: nat): SpriteRect
    requires pos + SPRITE_RECT_SIZE <= |data|
  {
    SpriteRect(U16At(data, pos), U16At(data, pos + 2), U16At(data, pos + 4), U16At(data, pos + 6),
               I16At(data, pos + 8), I16At(data, pos + 10))
  }

  function RectsAt(data: seq<bv8>, pos: nat, count: nat): (r: seq<SpriteRect>)
    requires pos + SPRITE_RECT_SIZE * count <= |data|
    ensures |r| == count
  {
    seq(count, k requires 0 <= k < count => RectAt(data, pos + SPRITE_RECT_SIZE * k))
  }

  function EntriesAt(data: seq<bv8>, pos: nat, count: nat): (r: seq<SpriteEntry>)
    requires pos + SPRITE_ENTRY_SIZE * count <= |data|
    ensures |r| == count
    ensures forall k | 0 <= k < count :: r[k].size < U32_LIMIT && r[k].offset < U32_LIMIT
  {
    seq(count, k requires 0 <= k < count =>
      SpriteEntry(U32Partial(data, pos + SPRITE_ENTRY_SIZE * k), U32Partial(data, pos + SPRITE_ENTRY_SIZE * k + 4)))
  }

  // ---------------------------------------------------------------------
  // Image size arithmetic (PAK.h:138-142 and PAK.h:194-195)
  // ---------------------------------------------------------------------

  /** Bytes of a sprite that precede its image: header, rect count, rects, padding. */
  function Overhead(rectCount: nat): nat
  {
    SPRITE_HEADER_SIZE + SPRITE_RECT_SIZE * rectCount + RECT_COUNT_SIZE + PADDING_SIZE
  }

  /**
   * The image length as `loadpak` computes it: `size` is a `uint32_t`, so the
   * subtraction is done in unsigned 32-bit arithmetic and wraps around.
   */
  function LoadPakImageSize(entrySize: nat, rectCount: nat): nat
  {
    (entrySize - (SPRITE_HEADER_SIZE + (rectCount * SPRITE_RECT_SIZE + RECT_COUNT_SIZE)) - PADDING_SIZE) % U32_LIMIT
  }

  /**
   * The image length as `loadpak_fast` and the other readers compute it:
   * `size_t` arithmetic (64 bits, wrapping) stored into a signed `long`.
   */
  function FastImageSize(entrySize: nat, rectCount: nat): int
  {
    var u := (entrySize - (SPRITE_HEADER_SIZE + (rectCount * SPRITE_RECT_SIZE) + RECT_COUNT_SIZE + PADDING_SIZE))
             % 0x1_0000_0000_0000_0000;
    if u >= 0x8000_0000_0000_0000 then u - 0x1_0000_0000_0000_0000 else u
  }

  /**
   * Both formulas give entry.size - (100 + 12 * rectCount + 4 + 4) whenever the
   * entry is large enough to hold its header and rects; when it is not, the
   * first wraps to a length of at least 2^32 - overhead and the second is negative.
   */
  lemma ImageSizeFormulasAgree(entrySize: nat, rectCount: nat)
    requires entrySize < U32_LIMIT && rectCount <= MAX_RECTS
    ensures entrySize >= Overhead(rectCount) ==>
      LoadPakImageSize(entrySize, rectCount) == FastImageSize(entrySize, rectCount) == entrySize - Overhead(rectCount)
    ensures entrySize < Overhead(rectCount) ==>
      FastImageSize(entrySize, rectCount) == entrySize - Overhead(rectCount) < 0 &&
      LoadPakImageSize(entrySize, rectCount) == U32_LIMIT + entrySize - Overhead(rectCount)
  {
  }

  // ---------------------------------------------------------------------
  // loadpak over the bytes of the file (PAK.h:65-152)
  // ---------------------------------------------------------------------

  /**
   * Reads the sprite whose entry is `entry`, with the stream at `pos` and in
   * a good state. On success, returns the sprite and the stream position after it.
   */
  function ReadSprite(data: seq<bv8>, entry: SpriteEntry, pos: nat): Result<(Sprite, nat), PakError>
  {
    if pos != entry.offset then Failure(OffsetMismatch)
    else if pos + 20 > |data| || data[pos..pos + 20] != SpriteSignature then Failure(InvalidSpriteHeader)
    else
      // A header cut short leaves the stream failed, so the count is never read and stays 0.
      var rectCount := if pos + SPRITE_HEADER_SIZE > |data| then 0 else U32Partial(data, pos + SPRITE_HEADER_SIZE);
      var rectsAt := pos + SPRITE_HEADER_SIZE + RECT_COUNT_SIZE;
      if rectCount == 0 || rectCount > MAX_RECTS then Failure(BadRectCount)
      else if rectsAt + SPRITE_RECT_SIZE * rectCount > |data| then Failure(RectsTruncated)
      else
        var imageAt := rectsAt + SPRITE_RECT_SIZE * rectCount + PADDING_SIZE;
        var n := LoadPakImageSize(entry.size, rectCount);
        if n > 0 && imageAt + n > |data| then Failure(ImageTruncated)
        else
          var image := if n == 0 then [] else data[imageAt..imageAt + n];
          Success((Sprite(RectsAt(data, rectsAt, rectCount), image), imageAt + n))
  }

  /** Reads the sprites of `entries[i..]` one after another, starting at `pos`. */
  function ReadSprites(data: seq<bv8>, entries: seq<SpriteEntry>, i: nat, pos: nat): Result<seq<Sprite>, PakError>
    requires i <= |entries|
    decreases |entries| - i
  {
    if i == |entries| then Success([])
    else
      match ReadSprite(data, entries[i], pos)
      case Failure(e) => Failure(e)
      case Success(sp) =>
        Prepend([sp.0], ReadSprites(data, entries, i + 1, sp.1))
  }

  function Prepend(prefix: seq<Sprite>, r: Result<seq<Sprite>, PakError>): Result<seq<Sprite>, PakError>
  {
    match r
    case Success(rest) => Success(prefix + rest)
    case Failure(e) => Failure(e)
  }

  lemma PrependNothing(r: Result<seq<Sprite>, PakError>)
    ensures Prepend([], r) == r
  {
    if r.Success? {
      assert [] + r.value == r.value;
    }
  }

  /** One step of `ReadSprites`: the sprite at `pos`, then the rest after it. */
  lemma ReadSpritesStep(data: seq<bv8>, entries: seq<SpriteEntry>, i: nat, pos: nat, prefix: seq<Sprite>)
    requires i < |entries|
    ensures ReadSprite(data, entries[i], pos).Failure? ==>
      Prepend(prefix, ReadSprites(data, entries, i, pos)) == Failure(ReadSprite(data, entries[i], pos).error)
    ensures ReadSprite(data, entries[i], pos).Success? ==>
      var sp := ReadSprite(data, entries[i], pos).value;
      Prepend(prefix, ReadSprites(data, entries, i, pos)) == Prepend(prefix + [sp.0], ReadSprites(data, entries, i + 1, sp.1))
  {
    if ReadSprite(data, entries[i], pos).Success? {
      var sp := ReadSprite(data, entries[i], pos).value;
      match ReadSprites(data, entries, i + 1, sp.1)
      case Success(rest) =>
        assert prefix + ([sp.0] + rest) == (prefix + [sp.0]) + rest;
      case Failure(e) =>
    }
  }

  /** Where the first sprite must start: after the file header, the count and the entry table. */
  function FirstSpriteOffset(count: nat): nat
  {
    FILE_HEADER_SIZE + 4 + SPRITE_ENTRY_SIZE * count
  }

  /** The sprite count field; a header cut short leaves the stream failed and the count 0. */
  function SpriteCountField(data: seq<bv8>): nat
  {
    if |data| < FILE_HEADER_SIZE then 0 else U32Partial(data, FILE_HEADER_SIZE)
  }

  /** What `loadpak` returns or throws for a file holding `data`. */
  function DecodePak(data: seq<bv8>): Result<PakArchive, PakError>
  {
    if |data| < 17 || data[..17] != FileSignature then Failure(InvalidFileHeader)
    else
      var count := SpriteCountField(data);
      if count == 0 then Failure(NoSprites)
      else if count > MAX_SPRITES then Failure(TooManySprites)
      else if FirstSpriteOffset(count) > |data| then Failure(EntriesTruncated)
      else
        var entries := EntriesAt(data, FILE_HEADER_SIZE + 4, count);
        match ReadSprites(data, entries, 0, FirstSpriteOffset(count))
        case Failure(e) => Failure(e)
        case Success(sprites) => Success(PakArchive(count, entries, sprites))
  }

  /** `loadpak`: reads the header, the entry table and then every sprite in turn. */
  method LoadPak(data: seq<bv8>) returns (r: Result<PakArchive, PakError>)
    ensures r == DecodePak(data)
  {
    if |data| < 17 || data[..17] != FileSignature {
      return Failure(InvalidFileHeader);
    }
    var count := SpriteCountField(data);
    if count == 0 {
      return Failure(NoSprites);
    }
    if count > MAX_SPRITES {
      return Failure(TooManySprites);
    }
    if FirstSpriteOffset(count) > |data| {
      return Failure(EntriesTruncated);
    }
    var entries := EntriesAt(data, FILE_HEADER_SIZE + 4, count);
    var sprites: seq<Sprite> := [];
    var pos := FirstSpriteOffset(count);
    var i := 0;
    PrependNothing(ReadSprites(data, entries, 0, pos));
    while i < count
      invariant 0 <= i <= count == |entries|
      invariant ReadSprites(data, entries, 0, FirstSpriteOffset(count)) == Prepend(sprites, ReadSprites(data, entries, i, pos))
    {
      var next := ReadSprite(data, entries[i], pos);
      ReadSpritesStep(data, entries, i, pos, sprites);
      if next.Failure? {
        return Failure(next.error);
      }
      var (sprite, after) := next.value;
      assert Prepend(sprites, ReadSprites(data, entries, i, pos)) == Prepend(sprites + [sprite], ReadSprites(data, entries, i + 1, after));
      sprites := sprites + [sprite];
      pos := after;
      i := i + 1;
    }
    assert sprites + [] == sprites;
    r := Success(PakArchive(count, entries, sprites));
  }

  // ---------------------------------------------------------------------
  // What a successful load guarantees
  // ---------------------------------------------------------------------

  /** A sprite read successfully has 1 to 1000 rects and the image length of the formula. */
  lemma ReadSpriteShape(data: seq<bv8>, entry: SpriteEntry, pos: nat)
    requires ReadSprite(data, entry, pos).Success?
    ensures var (s, next) := ReadSprite(data, entry, pos).value;
      1 <= |s.rects| <= MAX_RECTS &&
      |s.imageData| == LoadPakImageSize(entry.size, |s.rects|) &&
      next == entry.offset + SPRITE_HEADER_SIZE + RECT_COUNT_SIZE + SPRITE_RECT_SIZE * |s.rects| + PADDING_SIZE + |s.imageData|
  {
  }

  /**
   * Every sprite of a successful `ReadSprites` has 1 to 1000 rects, there is
   * one sprite per entry, and each entry starts where the previous one ended.
   */
  lemma {:induction false} ReadSpritesShape(data: seq<bv8>, entries: seq<SpriteEntry>, i: nat, pos: nat)
    requires i <= |entries|
    requires ReadSprites(data, entries, i, pos).Success?
    ensures |ReadSprites(data, entries, i, pos).value| == |entries| - i
    ensures forall k | 0 <= k < |entries| - i ::
      1 <= |ReadSprites(data, entries, i, pos).value[k].rects| <= MAX_RECTS
    ensures i < |entries| ==> entries[i].offset == pos
    decreases |entries| - i
  {
    if i < |entries| {
      var sp := ReadSprite(data, entries[i], pos).value;
      ReadSpriteShape(data, entries[i], pos);
      ReadSpritesShape(data, entries, i + 1, sp.1);
    }
  }

  /**
   * A loaded archive has between 1 and 1500 sprites, one per entry, each with
   * 1 to 1000 rects, and the first sprite starts right after the entry table.
   */
  lemma DecodePakShape(data: seq<bv8>)
    requires DecodePak(data).Success?
    ensures var p := DecodePak(data).value;
      1 <= p.spriteCount <= MAX_SPRITES &&
      |p.entries| == |p.sprites| == p.spriteCount &&
      p.entries[0].offset == FirstSpriteOffset(p.spriteCount) &&
      forall k | 0 <= k < |p.sprites| :: 1 <= |p.sprites[k].rects| <= MAX_RECTS
  {
    var count := SpriteCountField(data);
    var entries := EntriesAt(data, FILE_HEADER_SIZE + 4, count);
    ReadSpritesShape(data, entries, 0, FirstSpriteOffset(count));
  }

  /** A signed file whose count field is 0 or above 1500 is rejected with that error. */
  lemma SpriteCountChecks(data: seq<bv8>)
    requires |data| >= 17 && data[..17] == FileSignature
    ensures SpriteCountField(data) == 0 ==> DecodePak(data) == Failure(NoSprites)
    ensures SpriteCountField(data) > MAX_SPRITES ==> DecodePak(data) == Failure(TooManySprites)
  {
  }

  /** A sprite whose rect count is 0 or above 1000 is rejected. */
  lemma RectCountChecks(data: seq<bv8>, entry: SpriteEntry, pos: nat)
    requires pos == entry.offset && pos + SPRITE_HEADER_SIZE + RECT_COUNT_SIZE <= |data|
    requires data[pos..pos + 20] == SpriteSignature
    requires var c := U32Partial(data, pos + SPRITE_HEADER_SIZE); c == 0 || c > MAX_RECTS
    ensures ReadSprite(data, entry, pos) == Failure(BadRectCount)
  {
  }
}
