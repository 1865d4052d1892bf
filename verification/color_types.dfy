/**
 * The packed colour types (Sources/Dependencies/Includes/color_types.h):
 * `RGB` and `RGBA` store a colour three ways at once, as an 8-bit RGB332
 * value, a 16-bit RGB565 value and a 32-bit value with red in the lowest
 * byte, and convert to raylib's `Color` and to a Windows `COLORREF`.
 *
 * The desktop and browser builds define the same formulas (color_types.h:9-95
 * and 97-176); one model covers both.
 */
module ColorTypes {

  /** raylib's `Color`: four 8-bit channels. */
  datatype Color = Color(r: bv8, g: bv8, b: bv8, a: bv8)

  /** The RGB332 byte both constructors compute (color_types.h:12, 37). */
  function Pack8(r: bv8, g: bv8, b: bv8): (v: bv8)
    ensures v >> 5 == r >> 5
    ensures (v >> 2) & 0x7 == g >> 5
    ensures v & 0x3 == b >> 6
  {
    (r & 0xE0) | ((g >> 3) & 0x1C) | (b >> 6)
  }

  /** The RGB565 half-word both constructors compute (color_types.h:13, 38). */
  function Pack16(r: bv8, g: bv8, b: bv8): (v: bv16)
    ensures v >> 11 == (r >> 3) as bv16
    ensures (v >> 5) & 0x3F == (g >> 2) as bv16
    ensures v & 0x1F == (b >> 3) as bv16
  {
    (((r >> 3) as bv16) << 11) | (((g >> 2) as bv16) << 5) | ((b >> 3) as bv16)
  }

  /** The byte of a 32-bit value at bit offset `shift`. */
  function ByteAt(v: bv32, shift: bv8): bv8
    requires shift <= 24
  {
    ((v >> shift) & 0xFF) as bv8
  }

  /** `RGB`: the three packings of one colour. */
  datatype RGB = RGB(rgb8: bv8, rgb16: bv16, rgb32: bv32)

  /** The `RGB(r, g, b)` constructor (color_types.h:11-15). */
  function MakeRGB(r: bv8, g: bv8, b: bv8): (c: RGB)
    ensures c.rgb8 == Pack8(r, g, b) && c.rgb16 == Pack16(r, g, b)
    ensures ByteAt(c.rgb32, 0) == r && ByteAt(c.rgb32, 8) == g && ByteAt(c.rgb32, 16) == b
    ensures ByteAt(c.rgb32, 24) == 0
  {
    RGB(Pack8(r, g, b), Pack16(r, g, b), (r as bv32) | ((g as bv16 as bv32) << 8) | ((b as bv32) << 16))
  }

  /** `RGB::operator Color` (color_types.h:20-22): the three channels back, fully opaque. */
  function RGBToColor(c: RGB): (col: Color)
    ensures col.a == 255
  {
    Color(ByteAt(c.rgb32, 0), ByteAt(c.rgb32, 8), ByteAt(c.rgb32, 16), 255)
  }

  /** Converting a constructed `RGB` to `Color` gives back its channels, with alpha 255. */
  lemma RGBColorRoundTrip(r: bv8, g: bv8, b: bv8)
    ensures RGBToColor(MakeRGB(r, g, b)) == Color(r, g, b, 255)
  {
  }

  /** `RGB::operator COLORREF` (color_types.h:23-27): the 32-bit value itself. */
  function RGBToColorRef(c: RGB): bv32
  {
    c.rgb32
  }

  /** `RGBA`: the three packings of one colour; only the 32-bit one holds alpha. */
  datatype RGBA = RGBA(rgba8: bv8, rgba16: bv16, rgba32: bv32)

  /** The `RGBA(r, g, b, a)` constructor (color_types.h:36-40). */
  function MakeRGBA(r: bv8, g: bv8, b: bv8, a: bv8): (c: RGBA)
    ensures c.rgba8 == Pack8(r, g, b) && c.rgba16 == Pack16(r, g, b)
    ensures GetR(c) == r && GetG(c) == g && GetB(c) == b && GetA(c) == a
  {
    RGBA(Pack8(r, g, b), Pack16(r, g, b), (r as bv32) | ((g as bv32) << 8) | ((b as bv32) << 16) | ((a as bv32) << 24))
  }

  /** `GetR` (color_types.h:42). */
  function GetR(c: RGBA): bv8
  {
    ByteAt(c.rgba32, 0)
  }

  /** `GetG` (color_types.h:43). */
  function GetG(c: RGBA): bv8
  {
    ByteAt(c.rgba32, 8)
  }

  /** `GetB` (color_types.h:44). */
  function GetB(c: RGBA): bv8
  {
    ByteAt(c.rgba32, 16)
  }

  /** `GetA` (color_types.h:45). */
  function GetA(c: RGBA): bv8
  {
    ByteAt(c.rgba32, 24)
  }

  /** `RGBA::operator Color` (color_types.h:51-58): nothing of the 32-bit packing is lost. */
  function RGBAToColor(c: RGBA): (col: Color)
    ensures MakeRGBA(col.r, col.g, col.b, col.a).rgba32 == c.rgba32
  {
    Color(GetR(c), GetG(c), GetB(c), GetA(c))
  }

  /** `RGBA::operator COLORREF` (color_types.h:60-64): the 32-bit value without its alpha byte. */
  function RGBAToColorRef(c: RGBA): (v: bv32)
    ensures ByteAt(v, 24) == 0
  {
    c.rgba32 & 0x00FF_FFFF
  }

  /** A constructed `RGBA` converts to the `Color` of its arguments, and is decided by them. */
  lemma RGBAColorRoundTrip(r: bv8, g: bv8, b: bv8, a: bv8)
    ensures RGBAToColor(MakeRGBA(r, g, b, a)) == Color(r, g, b, a)
  {
  }

  /** Two constructed `RGBA` values are equal exactly when their arguments are. */
  lemma RGBAInjective(r1: bv8, g1: bv8, b1: bv8, a1: bv8, r2: bv8, g2: bv8, b2: bv8, a2: bv8)
    ensures MakeRGBA(r1, g1, b1, a1) == MakeRGBA(r2, g2, b2, a2) <==> r1 == r2 && g1 == g2 && b1 == b2 && a1 == a2
  {
    if MakeRGBA(r1, g1, b1, a1) == MakeRGBA(r2, g2, b2, a2) {
      assert GetR(MakeRGBA(r1, g1, b1, a1)) == GetR(MakeRGBA(r2, g2, b2, a2));
      assert GetG(MakeRGBA(r1, g1, b1, a1)) == GetG(MakeRGBA(r2, g2, b2, a2));
      assert GetB(MakeRGBA(r1, g1, b1, a1)) == GetB(MakeRGBA(r2, g2, b2, a2));
      assert GetA(MakeRGBA(r1, g1, b1, a1)) == GetA(MakeRGBA(r2, g2, b2, a2));
    }
  }

  /** `RGBA` and `RGB` of the same channels have the same RGB332 and RGB565 packings. */
  lemma RGBAPackingsAgree(r: bv8, g: bv8, b: bv8, a: bv8)
    ensures MakeRGBA(r, g, b, a).rgba8 == MakeRGB(r, g, b).rgb8
    ensures MakeRGBA(r, g, b, a).rgba16 == MakeRGB(r, g, b).rgb16
  {
  }

  /** `RGBA` and `RGB` of the same channels give the same `COLORREF`: the alpha byte is dropped. */
  lemma RGBAColorRefAgrees(r: bv8, g: bv8, b: bv8, a: bv8)
    ensures RGBAToColorRef(MakeRGBA(r, g, b, a)) == RGBToColorRef(MakeRGB(r, g, b))
  {
    var low: bv32 := (r as bv32) | ((g as bv32) << 8) | ((b as bv32) << 16);
    LowWord(r, g, b);
    DropAlpha(low, a);
  }

  /** The 32-bit RGB value, with green widened through 16 bits as `RGB` does, fits in 24 bits. */
  lemma LowWord(r: bv8, g: bv8, b: bv8)
    ensures MakeRGB(r, g, b).rgb32 == (r as bv32) | ((g as bv32) << 8) | ((b as bv32) << 16)
    ensures ((r as bv32) | ((g as bv32) << 8) | ((b as bv32) << 16)) >> 24 == 0
  {
    assert (g as bv16 as bv32) == (g as bv32);
  }

  /** Masking off the top byte of a value below 2^24 with a byte OR-ed into the top gives the value back. */
  lemma DropAlpha(low: bv32, a: bv8)
    requires low >> 24 == 0
    ensures (low | ((a as bv32) << 24)) & 0x00FF_FFFF == low
  {
  }
}
