/** Decoding of mouse pointer shapes into four-byte pixels, 0xAABBGGRR. */
module CursorShapes {
  import opened DesktopFrames

  datatype PointerType = COLOR | MASKED_COLOR | MONOCHROME | UNKNOWN_TYPE

  datatype PointerInfo = PointerInfo(kind: PointerType, width: nat, height: nat, pitch: nat)

  // ---------- one pixel ----------

  /** Exchanges the first and the third byte. */
  function Swizzle(val: bv32): bv32 {
    ((val & 0x00FF_00FF) << 16) | ((val & 0x00FF_00FF) >> 16) | (val & 0xFF00_FF00)
  }

  function ColourPixel(kind: PointerType, val: bv32): bv32 {
    if kind.MASKED_COLOR? then Swizzle(val) ^ 0xFF00_0000 else Swizzle(val)
  }

  function MonoPixel(andBit: bool, xorBit: bool): bv32 {
    var rgb: bv32 := if xorBit then 0xFF else 0;
    var a: bv32 := if !andBit then 0xFF else 0;
    (a << 24) | (rgb << 16) | (rgb << 8) | rgb
  }

  /** What a viewer shows of an RGBA_XOR pixel over the screen. */
  function Shown(pixel: bv32, screen: bv32): bv32 {
    if pixel & 0xFF00_0000 == 0 then (screen ^ pixel) & 0x00FF_FFFF else pixel & 0x00FF_FFFF
  }

  /** What the desktop shows of a monochrome pixel, and of a masked colour pixel by its mask byte. */
  function DesktopMono(andBit: bool, xorBit: bool, screen: bv32): bv32 {
    ((screen & (if andBit then 0x00FF_FFFF else 0)) ^ (if xorBit then 0x00FF_FFFF else 0)) & 0x00FF_FFFF
  }

  function DesktopMasked(val: bv32, screen: bv32): bv32 {
    if val & 0xFF00_0000 == 0 then val & 0x00FF_FFFF else (val ^ screen) & 0x00FF_FFFF
  }

  lemma SwizzleIsItsOwnInverse(val: bv32)
    ensures Swizzle(Swizzle(val)) == val
  {
  }

  lemma MonoPixelValues()
    ensures MonoPixel(true, true) == 0x00FF_FFFF && MonoPixel(true, false) == 0
    ensures MonoPixel(false, true) == 0xFFFF_FFFF && MonoPixel(false, false) == 0xFF00_0000
  {
  }

  lemma ShownMonoPixels(screen: bv32)
    ensures Shown(0x00FF_FFFF, screen) == (screen ^ 0x00FF_FFFF) & 0x00FF_FFFF
    ensures Shown(0, screen) == screen & 0x00FF_FFFF
    ensures Shown(0xFFFF_FFFF, screen) == 0x00FF_FFFF
    ensures Shown(0xFF00_0000, screen) == 0
  {
  }

  lemma DesktopMonoPixels(screen: bv32)
    ensures DesktopMono(true, true, screen) == (screen ^ 0x00FF_FFFF) & 0x00FF_FFFF
    ensures DesktopMono(true, false, screen) == screen & 0x00FF_FFFF
    ensures DesktopMono(false, true, screen) == 0x00FF_FFFF
    ensures DesktopMono(false, false, screen) == 0
  {
  }

  /** A decoded monochrome pixel shows what the two masks ask for, over any screen. */
  lemma MonochromeKeepsItsMeaning(andBit: bool, xorBit: bool, screen: bv32)
    ensures Shown(MonoPixel(andBit, xorBit), screen) == DesktopMono(andBit, xorBit, screen)
  {
    MonoPixelValues();
    ShownMonoPixels(screen);
    DesktopMonoPixels(screen);
  }

  lemma Replaces(val: bv32)
    requires val & 0xFF00_0000 == 0
    ensures (Swizzle(val) ^ 0xFF00_0000) & 0xFF00_0000 != 0
    ensures (Swizzle(val) ^ 0xFF00_0000) & 0x00FF_FFFF == Swizzle(val & 0x00FF_FFFF)
  {
  }

  lemma Combines(val: bv32, screen: bv32)
    requires val & 0xFF00_0000 == 0xFF00_0000
    ensures (Swizzle(val) ^ 0xFF00_0000) & 0xFF00_0000 == 0
    ensures (Swizzle(screen) ^ (Swizzle(val) ^ 0xFF00_0000)) & 0x00FF_FFFF == Swizzle((val ^ screen) & 0x00FF_FFFF)
  {
  }

  /** A masked colour pixel, whose mask byte is all zeros or all ones, looks the same in the other byte order. */
  lemma MaskedColourKeepsItsMeaning(val: bv32, screen: bv32)
    requires val & 0xFF00_0000 == 0 || val & 0xFF00_0000 == 0xFF00_0000
    ensures Shown(ColourPixel(MASKED_COLOR, val), Swizzle(screen)) == Swizzle(DesktopMasked(val, screen))
  {
    if val & 0xFF00_0000 == 0 {
      Replaces(val);
    } else {
      Combines(val, screen);
    }
  }

  // ---------- reading the masks ----------

  function Word(b0: bv8, b1: bv8, b2: bv8, b3: bv8): bv32 {
    (b0 as bv32) | ((b1 as bv32) << 8) | ((b2 as bv32) << 16) | ((b3 as bv32) << 24)
  }

  /** Blue, green, red, alpha become red, green, blue, alpha. */
  lemma SwizzleReordersBytes(b0: bv8, b1: bv8, b2: bv8, b3: bv8)
    ensures Swizzle(Word(b0, b1, b2, b3)) == Word(b2, b1, b0, b3)
  {
  }

  function WordAt(buffer: seq<bv8>, at: nat): bv32
    requires at + 4 <= |buffer|
  {
    Word(buffer[at], buffer[at + 1], buffer[at + 2], buffer[at + 3])
  }

  const BITS: seq<bv8> := [0x80, 0x40, 0x20, 0x10, 0x08, 0x04, 0x02, 0x01]

  /** Bit k of a mask byte, the leftmost pixel first. */
  predicate Bit(mask: bv8, k: nat)
    requires k < 8
  {
    mask & BITS[k] != 0
  }

  function Shl(mask: bv8): bv8 { mask << 1 }

  predicate TopBit(mask: bv8) { mask & 0x80 != 0 }

  /** A mask byte after k shifts. */
  function Shifted(mask: bv8, k: nat): bv8 { if k == 0 then mask else Shl(Shifted(mask, k - 1)) }

  lemma ShiftsMoveBits(s0: bv8, s1: bv8, s2: bv8, s3: bv8, s4: bv8, s5: bv8, s6: bv8, s7: bv8)
    requires s1 == s0 << 1 && s2 == s1 << 1 && s3 == s2 << 1 && s4 == s3 << 1
    requires s5 == s4 << 1 && s6 == s5 << 1 && s7 == s6 << 1
    ensures s1 & 0x80 != 0 <==> s0 & 0x40 != 0
    ensures s2 & 0x80 != 0 <==> s0 & 0x20 != 0
    ensures s3 & 0x80 != 0 <==> s0 & 0x10 != 0
    ensures s4 & 0x80 != 0 <==> s0 & 0x08 != 0
    ensures s5 & 0x80 != 0 <==> s0 & 0x04 != 0
    ensures s6 & 0x80 != 0 <==> s0 & 0x02 != 0
    ensures s7 & 0x80 != 0 <==> s0 & 0x01 != 0
  {
  }

  /** The source tests the top bit and shifts; the k-th test finds the k-th bit from the left. */
  lemma TopBitAfterShifts(mask: bv8, k: nat)
    requires k < 8
    ensures TopBit(Shifted(mask, k)) <==> Bit(mask, k)
  {
    var s1 := Shl(Shifted(mask, 0));
    var s2, s3, s4 := Shl(Shifted(mask, 1)), Shl(Shifted(mask, 2)), Shl(Shifted(mask, 3));
    var s5, s6, s7 := Shl(Shifted(mask, 4)), Shl(Shifted(mask, 5)), Shl(Shifted(mask, 6));
    ShiftsMoveBits(mask, s1, s2, s3, s4, s5, s6, s7);
  }

  // ---------- images ----------

  /** The pixels of an image, row by row. */
  function Image(pixel: (nat, nat) -> bv32, width: nat, rows: nat): seq<bv32> {
    if rows == 0 then [] else Image(pixel, width, rows - 1) + Row(pixel, width, rows - 1)
  }

  function Row(pixel: (nat, nat) -> bv32, width: nat, y: nat): (r: seq<bv32>)
    ensures |r| == width
  {
    seq(width, x requires 0 <= x < width => pixel(x, y))
  }

  lemma {:induction false} ImageLength(pixel: (nat, nat) -> bv32, width: nat, rows: nat)
    ensures |Image(pixel, width, rows)| == rows * width
  {
    if rows > 0 {
      ImageLength(pixel, width, rows - 1);
      assert (rows - 1) * width + width == rows * width;
    }
  }

  predicate PixelIs(image: seq<bv32>, width: nat, x: nat, y: nat, pixel: bv32) {
    y * width + x < |image| && image[y * width + x] == pixel
  }

  /** Every pixel is where its row and column say. */
  lemma {:induction false} ImageAt(pixel: (nat, nat) -> bv32, width: nat, rows: nat, x: nat, y: nat)
    requires x < width && y < rows
    ensures PixelIs(Image(pixel, width, rows), width, x, y, pixel(x, y))
  {
    ImageLength(pixel, width, rows - 1);
    if y < rows - 1 {
      ImageAt(pixel, width, rows - 1, x, y);
    }
  }

  /** There is room for another row of an image no wider than the whole. */
  lemma ImageFits(pixel: (nat, nat) -> bv32, narrow: nat, i: nat, width: nat, rows: nat)
    requires i < rows && narrow <= width
    ensures |Image(pixel, narrow, i)| + narrow <= rows * width
  {
    ImageLength(pixel, narrow, i + 1);
    ProductGrows(i + 1, rows, narrow, width);
  }

  lemma ProductGrows(a: nat, b: nat, c: nat, d: nat)
    requires a <= b && c <= d
    ensures a * c <= b * d
  {
    assert b * d == a * c + (b - a) * c + b * (d - c);
  }

  /** Rows of so many bytes, so far apart, lie in the buffer. */
  predicate Covers(size: nat, pitch: nat, rows: nat, bytes: nat) {
    rows == 0 || bytes == 0 || (rows - 1) * pitch + bytes <= size
  }

  lemma RowIsCovered(size: nat, pitch: nat, rows: nat, bytes: nat, y: nat)
    requires Covers(size, pitch, rows, bytes) && y < rows && bytes > 0
    ensures y * pitch + bytes <= size
  {
    ProductGrows(y, rows - 1, pitch, pitch);
  }

  function WordOr0(buffer: seq<bv8>, at: nat): bv32 {
    if at + 4 <= |buffer| then WordAt(buffer, at) else 0
  }

  function ByteOr0(buffer: seq<bv8>, at: nat): bv8 {
    if at < |buffer| then buffer[at] else 0
  }

  function ColourPixels(info: PointerInfo, buffer: seq<bv8>): (nat, nat) -> bv32 {
    (x: nat, y: nat) => ColourPixel(info.kind, WordOr0(buffer, y * info.pitch + x * 4))
  }

  /** The k-th pixel from one byte of each mask: the top bits after k shifts. */
  function OctetPixel(andMask: bv8, xorMask: bv8, k: nat): bv32 {
    MonoPixel(TopBit(Shifted(andMask, k)), TopBit(Shifted(xorMask, k)))
  }

  /** Pixel x of a row whose masks start at these positions. */
  function MaskPixel(buffer: seq<bv8>, andAt: nat, xorAt: nat, x: nat): bv32 {
    OctetPixel(ByteOr0(buffer, andAt + x / 8), ByteOr0(buffer, xorAt + x / 8), x % 8)
  }

  /** The masks are stacked: all rows of the first, then all rows of the second. */
  function MonoPixels(info: PointerInfo, buffer: seq<bv8>): (nat, nat) -> bv32 {
    (x: nat, y: nat) => MaskPixel(buffer, y * info.pitch, (y + info.height / 2) * info.pitch, x)
  }

  /** Eight pixels from one byte of each mask, the leftmost first. */
  function Octet(andMask: bv8, xorMask: bv8): (p: seq<bv32>)
    ensures |p| == 8
  {
    seq(8, k requires 0 <= k < 8 => OctetPixel(andMask, xorMask, k))
  }

  function Octets(buffer: seq<bv8>, andAt: nat, xorAt: nat, columns: nat): (p: seq<bv32>)
    ensures |p| == 8 * columns
  {
    if columns == 0 then []
    else
      Octets(buffer, andAt, xorAt, columns - 1)
        + Octet(ByteOr0(buffer, andAt + columns - 1), ByteOr0(buffer, xorAt + columns - 1))
  }

  lemma {:induction false} OctetsAt(buffer: seq<bv8>, andAt: nat, xorAt: nat, columns: nat, x: nat)
    requires x < 8 * columns
    ensures Octets(buffer, andAt, xorAt, columns)[x] == MaskPixel(buffer, andAt, xorAt, x)
  {
    if x < 8 * (columns - 1) {
      OctetsAt(buffer, andAt, xorAt, columns - 1, x);
    }
  }

  lemma OctetsAreRow(info: PointerInfo, buffer: seq<bv8>, y: nat, columns: nat)
    ensures Octets(buffer, y * info.pitch, (y + info.height / 2) * info.pitch, columns)
      == Row(MonoPixels(info, buffer), 8 * columns, y)
  {
    var andAt, xorAt := y * info.pitch, (y + info.height / 2) * info.pitch;
    forall x: nat | x < 8 * columns
      ensures Octets(buffer, andAt, xorAt, columns)[x] == Row(MonoPixels(info, buffer), 8 * columns, y)[x]
    {
      OctetsAt(buffer, andAt, xorAt, columns, x);
    }
  }

  /** The shape being filled in, its image as words. */
  class ShapeBuilder {
    var image: array<bv32>
    var width: nat
    var height: nat
    var format: CursorShapeFormat

    constructor ()
      ensures fresh(image) && image.Length == width == height == 0
    {
      image := new bv32[0];
      width, height, format := 0, 0, RGBA;
    }

    /** Takes over the decoded shape; a type the decoder does not know leaves an empty image. */
    method ParseCursor(info: PointerInfo, buffer: seq<bv8>)
      requires info.kind.COLOR? || info.kind.MASKED_COLOR? ==> Covers(|buffer|, info.pitch, info.height, info.width * 4)
      requires info.kind.MONOCHROME? ==> Covers(|buffer|, info.pitch, 2 * (info.height / 2), info.width / 8)
      modifies this
      ensures fresh(image)
      ensures info.kind.COLOR? || info.kind.MASKED_COLOR? ==>
        && width == info.width && height == info.height && format == (if info.kind.COLOR? then RGBA else RGBA_XOR)
        && image[..] == Image(ColourPixels(info, buffer), info.width, info.height)
      ensures info.kind.MONOCHROME? ==>
        && width == info.width && height == info.height / 2 && format == RGBA_XOR
        && image.Length == height * width
        && Image(MonoPixels(info, buffer), 8 * (info.width / 8), info.height / 2) <= image[..]
      ensures info.kind.UNKNOWN_TYPE? ==> width == height == image.Length == 0 && format == old(format)
    {
      if info.kind == COLOR || info.kind == MASKED_COLOR {
        image := DecodeColour(info, buffer);
        width, height, format := info.width, info.height, if info.kind != MASKED_COLOR then RGBA else RGBA_XOR;
      } else if info.kind == MONOCHROME {
        image := DecodeMonochrome(info, buffer);
        width, height, format := info.width, info.height / 2, RGBA_XOR;
      } else {
        image := new bv32[0];
        width, height := 0, 0;
      }
    }
  }

  method DecodeColour(info: PointerInfo, buffer: seq<bv8>) returns (image: array<bv32>)
    requires info.kind.COLOR? || info.kind.MASKED_COLOR?
    requires Covers(|buffer|, info.pitch, info.height, info.width * 4)
    ensures fresh(image) && image[..] == Image(ColourPixels(info, buffer), info.width, info.height)
  {
    image := new bv32[info.height * info.width];
    ghost var pixel := ColourPixels(info, buffer);
    var dst := 0;
    for i := 0 to info.height
      invariant dst == |Image(pixel, info.width, i)| <= image.Length
      invariant image[..dst] == Image(pixel, info.width, i)
    {
      ImageFits(pixel, info.width, i, info.width, info.height);
      if info.width > 0 {
        RowIsCovered(|buffer|, info.pitch, info.height, info.width * 4, i);
      }
      dst := DecodeColourRow(info, buffer, i, image, dst);
    }
    ImageLength(pixel, info.width, info.height);
    assert image[..] == image[..dst];
  }

  method DecodeColourRow(info: PointerInfo, buffer: seq<bv8>, i: nat, image: array<bv32>, start: nat) returns (dst: nat)
    requires info.kind.COLOR? || info.kind.MASKED_COLOR?
    requires info.width == 0 || i * info.pitch + info.width * 4 <= |buffer|
    requires start + info.width <= image.Length
    modifies image
    ensures dst == start + info.width
    ensures image[..dst] == old(image[..start]) + Row(ColourPixels(info, buffer), info.width, i)
  {
    var isXOR := info.kind == MASKED_COLOR;
    var at := i * info.pitch;
    ghost var row := Row(ColourPixels(info, buffer), info.width, i);
    dst := start;
    for j := 0 to info.width
      invariant dst == start + j && image[..start] == old(image[..start])
      invariant forall l :: 0 <= l < j ==> image[start + l] == row[l]
    {
      var val := WordAt(buffer, at + j * 4);
      assert row[j] == ColourPixel(info.kind, val);
      image[dst] := if isXOR then Swizzle(val) ^ 0xFF00_0000 else Swizzle(val);
      dst := dst + 1;
    }
    assert image[start..dst] == row;
  }

  method DecodeMonochrome(info: PointerInfo, buffer: seq<bv8>) returns (image: array<bv32>)
    requires Covers(|buffer|, info.pitch, 2 * (info.height / 2), info.width / 8)
    ensures fresh(image) && image.Length == info.height / 2 * info.width
    ensures Image(MonoPixels(info, buffer), 8 * (info.width / 8), info.height / 2) <= image[..]
  {
    var rows, columns := info.height / 2, info.width / 8;
    image := new bv32[rows * info.width];
    ghost var pixel := MonoPixels(info, buffer);
    var dst: nat := 0;
    for i := 0 to rows
      invariant dst == |Image(pixel, 8 * columns, i)| <= image.Length
      invariant image[..dst] == Image(pixel, 8 * columns, i)
    {
      ImageFits(pixel, 8 * columns, i, info.width, rows);
      if columns > 0 {
        RowIsCovered(|buffer|, info.pitch, 2 * rows, columns, i);
        RowIsCovered(|buffer|, info.pitch, 2 * rows, columns, i + rows);
      }
      dst := DecodeMonochromeRow(buffer, i * info.pitch, (i + rows) * info.pitch, columns, image, dst);
      OctetsAreRow(info, buffer, i, columns);
    }
  }

  method DecodeMonochromeRow(buffer: seq<bv8>, andAt: nat, xorAt: nat, columns: nat, image: array<bv32>, start: nat)
    returns (dst: nat)
    requires columns == 0 || (andAt + columns <= |buffer| && xorAt + columns <= |buffer|)
    requires start + 8 * columns <= image.Length
    modifies image
    ensures dst == start + 8 * columns
    ensures image[..dst] == old(image[..start]) + Octets(buffer, andAt, xorAt, columns)
  {
    dst := start;
    for j := 0 to columns
      invariant dst == start + 8 * j && image[..start] == old(image[..start])
      invariant image[start..dst] == Octets(buffer, andAt, xorAt, j)
    {
      ghost var before := dst;
      dst := DecodeOctet(buffer[andAt + j], buffer[xorAt + j], image, dst);
      assert image[start..dst] == image[start..before] + image[before..dst];
    }
  }

  method DecodeOctet(andByte: bv8, xorByte: bv8, image: array<bv32>, start: nat) returns (dst: nat)
    requires start + 8 <= image.Length
    modifies image
    ensures dst == start + 8
    ensures image[start..dst] == Octet(andByte, xorByte)
    ensures image[..start] == old(image[..start])
  {
    var andMask, xorMask := andByte, xorByte;
    dst := start;
    for k := 0 to 8
      invariant dst == start + k && image[..start] == old(image[..start])
      invariant andMask == Shifted(andByte, k) && xorMask == Shifted(xorByte, k)
      invariant forall l :: 0 <= l < k ==> image[start + l] == OctetPixel(andByte, xorByte, l)
    {
      image[dst] := TakePixel(andMask, xorMask);
      andMask, xorMask := Shl(andMask), Shl(xorMask);
      dst := dst + 1;
    }
  }

  method TakePixel(andMask: bv8, xorMask: bv8) returns (pixel: bv32)
    ensures pixel == MonoPixel(TopBit(andMask), TopBit(xorMask))
  {
    var rgb: bv32 := if xorMask & 0x80 != 0 then 0xFF else 0;
    var a: bv32 := if andMask & 0x80 == 0 then 0xFF else 0;
    pixel := (a << 24) | (rgb << 16) | (rgb << 8) | rgb;
  }

  // ---------- whole images ----------

  lemma MasksAreCovered(info: PointerInfo, size: nat, x: nat, y: nat)
    requires Covers(size, info.pitch, 2 * (info.height / 2), info.width / 8) && info.width % 8 == 0
    requires x < info.width && y < info.height / 2
    ensures y * info.pitch + x / 8 < size && (y + info.height / 2) * info.pitch + x / 8 < size
  {
    RowIsCovered(size, info.pitch, 2 * (info.height / 2), info.width / 8, y);
    RowIsCovered(size, info.pitch, 2 * (info.height / 2), info.width / 8, y + info.height / 2);
  }

  /** The bits of a pixel in the two masks. */
  predicate MasksAre(info: PointerInfo, buffer: seq<bv8>, x: nat, y: nat, andBit: bool, xorBit: bool) {
    var andAt, xorAt := y * info.pitch + x / 8, (y + info.height / 2) * info.pitch + x / 8;
    && andAt < |buffer| && Bit(buffer[andAt], x % 8) == andBit
    && xorAt < |buffer| && Bit(buffer[xorAt], x % 8) == xorBit
  }

  lemma MasksOf(info: PointerInfo, buffer: seq<bv8>, x: nat, y: nat) returns (andBit: bool, xorBit: bool)
    requires Covers(|buffer|, info.pitch, 2 * (info.height / 2), info.width / 8) && info.width % 8 == 0
    requires x < info.width && y < info.height / 2
    ensures MasksAre(info, buffer, x, y, andBit, xorBit)
    ensures MonoPixels(info, buffer)(x, y) == MonoPixel(andBit, xorBit)
  {
    MasksAreCovered(info, |buffer|, x, y);
    var andAt: nat, xorAt: nat := y * info.pitch, (y + info.height / 2) * info.pitch;
    var andMask, xorMask := ByteOr0(buffer, andAt + x / 8), ByteOr0(buffer, xorAt + x / 8);
    andBit, xorBit := Bit(andMask, x % 8), Bit(xorMask, x % 8);
    assert MonoPixels(info, buffer)(x, y) == MaskPixel(buffer, andAt, xorAt, x);
    TopBitAfterShifts(andMask, x % 8);
    TopBitAfterShifts(xorMask, x % 8);
  }

  /** A decoded monochrome image shows, at every pixel and over any screen, what the two masks ask for. */
  lemma MonochromeImageKeepsItsMeaning(info: PointerInfo, buffer: seq<bv8>, x: nat, y: nat, screen: bv32)
    returns (andBit: bool, xorBit: bool, pixel: bv32)
    requires Covers(|buffer|, info.pitch, 2 * (info.height / 2), info.width / 8) && info.width % 8 == 0
    requires x < info.width && y < info.height / 2
    ensures MasksAre(info, buffer, x, y, andBit, xorBit)
    ensures PixelIs(Image(MonoPixels(info, buffer), info.width, info.height / 2), info.width, x, y, pixel)
    ensures Shown(pixel, screen) == DesktopMono(andBit, xorBit, screen)
  {
    ImageAt(MonoPixels(info, buffer), info.width, info.height / 2, x, y);
    andBit, xorBit := MasksOf(info, buffer, x, y);
    pixel := MonoPixel(andBit, xorBit);
    MonochromeKeepsItsMeaning(andBit, xorBit, screen);
  }

  /** The decoder writes every pixel of a monochrome image exactly if the width is a multiple of eight, or there
      is no row. */
  lemma MonochromeFillsTheImageExactly(info: PointerInfo, buffer: seq<bv8>)
    ensures |Image(MonoPixels(info, buffer), 8 * (info.width / 8), info.height / 2)| == info.height / 2 * info.width
            <==> info.width % 8 == 0 || info.height / 2 == 0
  {
    var rows := info.height / 2;
    ImageLength(MonoPixels(info, buffer), 8 * (info.width / 8), rows);
    ProductsDiffer(rows, 8 * (info.width / 8), info.width);
  }

  lemma ProductsDiffer(rows: nat, a: nat, b: nat)
    ensures rows * a == rows * b <==> rows == 0 || a == b
  {
    if rows > 0 && a != b {
      assert rows * (a - b) != 0;
    }
  }

  /** The four bytes of a pixel in the source, as a word. */
  predicate SourceIs(info: PointerInfo, buffer: seq<bv8>, x: nat, y: nat, val: bv32) {
    y * info.pitch + x * 4 + 4 <= |buffer| && WordAt(buffer, y * info.pitch + x * 4) == val
  }

  lemma SourceOf(info: PointerInfo, buffer: seq<bv8>, x: nat, y: nat) returns (val: bv32)
    requires Covers(|buffer|, info.pitch, info.height, info.width * 4) && x < info.width && y < info.height
    ensures SourceIs(info, buffer, x, y, val)
    ensures ColourPixels(info, buffer)(x, y) == ColourPixel(info.kind, val)
  {
    RowIsCovered(|buffer|, info.pitch, info.height, info.width * 4, y);
    val := WordOr0(buffer, y * info.pitch + x * 4);
  }

  lemma ColourImageAt(info: PointerInfo, buffer: seq<bv8>, x: nat, y: nat) returns (val: bv32)
    requires Covers(|buffer|, info.pitch, info.height, info.width * 4) && x < info.width && y < info.height
    ensures SourceIs(info, buffer, x, y, val)
    ensures PixelIs(Image(ColourPixels(info, buffer), info.width, info.height), info.width, x, y,
                    ColourPixel(info.kind, val))
  {
    ImageAt(ColourPixels(info, buffer), info.width, info.height, x, y);
    val := SourceOf(info, buffer, x, y);
  }

  /** A decoded masked colour image shows at every pixel whose mask byte is all zeros or all ones what the
      desktop shows, red and blue exchanged. */
  lemma MaskedImageKeepsItsMeaning(info: PointerInfo, buffer: seq<bv8>, x: nat, y: nat, screen: bv32)
    returns (val: bv32, pixel: bv32)
    requires info.kind.MASKED_COLOR? && Covers(|buffer|, info.pitch, info.height, info.width * 4)
    requires x < info.width && y < info.height
    ensures SourceIs(info, buffer, x, y, val)
    ensures PixelIs(Image(ColourPixels(info, buffer), info.width, info.height), info.width, x, y, pixel)
    ensures val & 0xFF00_0000 == 0 || val & 0xFF00_0000 == 0xFF00_0000 ==>
      Shown(pixel, Swizzle(screen)) == Swizzle(DesktopMasked(val, screen))
  {
    val := ColourImageAt(info, buffer, x, y);
    pixel := ColourPixel(MASKED_COLOR, val);
    if val & 0xFF00_0000 == 0 || val & 0xFF00_0000 == 0xFF00_0000 {
      MaskedColourKeepsItsMeaning(val, screen);
    }
  }

  /** The alpha of a decoded masked colour pixel is all or nothing exactly if its mask byte was. */
  lemma AlphaIsAllOrNothingExactly(val: bv32)
    ensures var alpha := ColourPixel(MASKED_COLOR, val) & 0xFF00_0000;
      (alpha == 0 || alpha == 0xFF00_0000) <==> (val & 0xFF00_0000 == 0 || val & 0xFF00_0000 == 0xFF00_0000)
  {
  }

  /** A decoded colour image holds at every pixel the source's four bytes with the first and third exchanged. */
  lemma ColourImageReordersBytes(info: PointerInfo, buffer: seq<bv8>, x: nat, y: nat)
    returns (b0: bv8, b1: bv8, b2: bv8, b3: bv8)
    requires info.kind.COLOR? && Covers(|buffer|, info.pitch, info.height, info.width * 4)
    requires x < info.width && y < info.height
    ensures SourceIs(info, buffer, x, y, Word(b0, b1, b2, b3))
    ensures PixelIs(Image(ColourPixels(info, buffer), info.width, info.height), info.width, x, y, Word(b2, b1, b0, b3))
  {
    var val := ColourImageAt(info, buffer, x, y);
    var at := y * info.pitch + x * 4;
    b0, b1, b2, b3 := buffer[at], buffer[at + 1], buffer[at + 2], buffer[at + 3];
    SwizzleReordersBytes(b0, b1, b2, b3);
  }
}
