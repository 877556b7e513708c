/// The bitmap fonts glcd_printCharXY and glcd_printStringXY draw with.
///
/// A font is a byte blob: a four-byte header (glyph width, glyph height,
/// first character code, number of characters) followed by one run of
/// floor(width * height / 8) bytes per glyph.  The glyph's pixels are
/// numbered row by row, one bit each, the most significant bit of a byte
/// first, and continue from one row to the next without padding.
module Glyphs {
  import opened Screen
  import Lines

  /// An unsigned byte (uint8_t, and char read as unsigned).
  type Byte = b: int | 0 <= b < 0x100

  /// The header fields glcd_setFont copies out of a blob, and the blob.
  datatype Font = Font(data: seq<Byte>, width: nat, height: nat, first: nat)

  /// The glyph width, glyph height, first character code and number of
  /// characters a blob's first four bytes give (all zero for no blob).
  function HeaderOf(data: seq<Byte>): (nat, nat, nat, nat) {
    if |data| >= 4 then (data[0], data[1], data[2], data[3]) else (0, 0, 0, 0)
  }

  /// The colours and the transparency flag a glyph is drawn with.
  datatype Ink = Ink(fg: Color, bg: Color, transparent: bool)

  // ------------------------------------------------------------ bit order

  /// The mask `1 << (7 - j)` that selects bit j, counting from the most
  /// significant one.
  function Mask(j: int): bv8
    requires 0 <= j < 8
  {
    match j
    case 0 => 0x80 case 1 => 0x40 case 2 => 0x20 case 3 => 0x10
    case 4 => 0x08 case 5 => 0x04 case 6 => 0x02 case _ => 0x01
  }

  /// Bit j of a byte, counting from the most significant one.
  function BitOf(b: bv8, j: int): bool
    requires 0 <= j < 8
  {
    b & Mask(j) != 0
  }

  /// The eight pixels a byte holds, in drawing order.
  function Unpack(b: bv8): (bits: seq<bool>)
    ensures |bits| == 8
  {
    seq(8, j requires 0 <= j < 8 => BitOf(b, j))
  }

  /// Bit i of the blob: the test `font[i / 8] & (1 << (7 - i % 8))`.
  function FontBit(data: seq<Byte>, i: int): bool
    requires 0 <= i < 8 * |data|
  {
    BitOf(data[i / 8] as bv8, i % 8)
  }

  /// The blob's bits are its bytes unpacked one after the other.
  lemma FontBitUnpacked(data: seq<Byte>, n: int, j: int)
    requires 0 <= n < |data| && 0 <= j < 8
    ensures FontBit(data, 8 * n + j) == Unpack(data[n] as bv8)[j]
  {
    assert (8 * n + j) / 8 == n && (8 * n + j) % 8 == j;
  }

  // ------------------------------------------------------- glyph location

  /// Bytes per glyph: width * height / 8, rounded down.
  function Stride(f: Font): (s: nat)
    ensures 8 * s <= f.width * f.height < 8 * s + 8
  {
    (f.width * f.height) / 8
  }

  /// The bit index of the first pixel of character c's glyph, past the
  /// four header bytes.
  function GlyphStart(f: Font, c: int): int {
    (4 + (c - f.first) * Stride(f)) * 8
  }

  /// The character has a glyph, and all its width * height bits lie in
  /// the blob.
  predicate GlyphFits(f: Font, c: int) {
    f.first <= c && GlyphStart(f, c) + f.width * f.height <= 8 * |f.data|
  }

  /// The bit of pixel (tx, ty) of a glyph.
  function PixelBit(f: Font, c: int, tx: int, ty: int): int {
    GlyphStart(f, c) + ty * f.width + tx
  }

  /// Pixel (tx, ty) of the glyph lies in the blob, after the header.
  lemma PixelBitInBlob(f: Font, c: int, tx: int, ty: int)
    requires GlyphFits(f, c) && 0 <= tx < f.width && 0 <= ty < f.height
    ensures 32 <= GlyphStart(f, c) <= PixelBit(f, c, tx, ty) < GlyphStart(f, c) + f.width * f.height
    ensures PixelBit(f, c, tx, ty) < 8 * |f.data|
  {
    assert 0 <= (c - f.first) * Stride(f);
    assert ty * f.width + tx < f.width * f.height by {
      assert ty * f.width + tx < (ty + 1) * f.width;
      assert (ty + 1) * f.width <= f.height * f.width;
    }
  }

  /// The bit after the last pixel of a row is the first pixel of the next:
  /// rows are not padded.
  lemma PixelBitNextRow(f: Font, c: int, ty: int)
    ensures PixelBit(f, c, f.width, ty) == PixelBit(f, c, 0, ty + 1)
  {
    assert (ty + 1) * f.width == ty * f.width + f.width;
  }

  /// Whether pixel (tx, ty) of character c's glyph is a foreground pixel.
  function GlyphPixel(f: Font, c: int, tx: int, ty: int): bool
    requires GlyphFits(f, c) && 0 <= tx < f.width && 0 <= ty < f.height
  {
    PixelBitInBlob(f, c, tx, ty);
    FontBit(f.data, PixelBit(f, c, tx, ty))
  }

  /// Glyphs are stored one after the other: the next character's glyph
  /// starts one stride further on.
  lemma {:induction false} GlyphsConsecutive(f: Font, c: int)
    ensures GlyphStart(f, c + 1) == GlyphStart(f, c) + 8 * Stride(f)
  {
    assert (c + 1 - f.first) * Stride(f) == (c - f.first) * Stride(f) + Stride(f);
  }

  /// When width * height is a whole number of bytes, a glyph's pixels fill
  /// its run exactly and end where the next glyph starts.
  lemma GlyphRunsAdjacent(f: Font, c: int)
    requires (f.width * f.height) % 8 == 0
    ensures PixelBit(f, c, 0, f.height) == GlyphStart(f, c + 1)
  {
    GlyphsConsecutive(f, c);
    assert 8 * Stride(f) == f.width * f.height;
    assert f.height * f.width == f.width * f.height;
  }

  /// The bit glcd_printCharXY reads for pixel (tx, ty) as written: it keeps
  /// the bit index in a uint16_t, so the start index and each increment are
  /// reduced modulo 2^16.
  function PixelBitAsWritten(f: Font, c: int, tx: int, ty: int): (i: int)
    ensures 0 <= i < 0x1_0000
    ensures i == PixelBit(f, c, tx, ty) % 0x1_0000
  {
    ModAdd(GlyphStart(f, c), ty * f.width + tx, 0x1_0000);
    (GlyphStart(f, c) % 0x1_0000 + ty * f.width + tx) % 0x1_0000
  }

  /// Reducing a summand first does not change the remainder of the sum.
  lemma ModAdd(a: int, b: int, m: int)
    requires m > 0
    ensures (a % m + b) % m == (a + b) % m
  {
    var q, r := a / m, a % m;
    var q2, r2 := (r + b) / m, (r + b) % m;
    assert a + b == m * (q + q2) + r2 && 0 <= r2 < m;
    Lines.DivUnique(a + b, m, q + q2);
  }

  /// While a glyph ends below bit 2^16 of the blob the 16-bit index is exact.
  lemma PixelBitNoWrap(f: Font, c: int, tx: int, ty: int)
    requires GlyphFits(f, c) && 0 <= tx < f.width && 0 <= ty < f.height
    requires GlyphStart(f, c) + f.width * f.height <= 0x1_0000
    ensures PixelBitAsWritten(f, c, tx, ty) == PixelBit(f, c, tx, ty)
  {
    PixelBitInBlob(f, c, tx, ty);
    var start := GlyphStart(f, c);
    ModSmall(start, 0x1_0000);
    assert PixelBitAsWritten(f, c, tx, ty) == PixelBit(f, c, tx, ty) % 0x1_0000;
    ModSmall(PixelBit(f, c, tx, ty), 0x1_0000);
  }

  lemma ModSmall(a: int, m: int)
    requires 0 <= a < m
    ensures a % m == a
  {
  }

  /// A 24x32 font of the 95 printable characters from ' ' has 96-byte
  /// glyphs; the glyph of 'v' (118) starts at bit 66080.  The 16-bit index
  /// wraps to bit 544, which lies inside the glyph of ' ', so 'v' is drawn
  /// from the wrong bitmap.
  lemma PixelBitWraps()
    ensures var f := Font(seq(4 + 95 * 96, _ => 0), 24, 32, 32);
      && GlyphFits(f, 118)
      && PixelBit(f, 118, 0, 0) == 66080
      && PixelBitAsWritten(f, 118, 0, 0) == 544
      && GlyphStart(f, 32) <= 544 < GlyphStart(f, 33)
  {
  }

  // --------------------------------------------------------------- images

  /// The screen box a glyph drawn at (x, y) covers.
  predicate InGlyphBox(p: Point, f: Font, x: int, y: int) {
    x <= p.x < x + f.width && y <= p.y < y + f.height
  }

  /// A glyph drawn at (x, y) lies on screen (nothing is drawn when the
  /// glyph is empty).
  predicate GlyphOnScreen(f: Font, x: int, y: int) {
    0 <= x && 0 <= y && (f.width > 0 && f.height > 0 ==> x + f.width <= Cols && y + f.height <= Rows)
  }

  /// Whether pixel (tx, ty) of the glyph has been visited once the loops
  /// have reached row `row`, column `col`.
  predicate Visited(tx: int, ty: int, row: int, col: int) {
    ty < row || (ty == row && tx < col)
  }

  /// The new value of a cell whose glyph pixel is (tx, ty): the foreground
  /// colour on a set bit, else the background colour, else (transparent) the
  /// old value.
  function PixelValue(f: Font, ink: Ink, c: int, tx: int, ty: int, old_: Color): Color
    requires GlyphFits(f, c) && 0 <= tx < f.width && 0 <= ty < f.height
  {
    if GlyphPixel(f, c, tx, ty) then ink.fg
    else if ink.transparent then old_
    else ink.bg
  }

  /// The value of the cell at offset k, which held `old_`, once the glyph
  /// pixels before (col, row) are drawn.
  function CellUpTo(f: Font, ink: Ink, x: int, y: int, c: int, row: int, col: int, k: int, old_: Color): Color
    requires GlyphFits(f, c)
  {
    var tx, ty := CellAt(k).x - x, CellAt(k).y - y;
    if 0 <= tx < f.width && 0 <= ty < f.height && Visited(tx, ty, row, col)
    then PixelValue(f, ink, c, tx, ty, old_)
    else old_
  }

  /// The framebuffer once the glyph pixels before (col, row) are drawn.
  function CharImageUpTo(s: seq<Color>, f: Font, ink: Ink, x: int, y: int, c: int, row: int, col: int): (r: seq<Color>)
    requires |s| == Size && GlyphFits(f, c)
    ensures |r| == Size
  {
    seq(Size, k requires 0 <= k < Size => CellUpTo(f, ink, x, y, c, row, col, k, s[k]))
  }

  /// The framebuffer after character c is drawn at (x, y): each cell of the
  /// glyph box takes the value of its glyph pixel, every other cell keeps
  /// its value.
  function CharImage(s: seq<Color>, f: Font, ink: Ink, x: int, y: int, c: int): (r: seq<Color>)
    requires |s| == Size && GlyphFits(f, c)
    ensures |r| == Size
  {
    CharImageUpTo(s, f, ink, x, y, c, f.height, 0)
  }

  /// Drawing the pixel at (col, row) extends the image by one cell.
  lemma CharImageStep(s: seq<Color>, f: Font, ink: Ink, x: int, y: int, c: int, row: int, col: int)
    requires |s| == Size && GlyphFits(f, c) && GlyphOnScreen(f, x, y)
    requires 0 <= col < f.width && 0 <= row < f.height
    ensures OnScreen(Point(x + col, y + row))
    ensures CharImageUpTo(s, f, ink, x, y, c, row, col + 1) ==
              CharImageUpTo(s, f, ink, x, y, c, row, col)[Index(Point(x + col, y + row)) :=
                PixelValue(f, ink, c, col, row, s[Index(Point(x + col, y + row))])]
  {
    var k0 := Index(Point(x + col, y + row));
    var after := CharImageUpTo(s, f, ink, x, y, c, row, col + 1);
    var before := CharImageUpTo(s, f, ink, x, y, c, row, col)[k0 := PixelValue(f, ink, c, col, row, s[k0])];
    forall k | 0 <= k < Size ensures after[k] == before[k] {
      CellAtIndex(k);
      if k != k0 {
        assert CellAt(k) != Point(x + col, y + row);
      }
    }
  }

  /// Finishing a row is starting the next one.
  lemma CharImageRowEnd(s: seq<Color>, f: Font, ink: Ink, x: int, y: int, c: int, row: int)
    requires |s| == Size && GlyphFits(f, c)
    ensures CharImageUpTo(s, f, ink, x, y, c, row, f.width) == CharImageUpTo(s, f, ink, x, y, c, row + 1, 0)
  {
    forall k | 0 <= k < Size
      ensures CharImageUpTo(s, f, ink, x, y, c, row, f.width)[k] == CharImageUpTo(s, f, ink, x, y, c, row + 1, 0)[k]
    {
    }
  }

  /// Before the first pixel nothing has changed.
  lemma CharImageStart(s: seq<Color>, f: Font, ink: Ink, x: int, y: int, c: int)
    requires |s| == Size && GlyphFits(f, c)
    ensures CharImageUpTo(s, f, ink, x, y, c, 0, 0) == s
  {
    forall k | 0 <= k < Size ensures CharImageUpTo(s, f, ink, x, y, c, 0, 0)[k] == s[k] {
    }
  }

  /// Drawing the same character twice in the same place is drawing it once.
  lemma CharImageIdempotent(s: seq<Color>, f: Font, ink: Ink, x: int, y: int, c: int)
    requires |s| == Size && GlyphFits(f, c)
    ensures CharImage(CharImage(s, f, ink, x, y, c), f, ink, x, y, c) == CharImage(s, f, ink, x, y, c)
  {
    var once := CharImage(s, f, ink, x, y, c);
    forall k | 0 <= k < Size ensures CharImage(once, f, ink, x, y, c)[k] == once[k] {
    }
  }

  /// In opaque mode every cell of the glyph box is written, so the result
  /// does not depend on what the box held before.
  lemma OpaqueCoversBox(s1: seq<Color>, s2: seq<Color>, f: Font, ink: Ink, x: int, y: int, c: int)
    requires |s1| == Size && |s2| == Size && GlyphFits(f, c) && !ink.transparent
    requires forall k | 0 <= k < Size && !InGlyphBox(CellAt(k), f, x, y) :: s1[k] == s2[k]
    ensures CharImage(s1, f, ink, x, y, c) == CharImage(s2, f, ink, x, y, c)
  {
    forall k | 0 <= k < Size ensures CharImage(s1, f, ink, x, y, c)[k] == CharImage(s2, f, ink, x, y, c)[k] {
    }
  }

  /// Transparent mode draws the same image as opaque mode exactly when
  /// every background pixel of the glyph already shows the background
  /// colour.
  lemma TransparentMatchesOpaque(s: seq<Color>, f: Font, fg: Color, bg: Color, x: int, y: int, c: int)
    requires |s| == Size && GlyphFits(f, c)
    ensures CharImage(s, f, Ink(fg, bg, true), x, y, c) == CharImage(s, f, Ink(fg, bg, false), x, y, c) <==>
              forall k | 0 <= k < Size && InGlyphBox(CellAt(k), f, x, y) &&
                         !GlyphPixel(f, c, CellAt(k).x - x, CellAt(k).y - y) :: s[k] == bg
  {
    var t, o := CharImage(s, f, Ink(fg, bg, true), x, y, c), CharImage(s, f, Ink(fg, bg, false), x, y, c);
    if t == o {
      forall k | 0 <= k < Size && InGlyphBox(CellAt(k), f, x, y) && !GlyphPixel(f, c, CellAt(k).x - x, CellAt(k).y - y)
        ensures s[k] == bg
      {
        assert t[k] == o[k];
      }
    } else {
      var k :| 0 <= k < Size && t[k] != o[k];
      assert InGlyphBox(CellAt(k), f, x, y) && !GlyphPixel(f, c, CellAt(k).x - x, CellAt(k).y - y) && s[k] != bg;
    }
  }

  // -------------------------------------------------------------- strings

  /// The length of a NUL-terminated string: the position of its first 0.
  function CLength(text: seq<Byte>): (n: nat)
    requires 0 in text
    ensures n < |text| && text[n] == 0
    ensures forall i | 0 <= i < n :: text[i] != 0
  {
    if text[0] == 0 then 0 else 1 + CLength(text[1..])
  }

  /// The left edge of the i-th glyph of a string drawn from x.
  function CharX(f: Font, x: int, i: int): int {
    x + i * f.width
  }

  /// Glyph m + n of a string is glyph n of the rest of the string after m.
  lemma CharXShift(f: Font, x: int, m: int, n: int)
    ensures CharX(f, CharX(f, x, m), n) == CharX(f, x, m + n)
  {
    assert (m + n) * f.width == m * f.width + n * f.width;
  }

  /// Every character of `chars` has a glyph, and every glyph of the string
  /// drawn from (x, y) lies on screen.
  predicate StringFits(f: Font, x: int, y: int, chars: seq<Byte>) {
    forall i | 0 <= i < |chars| :: GlyphFits(f, chars[i]) && GlyphOnScreen(f, CharX(f, x, i), y)
  }

  /// The framebuffer after the characters of `chars` are drawn from (x, y)
  /// one after the other, each one glyph width to the right of the last.
  function StringImage(s: seq<Color>, f: Font, ink: Ink, x: int, y: int, chars: seq<Byte>): (r: seq<Color>)
    requires |s| == Size && StringFits(f, x, y, chars)
    ensures |r| == Size
    decreases |chars|
  {
    if chars == [] then s
    else
      var n := |chars| - 1;
      CharImage(StringImage(s, f, ink, x, y, chars[..n]), f, ink, CharX(f, x, n), y, chars[n])
  }

  /// A prefix of a string that fits fits as well.
  lemma StringFitsPrefix(f: Font, x: int, y: int, chars: seq<Byte>, n: int)
    requires StringFits(f, x, y, chars) && 0 <= n <= |chars|
    ensures StringFits(f, x, y, chars[..n])
  {
    forall i | 0 <= i < n ensures GlyphFits(f, chars[..n][i]) && GlyphOnScreen(f, CharX(f, x, i), y) {
      assert chars[..n][i] == chars[i];
    }
  }

  /// Drawing one more character: the step of the string loop.
  lemma StringImageSnoc(s: seq<Color>, f: Font, ink: Ink, x: int, y: int, chars: seq<Byte>, n: int)
    requires |s| == Size && StringFits(f, x, y, chars) && 0 <= n < |chars|
    ensures StringFits(f, x, y, chars[..n]) && StringFits(f, x, y, chars[..n + 1])
    ensures StringImage(s, f, ink, x, y, chars[..n + 1]) ==
              CharImage(StringImage(s, f, ink, x, y, chars[..n]), f, ink, CharX(f, x, n), y, chars[n])
  {
    StringFitsPrefix(f, x, y, chars, n);
    StringFitsPrefix(f, x, y, chars, n + 1);
    assert chars[..n + 1][..n] == chars[..n];
  }

  /// A string drawn in two parts: the second part starts where the first
  /// one ended, |a| glyph widths to the right.
  lemma {:induction false} StringImageAppend(s: seq<Color>, f: Font, ink: Ink, x: int, y: int, a: seq<Byte>, b: seq<Byte>)
    requires |s| == Size && StringFits(f, x, y, a + b)
    ensures StringFits(f, x, y, a) && StringFits(f, CharX(f, x, |a|), y, b)
    ensures StringImage(s, f, ink, x, y, a + b) ==
              StringImage(StringImage(s, f, ink, x, y, a), f, ink, CharX(f, x, |a|), y, b)
    decreases |b|
  {
    StringFitsSplit(f, x, y, a, b);
    if b != [] {
      var n := |b| - 1;
      assert (a + b)[..|a + b| - 1] == a + b[..n];
      assert (a + b)[|a + b| - 1] == b[n];
      StringFitsPrefix(f, x, y, a + b, |a| + n);
      StringFitsPrefix(f, CharX(f, x, |a|), y, b, n);
      StringImageAppend(s, f, ink, x, y, a, b[..n]);
      CharXShift(f, x, |a|, n);
    } else {
      assert a + b == a;
    }
  }

  /// Both parts of a string that fits fit, the second one drawn from where
  /// the first one ends.
  lemma StringFitsSplit(f: Font, x: int, y: int, a: seq<Byte>, b: seq<Byte>)
    requires StringFits(f, x, y, a + b)
    ensures StringFits(f, x, y, a) && StringFits(f, CharX(f, x, |a|), y, b)
  {
    StringFitsPrefix(f, x, y, a + b, |a|);
    assert (a + b)[..|a|] == a;
    forall i | 0 <= i < |b| ensures GlyphFits(f, b[i]) && GlyphOnScreen(f, CharX(f, CharX(f, x, |a|), i), y) {
      assert (a + b)[|a| + i] == b[i];
      CharXShift(f, x, |a|, i);
    }
  }

  /// Two characters: the first glyph at x, then the second one glyph width
  /// further right, drawn over it where they overlap.
  lemma StringImagePair(s: seq<Color>, f: Font, ink: Ink, x: int, y: int, c1: Byte, c2: Byte)
    requires |s| == Size && StringFits(f, x, y, [c1, c2])
    ensures GlyphFits(f, c1) && GlyphFits(f, c2)
    ensures StringImage(s, f, ink, x, y, [c1, c2]) ==
              CharImage(CharImage(s, f, ink, x, y, c1), f, ink, x + f.width, y, c2)
  {
    assert [c1, c2][0] == c1 && [c1, c2][1] == c2;
    assert CharX(f, x, 0) == x && CharX(f, x, 1) == x + f.width;
    assert [c1, c2][..1] == [c1] && [c1][..0] == [];
    StringFitsPrefix(f, x, y, [c1, c2], 1);
    assert StringImage(s, f, ink, x, y, [c1]) == CharImage(s, f, ink, x, y, c1);
  }
}
