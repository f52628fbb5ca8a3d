/** The linear framebuffer, as bytes and as the picture the bytes show; rectangles, letters and strings. */
module Framebuffer {
  import opened Word
  import opened Text

  // A pixel is the bytes it is stored in, and a picture gives the pixel at every position of the screen.
  type Pixel = seq<bv8>

  datatype Pos = Pos(x: int, y: int)

  type Picture = imap<Pos, Pixel>

  // `depth` is the number of bytes of a pixel, `pitch` the number of bytes from one row to the next.
  datatype Geometry = Geometry(width: nat, height: nat, pitch: nat, depth: nat)

  predicate OnScreen(g: Geometry, p: Pos) {
    0 <= p.x < g.width && 0 <= p.y < g.height
  }

  // The rows do not overlap and lie within the buffer, and 32-bit offsets reach all of it.
  predicate Fits(g: Geometry, length: nat) {
    && 2 <= g.depth <= 4 && 0 < g.width < 0x1_0000_0000 && 0 < g.height < 0x1_0000_0000
    && g.width * g.depth <= g.pitch
    && g.height * g.pitch <= length <= 0x1_0000_0000
  }

  function Offset(g: Geometry, x: int, y: int): int {
    y * g.pitch + x * g.depth
  }

  lemma Ordered(a: int, b: int, factor: nat)
    requires a <= b
    ensures a * factor <= b * factor
  {
  }

  // A row's bytes end before the next row begins.
  lemma RowFits(g: Geometry, length: nat, x: int, y: int)
    requires Fits(g, length) && 0 <= x < g.width && 0 <= y < g.height
    ensures y * g.pitch <= Offset(g, x, y) && 0 <= y * g.pitch
    ensures Offset(g, x, y) + g.depth <= y * g.pitch + g.width * g.depth <= (y + 1) * g.pitch <= length
  {
    Ordered(0, x, g.depth);
    Ordered(x + 1, g.width, g.depth);
    Ordered(0, y, g.pitch);
    Ordered(y + 1, g.height, g.pitch);
    assert (x + 1) * g.depth == x * g.depth + g.depth;
    assert (y + 1) * g.pitch == y * g.pitch + g.pitch;
  }

  lemma RowsApart(g: Geometry, length: nat, p: Pos, q: Pos)
    requires Fits(g, length) && OnScreen(g, p) && OnScreen(g, q) && p.y < q.y
    ensures Offset(g, p.x, p.y) + g.depth <= Offset(g, q.x, q.y)
  {
    RowFits(g, length, p.x, p.y);
    RowFits(g, length, q.x, q.y);
    hide Offset, Fits;
    Ordered(p.y + 1, q.y, g.pitch);
  }

  lemma ColumnsApart(g: Geometry, length: nat, p: Pos, q: Pos)
    requires Fits(g, length) && OnScreen(g, p) && OnScreen(g, q) && p.y == q.y && p.x < q.x
    ensures Offset(g, p.x, p.y) + g.depth <= Offset(g, q.x, q.y)
  {
    Ordered(p.x + 1, q.x, g.depth);
    assert (p.x + 1) * g.depth == p.x * g.depth + g.depth;
  }

  // Pixels at different positions share no byte.
  lemma PixelsApart(g: Geometry, length: nat, p: Pos, q: Pos)
    requires Fits(g, length) && OnScreen(g, p) && OnScreen(g, q) && p != q
    ensures var a, b := Offset(g, p.x, p.y), Offset(g, q.x, q.y);
            a + g.depth <= b || b + g.depth <= a
  {
    hide Offset, Fits;
    if p.y < q.y {
      RowsApart(g, length, p, q);
    } else if q.y < p.y {
      RowsApart(g, length, q, p);
    } else if p.x < q.x {
      ColumnsApart(g, length, p, q);
    } else {
      ColumnsApart(g, length, q, p);
    }
  }

  function PixelAt(g: Geometry, bytes: seq<bv8>, p: Pos): Pixel
    requires Fits(g, |bytes|) && OnScreen(g, p)
  {
    RowFits(g, |bytes|, p.x, p.y);
    var offset := Offset(g, p.x, p.y);
    bytes[offset..offset + g.depth]
  }

  ghost function PictureOf(g: Geometry, bytes: seq<bv8>): Picture
    requires Fits(g, |bytes|)
  {
    imap p: Pos | OnScreen(g, p) :: PixelAt(g, bytes, p)
  }

  // A position off the screen is left alone.
  ghost function Dot(picture: Picture, x: int, y: int, pixel: Pixel): Picture {
    if Pos(x, y) in picture then picture[Pos(x, y) := pixel] else picture
  }

  // Writing one pixel's bytes changes the picture there and nowhere else.
  lemma PixelWritten(g: Geometry, before: seq<bv8>, after: seq<bv8>, at: Pos, pixel: Pixel)
    requires Fits(g, |before|) && OnScreen(g, at) && |pixel| == g.depth && |after| == |before|
    requires var offset := Offset(g, at.x, at.y);
             && 0 <= offset && offset + g.depth <= |before|
             && after[offset..offset + g.depth] == pixel
             && forall k :: 0 <= k < |before| && !(offset <= k < offset + g.depth) ==> after[k] == before[k]
    ensures PictureOf(g, after) == Dot(PictureOf(g, before), at.x, at.y, pixel)
  {
    var left, right := PictureOf(g, after), Dot(PictureOf(g, before), at.x, at.y, pixel);
    forall p | OnScreen(g, p)
      ensures left[p] == right[p]
    {
      RowFits(g, |before|, p.x, p.y);
      if p != at {
        PixelsApart(g, |before|, p, at);
        hide Offset;
        assert PixelAt(g, after, p) == PixelAt(g, before, p);
      }
    }
    hide PixelAt;
    assert Pos(at.x, at.y) == at;
    assert left == right;
  }

  // ---------------------------------------------------------------- colours

  // Where a colour component goes in a pixel, and how many bits it gets.
  datatype Channel = Channel(position: bv32, size: bv32)

  datatype Masks = Masks(red: Channel, green: Channel, blue: Channel)

  // Shifts by 32 or more are undefined in the C code.
  predicate Shiftable(c: Channel) {
    c.position < 32 && c.size < 40
  }

  predicate MasksOk(m: Masks) {
    Shiftable(m.red) && Shiftable(m.green) && Shiftable(m.blue)
  }

  type Color = bv32

  function Rgb(red: bv32, green: bv32, blue: bv32): Color {
    (red << 16) | (green << 8) | blue
  }

  function Component(value: bv32, size: bv32): bv32
    requires size < 40
  {
    if size == 0 then 0 else if size >= 8 then value << (size - 8) else value >> (8 - size)
  }

  function PackColor(m: Masks, color: Color): bv32
    requires MasksOk(m)
  {
    (Component((color >> 16) & 0xFF, m.red.size) << m.red.position)
    | (Component((color >> 8) & 0xFF, m.green.size) << m.green.position)
    | (Component(color & 0xFF, m.blue.size) << m.blue.position)
  }

  function LowByte(word: bv32): bv8 {
    (word & 0xFF) as bv8
  }

  // The lowest bytes of a word, the least significant first.
  function BytesOf(packed: bv32, depth: nat): (pixel: Pixel)
    requires 2 <= depth <= 4
    ensures |pixel| == depth
  {
    if depth == 4 then [LowByte(packed), LowByte(packed >> 8), LowByte(packed >> 16), LowByte(packed >> 24)]
    else if depth == 3 then [LowByte(packed), LowByte(packed >> 8), LowByte(packed >> 16)]
    else [LowByte(packed), LowByte(packed >> 8)]
  }

  function PixelOf(m: Masks, depth: nat, color: Color): (pixel: Pixel)
    requires MasksOk(m) && 2 <= depth <= 4
    ensures |pixel| == depth
  {
    BytesOf(PackColor(m, color), depth)
  }

  function DefaultMasks(depth: nat): Masks {
    if depth == 2 then Masks(Channel(11, 5), Channel(5, 6), Channel(0, 5))
    else Masks(Channel(16, 8), Channel(8, 8), Channel(0, 8))
  }

  /** With the default masks a pixel of three or four bytes stores blue, green and red as they are, and one of
      two bytes keeps the upper 5, 6 and 5 bits. */
  lemma DefaultMasksKeepColor(color: Color)
    ensures PackColor(DefaultMasks(3), color) == color & 0xFF_FFFF
    ensures DefaultMasks(4) == DefaultMasks(3)
    ensures PackColor(DefaultMasks(2), color) ==
            ((color >> 8) & 0xF800) | ((color >> 5) & 0x07E0) | ((color >> 3) & 0x001F)
  {
  }

  // Byte k of a word, the lowest one first.
  function ByteOf(word: bv32, k: nat): bv32 {
    if k == 0 then word & 0xFF else if k == 1 then (word & 0xFF00) >> 8
    else if k == 2 then (word & 0xFF_0000) >> 16 else word >> 24
  }

  function Wide(byte: bv8): bv32 {
    byte as bv32
  }

  /** A pixel's bytes are the bytes of the packed colour, the lowest one first. */
  lemma LowestFirst(packed: bv32, depth: nat, k: nat)
    requires 2 <= depth <= 4 && k < depth
    ensures Wide(BytesOf(packed, depth)[k]) == ByteOf(packed, k)
  {
    if k == 0 {
      OneByte(packed, packed, 0);
    } else if k == 1 {
      OneByte(packed >> 8, packed, 1);
    } else if k == 2 {
      OneByte(packed >> 16, packed, 2);
    } else {
      OneByte(packed >> 24, packed, 3);
    }
    hide Wide, LowByte, ByteOf;
  }

  lemma OneByte(shifted: bv32, word: bv32, k: nat)
    requires k <= 3
    requires shifted == if k == 0 then word else if k == 1 then word >> 8 else if k == 2 then word >> 16 else word >> 24
    ensures Wide(LowByte(shifted)) == ByteOf(word, k)
  {
  }

  /** A colour put together from three components of eight bits holds them. */
  lemma RgbHolds(red: bv32, green: bv32, blue: bv32)
    requires red < 256 && green < 256 && blue < 256
    ensures var color := Rgb(red, green, blue);
            && (color >> 16) & 0xFF == red && (color >> 8) & 0xFF == green && color & 0xFF == blue
  {
  }

  // ---------------------------------------------------------------- shapes

  // Every position of the screen from (x0, y0) to before (x1, y1).
  ghost function Filled(picture: Picture, x0: int, y0: int, x1: int, y1: int, pixel: Pixel): Picture {
    imap p: Pos | p in picture :: if x0 <= p.x < x1 && y0 <= p.y < y1 then pixel else picture[p]
  }

  ghost function FillRect(picture: Picture, x: int, y: int, width: int, height: int, pixel: Pixel): Picture {
    Filled(picture, x, y, x + width, y + height, pixel)
  }

  // The border's lower and right sides are found with wrapping arithmetic.
  ghost function Border(picture: Picture, x: u32, y: u32, width: u32, height: u32, pixel: Pixel): Picture {
    if width == 0 || height == 0 then picture
    else
      var top := FillRect(picture, x, y, width, 1, pixel);
      var bottom := FillRect(top, x, Wrap(y + height - 1), width, 1, pixel);
      var left := FillRect(bottom, x, y, 1, height, pixel);
      FillRect(left, Wrap(x + width - 1), y, 1, height, pixel)
  }

  // Eight rows of eight bits, the highest leftmost.
  type Glyph = rows: seq<bv8> | |rows| == 8 witness [0, 0, 0, 0, 0, 0, 0, 0]

  // What a stamp leaves at one place: what was there, or a pixel.
  datatype Mark = Through | Stamped(pixel: Pixel)

  // What is stamped on the screen pixel by pixel: a letter of the font, the arrow of the cursor, or the pixels
  // saved from under it.
  datatype Stamp =
    | Letter(glyph: Glyph, ink: Pixel, paper: Pixel)
    | Arrow(outline: Pixel, fill: Pixel)
    | Patch(marks: seq<Mark>)

  const ARROW: seq<bv16> :=
    [0x800, 0xC00, 0xE00, 0xF00, 0xF80, 0xFC0, 0xFE0, 0xFF0,
     0xFC0, 0xDC0, 0x8E0, 0x060, 0x030, 0x030, 0x018, 0x000]

  predicate BodyPixel(row: int, col: int) {
    0 <= row < 16 && 0 <= col < 12 && ARROW[row] & ((1 as bv16) << (11 - col)) != 0
  }

  // A body pixel with a neighbour outside the body.
  predicate EdgePixel(row: int, col: int) {
    BodyPixel(row, col)
    && exists r, c :: row - 1 <= r <= row + 1 && col - 1 <= c <= col + 1 && !BodyPixel(r, c)
  }

  predicate Ink(glyph: Glyph, dx: nat, dy: nat) {
    dx < 8 && dy < 8 && glyph[dy] & ((1 as bv8) << (7 - dx)) != 0
  }

  /** The highest bit of a glyph's row is its leftmost pixel, and shifting a row left moves it by one. */
  lemma InkHighestLeft(glyph: Glyph, shifted: Glyph, dx: nat, dy: nat)
    requires dx < 8 && dy < 8 && shifted[dy] == glyph[dy] << 1
    ensures dx == 0 ==> (Ink(glyph, dx, dy) <==> glyph[dy] >= 128)
    ensures Ink(shifted, dx, dy) <==> dx < 7 && Ink(glyph, dx + 1, dy)
  {
    RowShifts(glyph[dy]);
    if dx == 0 {
    } else if dx == 1 {
    } else if dx == 2 {
    } else if dx == 3 {
    } else if dx == 4 {
    } else if dx == 5 {
    } else if dx == 6 {
    }
  }

  lemma RowShifts(row: bv8)
    ensures (row & 128 != 0) <==> row >= 128
    ensures ((row << 1) & 128 != 0) == (row & 64 != 0) && ((row << 1) & 64 != 0) == (row & 32 != 0)
    ensures ((row << 1) & 32 != 0) == (row & 16 != 0) && ((row << 1) & 16 != 0) == (row & 8 != 0)
    ensures ((row << 1) & 8 != 0) == (row & 4 != 0) && ((row << 1) & 4 != 0) == (row & 2 != 0)
    ensures ((row << 1) & 2 != 0) == (row & 1 != 0) && (row << 1) & 1 == 0
  {
  }

  /** A border whose far sides do not wrap is the outermost ring of its rectangle, as far as it is on the screen. */
  lemma BorderIsRing(picture: Picture, x: u32, y: u32, width: u32, height: u32, pixel: Pixel, p: Pos)
    requires p in picture && x + width <= 0x1_0000_0000 && y + height <= 0x1_0000_0000
    ensures var border := Border(picture, x, y, width, height, pixel);
            p in border
            && border[p] == if x <= p.x < x + width && y <= p.y < y + height
                               && (p.x == x || p.x == x + width - 1 || p.y == y || p.y == y + height - 1)
                            then pixel else picture[p]
  {
    if width > 0 && height > 0 {
      WrapSmall(y + height - 1);
      WrapSmall(x + width - 1);
    }
    hide Wrap;
  }

  function MarkAt(s: Stamp, dx: nat, dy: nat): Mark {
    match s
    case Letter(glyph, ink, paper) => Stamped(if Ink(glyph, dx, dy) then ink else paper)
    case Arrow(outline, fill) =>
      if !BodyPixel(dy, dx) then Through else Stamped(if EdgePixel(dy, dx) then outline else fill)
    case Patch(marks) => if dx < 12 && dy * 12 + dx < |marks| then marks[dy * 12 + dx] else Through
  }

  // In reading order.
  predicate Before(dx: int, dy: int, col: int, row: int) {
    dy < row || (dy == row && dx < col)
  }

  function Point(s: Stamp, width: int, row: int, col: int, dx: nat, dy: nat, under: Pixel): Pixel {
    if dx < width && Before(dx, dy, col, row) && MarkAt(s, dx, dy).Stamped? then MarkAt(s, dx, dy).pixel
    else under
  }

  // The picture with the part of a stamp before a row and column laid on; a stamp goes round the edges of
  // the 32-bit coordinates, not of the screen.
  ghost function Partial(picture: Picture, s: Stamp, x: int, y: int, width: int, row: int, col: int)
    : (r: Picture)
    ensures forall p :: p in r <==> p in picture
  {
    imap p: Pos | p in picture :: Point(s, width, row, col, Wrap(p.x - x), Wrap(p.y - y), picture[p])
  }

  ghost function Over(picture: Picture, s: Stamp, x: int, y: int, width: int, height: int): Picture {
    Partial(picture, s, x, y, width, height, 0)
  }

  ghost function LetterOver(picture: Picture, x: int, y: int, glyph: Glyph, ink: Pixel, paper: Pixel): Picture {
    Over(picture, Letter(glyph, ink, paper), x, y, 8, 8)
  }

  // Letters side by side, from the `i`-th of the text on.
  ghost function TextOver(
    picture: Picture, font: char -> Glyph, x: u32, y: u32, text: string, i: nat, ink: Pixel, paper: Pixel): Picture
    requires i <= |text|
    decreases |text| - i
  {
    if i == |text| then picture
    else
      TextOver(LetterOver(picture, Wrap(x + i * 8), y, font(text[i]), ink, paper), font, x, y, text, i + 1, ink, paper)
  }

  // ---------------------------------------------------------------- drawing pixel by pixel

  lemma FillEmpty(picture: Picture, x0: int, y0: int, x1: int, y1: int, pixel: Pixel)
    requires x1 <= x0 || y1 <= y0
    ensures Filled(picture, x0, y0, x1, y1, pixel) == picture
  {
  }

  lemma FillDot(picture: Picture, x0: int, row: int, col: int, pixel: Pixel)
    requires x0 <= col && Pos(col, row) in picture
    ensures Filled(picture, x0, row, col + 1, row + 1, pixel) ==
            Dot(Filled(picture, x0, row, col, row + 1, pixel), col, row, pixel)
  {
    var left := Filled(picture, x0, row, col + 1, row + 1, pixel);
    var right := Dot(Filled(picture, x0, row, col, row + 1, pixel), col, row, pixel);
    forall p | p in picture ensures left[p] == right[p] {
      assert p == Pos(p.x, p.y);
    }
    assert left == right;
  }

  lemma FillRow(picture: Picture, x0: int, y0: int, x1: int, row: int, pixel: Pixel)
    requires y0 <= row
    ensures Filled(Filled(picture, x0, y0, x1, row, pixel), x0, row, x1, row + 1, pixel) ==
            Filled(picture, x0, y0, x1, row + 1, pixel)
  {
  }

  lemma FillClipped(g: Geometry, picture: Picture, x: int, y: int, width: nat, height: nat, pixel: Pixel)
    requires forall p :: p in picture <==> OnScreen(g, p)
    ensures var (x1, y1) := (Min(x + width, g.width), Min(y + height, g.height));
            FillRect(picture, x, y, width, height, pixel) == Filled(picture, x, y, x1, y1, pixel)
    ensures x >= g.width || y >= g.height || width == 0 || height == 0 ==>
              FillRect(picture, x, y, width, height, pixel) == picture
  {
  }

  lemma WrapInverse(a: u32, b: u32, d: u32)
    ensures Wrap(a - b) == d <==> a == Wrap(b + d)
  {
  }

  ghost predicate InWords(picture: Picture) {
    forall p :: p in picture ==> 0 <= p.x < 0x1_0000_0000 && 0 <= p.y < 0x1_0000_0000
  }

  lemma StampNothing(picture: Picture, s: Stamp, x: int, y: int, width: int)
    ensures Partial(picture, s, x, y, width, 0, 0) == picture
  {
    hide Wrap;
  }

  lemma StampRow(picture: Picture, s: Stamp, x: int, y: int, width: int, row: int)
    ensures Partial(picture, s, x, y, width, row, width) == Partial(picture, s, x, y, width, row + 1, 0)
  {
    hide Wrap, MarkAt;
  }

  // Whether a position is the place of a stamp's pixel.
  lemma PlaceOf(p: Pos, x: u32, y: u32, row: u32, col: u32)
    requires 0 <= p.x < 0x1_0000_0000 && 0 <= p.y < 0x1_0000_0000
    ensures Wrap(p.x - x) == col && Wrap(p.y - y) == row <==> p == Pos(Wrap(x + col), Wrap(y + row))
  {
    WrapInverse(p.x, x, col);
    WrapInverse(p.y, y, row);
    hide Wrap;
    assert p == Pos(p.x, p.y);
  }

  lemma PointStep(s: Stamp, width: int, row: nat, col: nat, dx: nat, dy: nat, under: Pixel)
    requires col < width
    ensures Point(s, width, row, col + 1, dx, dy, under) ==
            if MarkAt(s, col, row).Stamped? && dx == col && dy == row then MarkAt(s, col, row).pixel
            else Point(s, width, row, col, dx, dy, under)
  {
    hide MarkAt;
  }

  lemma StampPoint(picture: Picture, s: Stamp, x: u32, y: u32, width: u32, row: u32, col: u32, p: Pos)
    requires InWords(picture) && col < width && p in picture
    ensures Partial(picture, s, x, y, width, row, col + 1)[p] ==
            if MarkAt(s, col, row).Stamped? && p == Pos(Wrap(x + col), Wrap(y + row)) then MarkAt(s, col, row).pixel
            else Partial(picture, s, x, y, width, row, col)[p]
  {
    hide Wrap, MarkAt, Point;
    PointStep(s, width, row, col, Wrap(p.x - x), Wrap(p.y - y), picture[p]);
    PlaceOf(p, x, y, row, col);
  }

  lemma DotMade(before: Picture, after: Picture, mark: Mark, x: int, y: int)
    requires forall p :: p in after <==> p in before
    requires forall p :: p in before ==>
               after[p] == if mark.Stamped? && p == Pos(x, y) then mark.pixel else before[p]
    ensures after == match mark case Through => before case Stamped(pixel) => Dot(before, x, y, pixel)
  {
    if mark.Stamped? && Pos(x, y) in before {
      assert after == before[Pos(x, y) := mark.pixel];
    } else {
      assert after == before;
    }
  }

  lemma StampStep(picture: Picture, s: Stamp, x: u32, y: u32, width: u32, row: u32, col: u32)
    requires InWords(picture) && col < width
    ensures Partial(picture, s, x, y, width, row, col + 1) ==
            match MarkAt(s, col, row)
            case Through => Partial(picture, s, x, y, width, row, col)
            case Stamped(pixel) =>
              Dot(Partial(picture, s, x, y, width, row, col), Wrap(x + col), Wrap(y + row), pixel)
  {
    hide Wrap, MarkAt, Partial, Dot, InWords;
    forall p | p in picture
      ensures Partial(picture, s, x, y, width, row, col + 1)[p] ==
              if MarkAt(s, col, row).Stamped? && p == Pos(Wrap(x + col), Wrap(y + row)) then MarkAt(s, col, row).pixel
              else Partial(picture, s, x, y, width, row, col)[p]
    {
      StampPoint(picture, s, x, y, width, row, col, p);
    }
    DotMade(Partial(picture, s, x, y, width, row, col), Partial(picture, s, x, y, width, row, col + 1),
            MarkAt(s, col, row), Wrap(x + col), Wrap(y + row));
  }

  lemma OverPoint(picture: Picture, s: Stamp, x: u32, y: u32, width: nat, height: nat, p: Pos, dx: u32, dy: u32)
    requires p in picture && dx == Wrap(p.x - x) && dy == Wrap(p.y - y)
    ensures Over(picture, s, x, y, width, height)[p] ==
            if dx < width && dy < height && MarkAt(s, dx, dy).Stamped? then MarkAt(s, dx, dy).pixel else picture[p]
  {
    hide Wrap, MarkAt;
  }

  lemma LetterMark(glyph: Glyph, ink: Pixel, paper: Pixel, col: nat, row: nat)
    requires col < 8 && row < 8
    ensures MarkAt(Letter(glyph, ink, paper), col, row) ==
            Stamped(if glyph[row] & ((1 as bv8) << (7 - col)) != 0 then ink else paper)
  {
  }

  // ---------------------------------------------------------------- the framebuffer

  class Framebuffer {
    const buffer: array<bv8>
    const width: u32
    const height: u32
    const pitch: u32
    const bpp: nat
    const masks: Masks
    const available: bool
    // The font's glyph table.
    const font: char -> Glyph

    ghost const g := Geometry(width, height, pitch, bpp / 8)

    ghost predicate Valid() {
      (bpp == 16 || bpp == 24 || bpp == 32) && Fits(g, buffer.Length) && MasksOk(masks)
    }

    ghost function View(): (picture: Picture)
      requires Valid()
      reads buffer
      ensures forall p :: p in picture <==> OnScreen(g, p)
      ensures InWords(picture)
    {
      PictureOf(g, buffer[..])
    }

    function Shade(color: Color): Pixel
      requires Valid()
    {
      PixelOf(masks, bpp / 8, color)
    }

    // Where a pixel's bytes begin.
    function PixelOffset(x: u32, y: u32): (offset: nat)
      requires Valid() && x < width && y < height
      ensures offset == Offset(g, x, y) && offset + bpp / 8 <= buffer.Length
    {
      RowFits(g, buffer.Length, x, y);
      y * pitch + x * (bpp / 8)
    }

    // The mode the boot loader set; masks that lack a channel are replaced by the default ones.
    constructor (buffer: array<bv8>, width: u32, height: u32, pitch: u32, bpp: nat, given: Masks, font: char -> Glyph)
      requires bpp == 16 || bpp == 24 || bpp == 32
      requires Fits(Geometry(width, height, pitch, bpp / 8), buffer.Length) && MasksOk(given)
      ensures Valid() && available && this.buffer == buffer && this.font == font
      ensures g == Geometry(width, height, pitch, bpp / 8)
      ensures masks == if given.red.size == 0 || given.green.size == 0 || given.blue.size == 0
                       then DefaultMasks(bpp / 8) else given
    {
      this.buffer, this.width, this.height, this.pitch, this.bpp := buffer, width, height, pitch, bpp;
      this.font := font;
      if given.red.size == 0 || given.green.size == 0 || given.blue.size == 0 {
        masks := DefaultMasks(bpp / 8);
      } else {
        masks := given;
      }
      available := true;
    }

    // Stores a packed colour as a little-endian number of the pixel's size.
    method Store(pixel: nat, packed: bv32)
      requires Valid() && pixel + bpp / 8 <= buffer.Length
      modifies buffer
      ensures buffer[pixel..pixel + bpp / 8] == BytesOf(packed, bpp / 8)
      ensures forall k :: 0 <= k < buffer.Length && !(pixel <= k < pixel + bpp / 8) ==> buffer[k] == old(buffer[k])
    {
      hide LowByte, Fits;
      buffer[pixel] := LowByte(packed);
      buffer[pixel + 1] := LowByte(packed >> 8);
      if bpp == 32 {
        buffer[pixel + 2] := LowByte(packed >> 16);
        buffer[pixel + 3] := LowByte(packed >> 24);
      } else if bpp == 24 {
        buffer[pixel + 2] := LowByte(packed >> 16);
      }
    }

    method PutPixel(x: u32, y: u32, color: Color)
      requires Valid()
      modifies buffer
      ensures View() == if available then Dot(old(View()), x, y, Shade(color)) else old(View())
    {
      hide PackColor, BytesOf, PictureOf;
      if !available || x >= width || y >= height {
        return;
      }
      hide Offset, Fits, PixelOffset;
      var pixel := PixelOffset(x, y);
      ghost var before := buffer[..];
      Store(pixel, PackColor(masks, color));
      assert buffer[..][pixel..pixel + g.depth] == Shade(color);
      PixelWritten(g, before, buffer[..], Pos(x, y), Shade(color));
    }

    // Paints one row of a rectangle.
    method PaintRow(x0: u32, x1: u32, row: u32, color: Color)
      requires Valid() && available && x0 <= x1 <= width && row < height
      modifies buffer
      ensures View() == Filled(old(View()), x0, row, x1, row + 1, Shade(color))
    {
      hide PixelOf, PictureOf, Fits, Filled, Dot;
      FillEmpty(View(), x0, row, x0, row + 1, Shade(color));
      var col := x0;
      while col < x1
        invariant x0 <= col <= x1
        invariant View() == Filled(old(View()), x0, row, col, row + 1, Shade(color))
      {
        FillDot(old(View()), x0, row, col, Shade(color));
        PutPixel(col, row, color);
        col := col + 1;
      }
    }

    method Clear(color: Color)
      requires Valid()
      modifies buffer
      ensures View() == if available then Filled(old(View()), 0, 0, width, height, Shade(color)) else old(View())
    {
      hide PixelOf, PictureOf, Fits, Filled, Dot;
      if !available {
        return;
      }
      FillEmpty(View(), 0, 0, width, 0, Shade(color));
      var y := 0;
      while y < height
        invariant 0 <= y <= height
        invariant View() == Filled(old(View()), 0, 0, width, y, Shade(color))
      {
        FillRow(old(View()), 0, 0, width, y, Shade(color));
        PaintRow(0, width, y, color);
        y := y + 1;
      }
    }

    method DrawFillRect(x: u32, y: u32, width: u32, height: u32, color: Color)
      requires Valid()
      modifies buffer
      ensures View() == if available then FillRect(old(View()), x, y, width, height, Shade(color)) else old(View())
    {
      hide PixelOf, PictureOf, Fits, Filled, Dot, FillRect;
      FillClipped(g, View(), x, y, width, height, Shade(color));
      if !available || width == 0 || height == 0 {
        return;
      }
      if x >= this.width || y >= this.height {
        return;
      }
      var endX, endY := Wrap(x + width), Wrap(y + height);
      if endX > this.width || endX < x {
        endX := this.width;
      }
      if endY > this.height || endY < y {
        endY := this.height;
      }
      assert endX == Min(x + width, this.width) && endY == Min(y + height, this.height);
      hide Wrap, Min;
      FillEmpty(View(), x, y, endX, y, Shade(color));
      var row := y;
      while row < endY
        invariant y <= row <= endY
        invariant View() == Filled(old(View()), x, y, endX, row, Shade(color))
      {
        FillRow(old(View()), x, y, endX, row, Shade(color));
        PaintRow(x, endX, row, color);
        row := row + 1;
      }
    }

    method DrawRect(x: u32, y: u32, width: u32, height: u32, color: Color)
      requires Valid()
      modifies buffer
      ensures View() == if available then Border(old(View()), x, y, width, height, Shade(color)) else old(View())
    {
      hide PixelOf, PictureOf, Fits, FillRect, Wrap;
      if width == 0 || height == 0 {
        return;
      }
      DrawFillRect(x, y, width, 1, color);
      DrawFillRect(x, Wrap(y + height - 1), width, 1, color);
      DrawFillRect(x, y, 1, height, color);
      DrawFillRect(Wrap(x + width - 1), y, 1, height, color);
    }

    // One row of a letter's pixels, behind the rows above it.
    method DrawCharRow(x: u32, y: u32, glyph: Glyph, ink: Color, paper: Color, row: u32, ghost was: Picture)
      requires Valid() && row < 8 && InWords(was)
      requires View() == if available then Partial(was, Letter(glyph, Shade(ink), Shade(paper)), x, y, 8, row, 0) else was
      modifies buffer
      ensures View() == if available then Partial(was, Letter(glyph, Shade(ink), Shade(paper)), x, y, 8, row, 8) else was
    {
      hide PixelOf, PictureOf, Fits, Partial, Dot, Wrap, MarkAt, InWords;
      ghost var stamp := Letter(glyph, Shade(ink), Shade(paper));
      var col := 0;
      while col < 8
        invariant 0 <= col <= 8
        invariant View() == if available then Partial(was, stamp, x, y, 8, row, col) else was
      {
        var color := if glyph[row] & ((1 as bv8) << (7 - col)) != 0 then ink else paper;
        LetterMark(glyph, Shade(ink), Shade(paper), col, row);
        StampStep(was, stamp, x, y, 8, row, col);
        PutPixel(Wrap(x + col), Wrap(y + row), color);
        col := col + 1;
      }
    }

    method DrawChar(x: u32, y: u32, c: char, ink: Color, paper: Color)
      requires Valid()
      modifies buffer
      ensures View() == if available then LetterOver(old(View()), x, y, font(c), Shade(ink), Shade(paper))
                        else old(View())
    {
      hide PixelOf, PictureOf, Fits, Partial, Wrap, MarkAt, InWords;
      var glyph := font(c);
      ghost var stamp := Letter(glyph, Shade(ink), Shade(paper));
      ghost var was := View();
      StampNothing(was, stamp, x, y, 8);
      var row := 0;
      while row < 8
        invariant 0 <= row <= 8
        invariant View() == if available then Partial(was, stamp, x, y, 8, row, 0) else was
      {
        DrawCharRow(x, y, glyph, ink, paper, row, was);
        StampRow(was, stamp, x, y, 8, row);
        row := row + 1;
      }
    }

    // `text` is a C string.
    method DrawString(x: u32, y: u32, text: string, ink: Color, paper: Color)
      requires Valid()
      modifies buffer
      ensures View() == if available
                        then TextOver(old(View()), font, x, y, CStr(text), 0, Shade(ink), Shade(paper))
                        else old(View())
    {
      hide PixelOf, PictureOf, Fits, LetterOver, Wrap;
      ghost var whole := CStr(text);
      var i := 0;
      while At(text, i) != NUL
        invariant i <= |whole|
        invariant if available
                  then TextOver(View(), font, x, y, whole, i, Shade(ink), Shade(paper))
                       == TextOver(old(View()), font, x, y, whole, 0, Shade(ink), Shade(paper))
                  else View() == old(View())
        decreases |whole| - i
      {
        DrawChar(Wrap(x + i * 8), y, text[i], ink, paper);
        i := i + 1;
      }
    }
  }
}
