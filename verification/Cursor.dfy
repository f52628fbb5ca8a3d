/** The mouse cursor: an arrow drawn over pixels that are saved first and put back before it moves. */
module Cursor {
  import opened Word
  import opened Text
  import opened Framebuffer

  const STATUS_WIDTH: u32 := 320
  const STATUS_HEIGHT: u32 := 20

  // Where the pointer is and which buttons are down.
  datatype Pointer = Pointer(x: u32, y: u32, left: bool, right: bool, middle: bool)

  function Decimal(n: nat): string {
    if n < 10 then [('0' as int + n) as char] else Decimal(n / 10) + [('0' as int + n % 10) as char]
  }

  // The number a decimal text stands for.
  function DecimalValue(s: string): int {
    if s == "" then 0 else DecimalValue(s[..|s| - 1]) * 10 + (s[|s| - 1] as int - '0' as int)
  }

  /** A coordinate is written in decimal digits that read back to it, with no zero in front. */
  lemma {:induction false} DecimalReads(n: nat)
    ensures DecimalValue(Decimal(n)) == n && |Decimal(n)| > 0
    ensures forall i :: 0 <= i < |Decimal(n)| ==> '0' <= Decimal(n)[i] <= '9'
    ensures Decimal(n)[0] == '0' ==> n == 0
  {
    var s := Decimal(n);
    if n < 10 {
      assert s[..0] == "";
    } else {
      DecimalReads(n / 10);
      assert s[..|s| - 1] == Decimal(n / 10);
    }
  }

  function Flag(on: bool): string {
    if on then "1" else "0"
  }

  function StatusText(p: Pointer): string {
    "mouse x:" + Decimal(p.x) + " y:" + Decimal(p.y)
    + " l:" + Flag(p.left) + " r:" + Flag(p.right) + " m:" + Flag(p.middle)
  }

  function PanelX(width: u32): u32 {
    if width > 336 then width - 328 else 8
  }

  /** On a screen wide enough the panel ends eight pixels from the right edge. */
  lemma PanelAtRight(width: u32)
    requires width > 336
    ensures PanelX(width) + 320 + 8 == width
  {
  }

  /** The panel's text for one pointer. */
  lemma StatusExample()
    ensures StatusText(Pointer(12, 7, true, false, true)) == "mouse x:" + "12" + " y:" + "7" + " l:1" + " r:0" + " m:1"
  {
    assert Decimal(12) == "12";
  }

  // The colours of the panel and the arrow, as pixels.
  datatype Inks = Inks(panel: Pixel, border: Pixel, text: Pixel, outline: Pixel, fill: Pixel)

  // The panel's border and text.
  ghost function OnPanel(panel: Picture, font: char -> Glyph, width: u32, inks: Inks, p: Pointer): Picture {
    var framed := Border(panel, PanelX(width), 12, 320, 20, inks.border);
    TextOver(framed, font, Wrap(PanelX(width) + 8), 18, CStr(StatusText(p)), 0, inks.text, inks.panel)
  }

  // The status panel drawn on a picture.
  ghost function WithStatus(picture: Picture, font: char -> Glyph, width: u32, inks: Inks, p: Pointer): Picture {
    OnPanel(FillRect(picture, PanelX(width), 12, 320, 20, inks.panel), font, width, inks, p)
  }

  ghost function WithArrow(picture: Picture, inks: Inks, x: u32, y: u32): Picture {
    Over(picture, Arrow(inks.outline, inks.fill), x, y, 12, 16)
  }

  // A place of the saved area: four bytes, of which a pixel uses its own size.
  function CellOf(saved: seq<bv8>, valid: seq<bool>, depth: nat, i: nat): Mark
    requires |saved| == 768 && |valid| == 192 && depth <= 4 && i < 192
  {
    if valid[i] then Stamped(saved[i * 4..i * 4 + depth]) else Through
  }

  function PatchOf(saved: seq<bv8>, valid: seq<bool>, depth: nat): (marks: seq<Mark>)
    requires |saved| == 768 && |valid| == 192 && depth <= 4
    ensures |marks| == 192
  {
    seq(192, i requires 0 <= i < 192 => CellOf(saved, valid, depth, i))
  }

  // What saving must keep of a place: its pixel, if it is on the screen.
  ghost function Under(picture: Picture, x: u32, y: u32, col: int, row: int): Mark {
    var p := Pos(Wrap(x + col), Wrap(y + row));
    if p in picture then Stamped(picture[p]) else Through
  }

  ghost predicate Saves(marks: seq<Mark>, picture: Picture, x: u32, y: u32) {
    |marks| == 192
    && forall col, row :: 0 <= col < 12 && 0 <= row < 16 ==> marks[row * 12 + col] == Under(picture, x, y, col, row)
  }

  lemma SavesAt(marks: seq<Mark>, picture: Picture, x: u32, y: u32, p: Pos, dx: u32, dy: u32)
    requires InWords(picture) && Saves(marks, picture, x, y) && p in picture
    requires dx == Wrap(p.x - x) && dy == Wrap(p.y - y) && dx < 12 && dy < 16
    ensures MarkAt(Patch(marks), dx, dy) == Stamped(picture[p])
  {
    PlaceOf(p, x, y, dy, dx);
    hide Wrap, InWords;
    assert marks[dy * 12 + dx] == Under(picture, x, y, dx, dy);
  }

  lemma PutBackPoint(marks: seq<Mark>, picture: Picture, s: Stamp, x: u32, y: u32, p: Pos)
    requires InWords(picture) && Saves(marks, picture, x, y) && p in picture
    ensures Over(Over(picture, s, x, y, 12, 16), Patch(marks), x, y, 12, 16)[p] == picture[p]
  {
    StampDomain(picture, s, x, y);
    hide Wrap, InWords, Over, MarkAt, Saves;
    var dx, dy, over := Wrap(p.x - x), Wrap(p.y - y), Over(picture, s, x, y, 12, 16);
    OverPoint(picture, s, x, y, 12, 16, p, dx, dy);
    OverPoint(over, Patch(marks), x, y, 12, 16, p, dx, dy);
    if dx < 12 && dy < 16 {
      SavesAt(marks, picture, x, y, p, dx, dy);
    }
  }

  lemma StampDomain(picture: Picture, s: Stamp, x: u32, y: u32)
    ensures forall p :: p in Over(picture, s, x, y, 12, 16) <==> p in picture
  {
  }

  /** Pixels saved from a picture, put back over anything stamped on their places, give the picture again. */
  lemma PutBack(marks: seq<Mark>, picture: Picture, s: Stamp, x: u32, y: u32)
    requires InWords(picture) && Saves(marks, picture, x, y)
    ensures Over(Over(picture, s, x, y, 12, 16), Patch(marks), x, y, 12, 16) == picture
  {
    var back := Over(Over(picture, s, x, y, 12, 16), Patch(marks), x, y, 12, 16);
    forall p | p in picture ensures back[p] == picture[p] {
      PutBackPoint(marks, picture, s, x, y, p);
    }
    hide Wrap, MarkAt, Saves, InWords, Point;
    assert back == picture;
  }

  // One place saved anew.
  lemma CellSaved(
    saved: seq<bv8>, valid: seq<bool>, newSaved: seq<bv8>, newValid: seq<bool>, depth: nat, i: nat, pixel: Pixel, on: bool)
    requires |saved| == |newSaved| == 768 && |valid| == |newValid| == 192 && depth <= 4 && i < 192
    requires newValid == valid[i := on] && (on ==> newSaved[i * 4..i * 4 + depth] == pixel)
    requires forall k :: 0 <= k < 768 && !(i * 4 <= k < i * 4 + 4) ==> newSaved[k] == saved[k]
    ensures PatchOf(newSaved, newValid, depth) ==
            PatchOf(saved, valid, depth)[i := if on then Stamped(pixel) else Through]
  {
    forall j | 0 <= j < 192 && j != i
      ensures CellOf(newSaved, newValid, depth, j) == CellOf(saved, valid, depth, j)
    {
      assert newSaved[j * 4..j * 4 + depth] == saved[j * 4..j * 4 + depth];
    }
  }

  class Cursor {
    const fb: Framebuffer
    const saved: array<bv8>
    const valid: array<bool>
    var x: u32
    var y: u32
    var left: bool
    var right: bool
    var middle: bool
    var initialized: bool
    var visible: bool

    constructor (fb: Framebuffer)
      requires fb.Valid()
      ensures this.fb == fb && Valid() && !initialized && !visible && fresh(saved) && fresh(valid)
    {
      this.fb := fb;
      saved := new bv8[768];
      valid := new bool[192];
      x, y, left, right, middle := 0, 0, false, false, false;
      initialized, visible := false, false;
    }

    ghost predicate Valid() {
      fb.Valid() && saved.Length == 768 && valid.Length == 192 && saved != fb.buffer
      && valid as object != fb.buffer as object && valid as object != saved as object
    }

    ghost function Marks(): (marks: seq<Mark>)
      requires Valid()
      reads saved, valid
      ensures |marks| == 192
    {
      PatchOf(saved[..], valid[..], fb.g.depth)
    }

    // The framebuffer with the saved pixels put back.
    ghost function Hidden(): Picture
      requires Valid()
      reads this, saved, valid, fb.buffer
    {
      if visible && fb.available then Over(fb.View(), Patch(Marks()), x, y, 12, 16) else fb.View()
    }

    function ArrowInks(): Inks
      requires Valid()
    {
      Inks(fb.Shade(Rgb(15, 24, 36)), fb.Shade(Rgb(67, 220, 210)), fb.Shade(Rgb(232, 238, 245)),
           fb.Shade(Rgb(5, 8, 13)), fb.Shade(Rgb(248, 252, 255)))
    }

    function At(): Pointer
      reads this
    {
      Pointer(x, y, left, right, middle)
    }

    // Copies the bytes of a framebuffer pixel to a place of the saved area.
    method CopyPixel(index: nat, pixel: nat)
      requires Valid() && index < 192 && pixel + fb.bpp / 8 <= fb.buffer.Length
      modifies saved
      ensures saved[index * 4..index * 4 + fb.g.depth] == fb.buffer[pixel..pixel + fb.g.depth]
      ensures forall k :: 0 <= k < 768 && !(index * 4 <= k < index * 4 + 4) ==> saved[k] == old(saved[k])
    {
      hide Fits;
      var byte := 0;
      while byte < fb.bpp / 8
        invariant 0 <= byte <= fb.bpp / 8
        invariant saved[index * 4..index * 4 + byte] == fb.buffer[pixel..pixel + byte]
        invariant forall k :: 0 <= k < 768 && !(index * 4 <= k < index * 4 + 4) ==> saved[k] == old(saved[k])
      {
        saved[index * 4 + byte] := fb.buffer[pixel + byte];
        byte := byte + 1;
      }
    }

    method SavePixel(index: nat, px: u32, py: u32)
      requires Valid() && index < 192 && px < fb.width && py < fb.height
      modifies saved, valid
      ensures Marks() == old(Marks())[index := Stamped(fb.View()[Pos(px, py)])]
    {
      ghost var savedBefore, validBefore, picture := saved[..], valid[..], fb.View();
      hide Offset, Fits, CellOf, PixelAt, Framebuffer.View;
      var pixel := fb.PixelOffset(px, py);
      CopyPixel(index, pixel);
      valid[index] := true;
      PixelShown(px, py);
      assert fb.View() == picture;
      assert saved[..][index * 4..index * 4 + fb.g.depth] == saved[index * 4..index * 4 + fb.g.depth];
      CellSaved(savedBefore, validBefore, saved[..], valid[..], fb.g.depth, index, picture[Pos(px, py)], true);
    }

    method SaveCell(row: u32, col: u32)
      requires Valid() && fb.available && row < 16 && col < 12
      modifies saved, valid
      ensures Marks() == old(Marks())[row * 12 + col := Under(fb.View(), x, y, col, row)]
    {
      var index := row * 12 + col;
      var px, py := Wrap(x + col), Wrap(y + row);
      hide Fits, Wrap, CellOf, PictureOf;
      if px >= fb.width || py >= fb.height {
        ghost var savedBefore, validBefore := saved[..], valid[..];
        valid[index] := false;
        CellSaved(savedBefore, validBefore, saved[..], valid[..], fb.g.depth, index, [], false);
        return;
      }
      SavePixel(index, px, py);
    }

    lemma PixelShown(px: u32, py: u32)
      requires Valid() && px < fb.width && py < fb.height
      ensures var pixel := fb.PixelOffset(px, py);
              fb.View()[Pos(px, py)] == fb.buffer[pixel..pixel + fb.g.depth]
    {
    }

    method SaveBackground()
      requires Valid() && fb.available
      modifies saved, valid
      ensures Saves(Marks(), fb.View(), x, y)
    {
      hide Wrap, Fits, PatchOf, PictureOf, Under;
      ghost var picture := fb.View();
      var row := 0;
      while row < 16
        invariant 0 <= row <= 16 && fb.View() == picture
        invariant forall c, r :: 0 <= c < 12 && 0 <= r < row ==> Marks()[r * 12 + c] == Under(picture, x, y, c, r)
      {
        var col := 0;
        while col < 12
          invariant 0 <= col <= 12 && fb.View() == picture
          invariant forall c, r :: 0 <= c < 12 && 0 <= r < 16 && Before(c, r, col, row) ==>
                      Marks()[r * 12 + c] == Under(picture, x, y, c, r)
        {
          SaveCell(row, col);
          col := col + 1;
        }
        row := row + 1;
      }
    }

    method DrawShape()
      requires Valid()
      modifies fb.buffer
      ensures fb.View() == if fb.available then WithArrow(old(fb.View()), ArrowInks(), x, y) else old(fb.View())
    {
      hide PixelOf, PictureOf, Fits, Partial, Dot, Wrap, BodyPixel, EdgePixel;
      ghost var stamp, was := Arrow(ArrowInks().outline, ArrowInks().fill), fb.View();
      StampNothing(was, stamp, x, y, 12);
      var row := 0;
      while row < 16
        invariant 0 <= row <= 16
        invariant fb.View() == if fb.available then Partial(was, stamp, x, y, 12, row, 0) else was
      {
        var col := 0;
        while col < 12
          invariant 0 <= col <= 12
          invariant fb.View() == if fb.available then Partial(was, stamp, x, y, 12, row, col) else was
        {
          StampStep(was, stamp, x, y, 12, row, col);
          if BodyPixel(row, col) {
            var color := if EdgePixel(row, col) then Rgb(5, 8, 13) else Rgb(248, 252, 255);
            fb.PutPixel(Wrap(x + col), Wrap(y + row), color);
          }
          col := col + 1;
        }
        StampRow(was, stamp, x, y, 12, row);
        row := row + 1;
      }
    }

    method DrawStatus()
      requires Valid()
      modifies fb.buffer
      ensures fb.View() == if fb.available then WithStatus(old(fb.View()), fb.font, fb.width, ArrowInks(), At())
                           else old(fb.View())
    {
      hide PixelOf, PictureOf, Fits, FillRect, Border, TextOver, StatusText, Rgb;
      if !fb.available {
        return;
      }
      var panelX := PanelX(fb.width);
      fb.DrawFillRect(panelX, 12, STATUS_WIDTH, STATUS_HEIGHT, Rgb(15, 24, 36));
      fb.DrawRect(panelX, 12, STATUS_WIDTH, STATUS_HEIGHT, Rgb(67, 220, 210));
      fb.DrawString(Wrap(panelX + 8), 18, StatusText(At()), Rgb(232, 238, 245), Rgb(15, 24, 36));
    }

    // Puts the bytes of a place of the saved area back into a framebuffer pixel.
    method PutBytes(index: nat, pixel: nat)
      requires Valid() && index < 192 && pixel + fb.bpp / 8 <= fb.buffer.Length
      modifies fb.buffer
      ensures fb.buffer[pixel..pixel + fb.g.depth] == saved[index * 4..index * 4 + fb.g.depth]
      ensures forall k :: 0 <= k < fb.buffer.Length && !(pixel <= k < pixel + fb.g.depth) ==>
                fb.buffer[k] == old(fb.buffer[k])
    {
      hide Fits;
      var byte := 0;
      while byte < fb.bpp / 8
        invariant 0 <= byte <= fb.bpp / 8
        invariant fb.buffer[pixel..pixel + byte] == saved[index * 4..index * 4 + byte]
        invariant forall k :: 0 <= k < fb.buffer.Length && !(pixel <= k < pixel + fb.g.depth) ==>
                    fb.buffer[k] == old(fb.buffer[k])
      {
        fb.buffer[pixel + byte] := saved[index * 4 + byte];
        byte := byte + 1;
      }
    }

    lemma SavedBytes(index: nat) returns (bytes: Pixel)
      requires Valid() && index < 192 && valid[index]
      ensures |bytes| == fb.g.depth && bytes == saved[..][index * 4..index * 4 + fb.g.depth]
      ensures Marks()[index] == Stamped(bytes)
    {
      bytes := saved[..][index * 4..index * 4 + fb.g.depth];
    }

    method RestorePixel(index: nat, px: u32, py: u32)
      requires Valid() && index < 192 && valid[index] && px < fb.width && py < fb.height
      modifies fb.buffer
      ensures Marks()[index].Stamped? && fb.View() == Dot(old(fb.View()), px, py, Marks()[index].pixel)
    {
      hide Offset, Fits, PixelAt, PixelOf, Framebuffer.PixelOffset, PictureOf, Dot;
      ghost var before := fb.buffer[..];
      ghost var bytes := SavedBytes(index);
      hide PatchOf, CellOf;
      var pixel := fb.PixelOffset(px, py);
      PutBytes(index, pixel);
      assert bytes == saved[index * 4..index * 4 + fb.g.depth];
      assert fb.buffer[..][pixel..pixel + fb.g.depth] == bytes;
      PixelWritten(fb.g, before, fb.buffer[..], Pos(px, py), bytes);
    }

    method RestoreCell(row: u32, col: u32)
      requires Valid() && row < 16 && col < 12
      modifies fb.buffer
      ensures fb.View() == match Marks()[row * 12 + col]
                           case Through => old(fb.View())
                           case Stamped(pixel) => Dot(old(fb.View()), Wrap(x + col), Wrap(y + row), pixel)
    {
      hide Fits, Wrap, PictureOf, PixelOf;
      var index := row * 12 + col;
      var px, py := Wrap(x + col), Wrap(y + row);
      if !valid[index] || px >= fb.width || py >= fb.height {
        return;
      }
      RestorePixel(index, px, py);
    }

    method RestoreBackground()
      requires Valid()
      modifies fb.buffer
      ensures fb.View() == Over(old(fb.View()), Patch(Marks()), x, y, 12, 16)
    {
      hide PatchOf, CellOf, PictureOf, Fits, Partial, Dot, Wrap;
      ghost var stamp, was := Patch(Marks()), fb.View();
      StampNothing(was, stamp, x, y, 12);
      var row := 0;
      while row < 16
        invariant 0 <= row <= 16
        invariant fb.View() == Partial(was, stamp, x, y, 12, row, 0)
      {
        var col := 0;
        while col < 12
          invariant 0 <= col <= 12
          invariant fb.View() == Partial(was, stamp, x, y, 12, row, col)
        {
          StampStep(was, stamp, x, y, 12, row, col);
          RestoreCell(row, col);
          col := col + 1;
        }
        StampRow(was, stamp, x, y, 12, row);
        row := row + 1;
      }
    }

    // Afterwards the framebuffer shows what was hidden.
    method Hide()
      requires Valid()
      modifies `visible, fb.buffer
      ensures !visible && fb.View() == old(Hidden()) && Hidden() == old(Hidden())
    {
      hide PatchOf, CellOf, PictureOf, Fits, Over;
      if !visible || !fb.available {
        visible := false;
        return;
      }
      RestoreBackground();
      visible := false;
    }

    // The status panel becomes part of the hidden picture, the arrow does not.
    method ShowCurrent()
      requires Valid()
      modifies `visible, saved, valid, fb.buffer
      ensures !initialized || old(visible) || !fb.available ==>
                visible == old(visible) && fb.View() == old(fb.View()) && Hidden() == old(Hidden())
      ensures initialized && !old(visible) && fb.available ==>
                && visible
                && Hidden() == WithStatus(old(fb.View()), fb.font, fb.width, ArrowInks(), At())
                && fb.View() == WithArrow(Hidden(), ArrowInks(), x, y)
    {
      hide PatchOf, CellOf, PictureOf, Fits, Over, WithStatus, Saves, InWords;
      if !initialized || visible || !fb.available {
        return;
      }
      DrawStatus();
      ghost var hidden := fb.View();
      SaveBackground();
      assert fb.View() == hidden;
      DrawShape();
      visible := true;
      PutBack(Marks(), hidden, Arrow(ArrowInks().outline, ArrowInks().fill), x, y);
    }

    method Init(x: u32, y: u32)
      requires Valid()
      modifies this, saved, valid, fb.buffer
      ensures initialized == visible == fb.available
      ensures fb.available ==>
                && At() == Pointer(x, y, false, false, false)
                && Hidden() == WithStatus(old(fb.View()), fb.font, fb.width, ArrowInks(), At())
                && fb.View() == WithArrow(Hidden(), ArrowInks(), x, y)
      ensures !fb.available ==> fb.View() == old(fb.View())
    {
      hide Framebuffer.View, WithStatus, Over, Marks;
      if !fb.available {
        initialized, visible := false, false;
        return;
      }
      this.x, this.y := x, y;
      left, right, middle := false, false, false;
      initialized := true;
      visible := false;
      ShowCurrent();
    }

    /** Moving leaves no trail: the hidden picture changes by the status panel alone, and what is seen is the
        arrow on it at the new place. */
    method Move(x: u32, y: u32, left: bool, right: bool, middle: bool)
      requires Valid()
      modifies this, saved, valid, fb.buffer
      ensures initialized == old(initialized)
      ensures !initialized || !fb.available ==>
                visible == old(visible) && At() == old(At()) && Hidden() == old(Hidden())
                && fb.View() == old(fb.View())
      ensures initialized && fb.available ==>
                && visible && At() == Pointer(x, y, left, right, middle)
                && Hidden() == WithStatus(old(Hidden()), fb.font, fb.width, ArrowInks(), At())
                && fb.View() == WithArrow(Hidden(), ArrowInks(), x, y)
    {
      hide Framebuffer.View, WithStatus, WithArrow, Over, ArrowInks, Marks;
      if !initialized || !fb.available {
        return;
      }
      Hide();
      this.x, this.y := x, y;
      this.left, this.right, this.middle := left, right, middle;
      ShowCurrent();
    }

    method Invalidate()
      requires Valid()
      modifies `visible
      ensures !visible && Hidden() == fb.View() == old(fb.View())
    {
      visible := false;
    }
  }

  // ---------------------------------------------------------------- runs of moves

  ghost predicate Shows(g: Geometry, picture: Picture) {
    forall p :: p in picture <==> OnScreen(g, p)
  }

  lemma LetterInside(picture: Picture, x: u32, y: u32, glyph: Glyph, ink: Pixel, paper: Pixel, p: Pos)
    requires p in picture && 0 <= p.x && 0 <= p.y && p.x < 0x1_0000_0000 && p.y < 0x1_0000_0000
    requires x + 8 <= 0x1_0000_0000 && y + 8 <= 0x1_0000_0000
    requires !(x <= p.x < x + 8 && y <= p.y < y + 8)
    ensures p in LetterOver(picture, x, y, glyph, ink, paper)
    ensures LetterOver(picture, x, y, glyph, ink, paper)[p] == picture[p]
  {
    OverPoint(picture, Letter(glyph, ink, paper), x, y, 8, 8, p, Wrap(p.x - x), Wrap(p.y - y));
    hide MarkAt, Point;
  }

  // A string draws within a box of eight by eight pixels a letter.
  lemma {:induction false} TextInside(
    picture: Picture, font: char -> Glyph, x: u32, y: u32, text: string, i: nat, ink: Pixel, paper: Pixel, p: Pos)
    requires i <= |text| && p in picture && 0 <= p.x < 0x1_0000_0000 && 0 <= p.y < 0x1_0000_0000
    requires x + 8 * |text| <= 0x1_0000_0000 && y + 8 <= 0x1_0000_0000
    requires !(x <= p.x < x + 8 * |text| && y <= p.y < y + 8)
    ensures p in TextOver(picture, font, x, y, text, i, ink, paper)
    ensures TextOver(picture, font, x, y, text, i, ink, paper)[p] == picture[p]
    decreases |text| - i
  {
    hide Wrap, LetterOver;
    if i < |text| {
      WrapSmall(x + i * 8);
      var next := LetterOver(picture, x + i * 8, y, font(text[i]), ink, paper);
      assert TextOver(picture, font, x, y, text, i, ink, paper) == TextOver(next, font, x, y, text, i + 1, ink, paper);
      hide TextOver;
      LetterInside(picture, x + i * 8, y, font(text[i]), ink, paper, p);
      TextInside(next, font, x, y, text, i + 1, ink, paper, p);
    }
  }

  // The letters from some place on leave everything to their left alone.
  lemma {:induction false} TextBehind(
    picture: Picture, font: char -> Glyph, x: u32, y: u32, text: string, i: nat, ink: Pixel, paper: Pixel, p: Pos)
    requires i <= |text| && p in picture && 0 <= p.x < x + 8 * i && 0 <= p.y < 0x1_0000_0000
    requires x + 8 * |text| <= 0x1_0000_0000 && y + 8 <= 0x1_0000_0000
    ensures p in TextOver(picture, font, x, y, text, i, ink, paper)
    ensures TextOver(picture, font, x, y, text, i, ink, paper)[p] == picture[p]
    decreases |text| - i
  {
    hide Wrap, LetterOver;
    if i < |text| {
      WrapSmall(x + i * 8);
      var next := LetterOver(picture, x + i * 8, y, font(text[i]), ink, paper);
      assert TextOver(picture, font, x, y, text, i, ink, paper) == TextOver(next, font, x, y, text, i + 1, ink, paper);
      hide TextOver;
      LetterInside(picture, x + i * 8, y, font(text[i]), ink, paper, p);
      TextBehind(next, font, x, y, text, i + 1, ink, paper, p);
    }
  }

  lemma LetterShown(
    picture: Picture, x: u32, y: u32, glyph: Glyph, ink: Pixel, paper: Pixel, dx: nat, dy: nat)
    requires x + 8 <= 0x1_0000_0000 && y + 8 <= 0x1_0000_0000 && dx < 8 && dy < 8 && Pos(x + dx, y + dy) in picture
    ensures var p := Pos(x + dx, y + dy);
            p in LetterOver(picture, x, y, glyph, ink, paper)
            && LetterOver(picture, x, y, glyph, ink, paper)[p] == if Ink(glyph, dx, dy) then ink else paper
  {
    WrapSmall(dx);
    WrapSmall(dy);
    OverPoint(picture, Letter(glyph, ink, paper), x, y, 8, 8, Pos(x + dx, y + dy), dx, dy);
    hide Point, Wrap, Ink;
  }

  /** A text that does not run over the edge of the coordinates shows each of its letters in its own eight by eight
      pixels, the k-th one 8 k pixels from the start. */
  lemma {:induction false} TextShown(
    picture: Picture, font: char -> Glyph, x: u32, y: u32, text: string, i: nat, ink: Pixel, paper: Pixel,
    k: nat, dx: nat, dy: nat)
    requires i <= k < |text| && dx < 8 && dy < 8
    requires x + 8 * |text| <= 0x1_0000_0000 && y + 8 <= 0x1_0000_0000 && Pos(x + k * 8 + dx, y + dy) in picture
    ensures var p := Pos(x + k * 8 + dx, y + dy);
            p in TextOver(picture, font, x, y, text, i, ink, paper)
            && TextOver(picture, font, x, y, text, i, ink, paper)[p] ==
               if Ink(font(text[k]), dx, dy) then ink else paper
    decreases |text| - i
  {
    hide Wrap, LetterOver, Ink;
    var p := Pos(x + k * 8 + dx, y + dy);
    WrapSmall(x + i * 8);
    var next := LetterOver(picture, x + i * 8, y, font(text[i]), ink, paper);
    assert TextOver(picture, font, x, y, text, i, ink, paper) == TextOver(next, font, x, y, text, i + 1, ink, paper);
    hide TextOver;
    if i < k {
      LetterInside(picture, x + i * 8, y, font(text[i]), ink, paper, p);
      TextShown(next, font, x, y, text, i + 1, ink, paper, k, dx, dy);
    } else {
      LetterShown(picture, x + i * 8, y, font(text[i]), ink, paper, dx, dy);
      TextBehind(next, font, x, y, text, i + 1, ink, paper, p);
    }
  }

  // The arrow's columns in a row: a triangle of eight rows, and a tail that leaves it to the right.
  predicate InArrow(row: int, col: int) {
    || (0 <= row <= 7 && 0 <= col <= row)
    || (row == 8 && 0 <= col <= 5)
    || (row == 9 && (0 <= col <= 1 || 3 <= col <= 5))
    || (row == 10 && (col == 0 || 4 <= col <= 6))
    || (row == 11 && 5 <= col <= 6)
    || (12 <= row <= 13 && 6 <= col <= 7)
    || (row == 14 && 7 <= col <= 8)
  }

  /** Where the arrow lies, its pixels with a neighbour outside it are in the outline's colour and the others in the
      fill's; everything else is left as it was. Its tip is the pointer's place. */
  lemma ArrowShown(picture: Picture, inks: Inks, x: u32, y: u32, p: Pos)
    requires p in picture && x <= p.x && y <= p.y && p.x < 0x1_0000_0000 && p.y < 0x1_0000_0000
    ensures var over, row, col := WithArrow(picture, inks, x, y), p.y - y, p.x - x;
            && p in over
            && over[p] == if !InArrow(row, col) then picture[p]
                          else if forall r, c :: row - 1 <= r <= row + 1 && col - 1 <= c <= col + 1 ==> InArrow(r, c)
                          then inks.fill
                          else inks.outline
  {
    var row, col := p.y - y, p.x - x;
    WrapSmall(row);
    WrapSmall(col);
    OverPoint(picture, Arrow(inks.outline, inks.fill), x, y, 12, 16, p, col, row);
    forall r, c ensures BodyPixel(r, c) == InArrow(r, c) {
      BodyIsArrow(r, c);
    }
    hide Point, Wrap, BodyPixel, InArrow;
  }

  lemma BodyIsArrow(row: int, col: int)
    ensures BodyPixel(row, col) <==> InArrow(row, col)
  {
    if 0 <= row < 16 && 0 <= col < 12 {
      hide BodyPixel, InArrow;
      if row < 8 {
        TriangleRow(row, col);
      } else {
        TailRow(row, col);
      }
    }
  }

  // The bit of a column in a row of the arrow.
  function Bit(col: nat): bv16 {
    if col == 0 then 2048 else
    if col == 1 then 1024 else
    if col == 2 then 512 else
    if col == 3 then 256 else
    if col == 4 then 128 else
    if col == 5 then 64 else
    if col == 6 then 32 else
    if col == 7 then 16 else
    if col == 8 then 8 else
    if col == 9 then 4 else
    if col == 10 then 2 else 1
  }

  lemma ColumnBit(col: nat)
    requires col < 12
    ensures (1 as bv16) << (11 - col) == Bit(col)
  {
    if col == 0 {
    } else if col == 1 {
    } else if col == 2 {
    } else if col == 3 {
    } else if col == 4 {
    } else if col == 5 {
    } else if col == 6 {
    } else if col == 7 {
    } else if col == 8 {
    } else if col == 9 {
    } else if col == 10 {
    }
  }

  lemma TriangleRow(row: nat, col: nat)
    requires row < 8 && col < 12
    ensures BodyPixel(row, col) <==> InArrow(row, col)
  {
    ColumnBit(col);
    if row == 0 {
    } else if row == 1 {
    } else if row == 2 {
    } else if row == 3 {
    } else if row == 4 {
    } else if row == 5 {
    } else if row == 6 {
    }
  }

  lemma TailRow(row: nat, col: nat)
    requires 8 <= row < 16 && col < 12
    ensures BodyPixel(row, col) <==> InArrow(row, col)
  {
    ColumnBit(col);
    if row == 8 {
    } else if row == 9 {
    } else if row == 10 {
    } else if row == 11 {
    } else if row == 12 {
    } else if row == 13 {
    } else if row == 14 {
    }
  }

  // What the panel and its text can reach: to the right the text may run out of the panel.
  predicate InStatus(width: u32, length: nat, p: Pos) {
    12 <= p.y < 32 && PanelX(width) <= p.x < PanelX(width) + Max(320, 8 + 8 * length)
  }

  lemma BorderInside(picture: Picture, x: u32, pixel: Pixel, p: Pos)
    requires p in picture && x + 320 <= 0x1_0000_0000
    requires !(12 <= p.y < 32 && x <= p.x < x + 320)
    ensures p in Border(picture, x, 12, 320, 20, pixel) && Border(picture, x, 12, 320, 20, pixel)[p] == picture[p]
  {
    assert Wrap(x + 319) == x + 319 && Wrap(31) == 31;
  }

  lemma FillInside(picture: Picture, x: u32, pixel: Pixel, p: Pos)
    requires p in picture && !(12 <= p.y < 32 && x <= p.x < x + 320)
    ensures p in FillRect(picture, x, 12, 320, 20, pixel) && FillRect(picture, x, 12, 320, 20, pixel)[p] == picture[p]
  {
  }

  lemma {:induction false} DecimalLength(n: nat, digits: nat, power: nat)
    requires digits > 0 && n < power && power == Tens(digits)
    ensures |Decimal(n)| <= digits
  {
    if n >= 10 {
      DecimalLength(n / 10, digits - 1, power / 10);
    }
  }

  function Tens(digits: nat): nat {
    if digits == 0 then 1 else 10 * Tens(digits - 1)
  }

  lemma StatusTextFits(p: Pointer)
    ensures |CStr(StatusText(p))| <= 43
  {
    assert Tens(5) == 100000;
    assert Tens(10) == 10000000000;
    DecimalLength(p.x, 10, 10000000000);
    DecimalLength(p.y, 10, 10000000000);
  }

  lemma PanelInside(
    g: Geometry, length: nat, panel: Picture, font: char -> Glyph, inks: Inks, pointer: Pointer, p: Pos)
    requires Fits(g, length) && OnScreen(g, p) && p in panel
    requires !InStatus(g.width, |CStr(StatusText(pointer))|, p)
    ensures p in OnPanel(panel, font, g.width, inks, pointer)
    ensures OnPanel(panel, font, g.width, inks, pointer)[p] == panel[p]
  {
    StatusTextFits(pointer);
    NarrowScreen(g, length);
    hide Wrap, StatusText, CStr, Border, TextOver, Fits;
    var x, text := PanelX(g.width), CStr(StatusText(pointer));
    WrapSmall(x + 8);
    BorderInside(panel, x, inks.border, p);
    TextInside(Border(panel, x, 12, 320, 20, inks.border), font, x + 8, 18, text, 0, inks.text, inks.panel, p);
  }

  lemma StatusInside(
    g: Geometry, length: nat, picture: Picture, font: char -> Glyph, inks: Inks, pointer: Pointer, p: Pos)
    requires Fits(g, length) && OnScreen(g, p) && p in picture
    requires !InStatus(g.width, |CStr(StatusText(pointer))|, p)
    ensures p in WithStatus(picture, font, g.width, inks, pointer)
    ensures WithStatus(picture, font, g.width, inks, pointer)[p] == picture[p]
  {
    assert g.width < 0x1_0000_0000;
    hide Fits, StatusText, CStr, OnPanel, FillRect;
    FillInside(picture, PanelX(g.width), inks.panel, p);
    PanelInside(g, length, FillRect(picture, PanelX(g.width), 12, 320, 20, inks.panel), font, inks, pointer, p);
  }

  lemma NarrowScreen(g: Geometry, length: nat)
    requires Fits(g, length)
    ensures g.width <= 0x8000_0000
  {
    Ordered(1, g.height, g.pitch);
    assert g.pitch <= g.height * g.pitch;
    assert g.width * 2 <= g.width * g.depth by { Ordered(2, g.depth, g.width); }
  }

  // The hidden picture after a run of moves.
  ghost function Moved(picture: Picture, font: char -> Glyph, width: u32, inks: Inks, moves: seq<Pointer>): Picture {
    if moves == [] then picture
    else WithStatus(Moved(picture, font, width, inks, moves[..|moves| - 1]), font, width, inks, moves[|moves| - 1])
  }

  lemma {:induction false} TextDomain(
    picture: Picture, font: char -> Glyph, x: u32, y: u32, text: string, i: nat, ink: Pixel, paper: Pixel)
    requires i <= |text|
    ensures TextOver(picture, font, x, y, text, i, ink, paper).Keys == picture.Keys
    decreases |text| - i
  {
    if i < |text| {
      var next := LetterOver(picture, Wrap(x + i * 8), y, font(text[i]), ink, paper);
      assert next.Keys == picture.Keys;
      hide LetterOver;
      TextDomain(next, font, x, y, text, i + 1, ink, paper);
    }
  }

  lemma BorderDomain(picture: Picture, x: u32, y: u32, width: u32, height: u32, pixel: Pixel)
    ensures Border(picture, x, y, width, height, pixel).Keys == picture.Keys
  {
    hide Wrap;
  }

  lemma StatusDomain(picture: Picture, font: char -> Glyph, width: u32, inks: Inks, pointer: Pointer)
    ensures WithStatus(picture, font, width, inks, pointer).Keys == picture.Keys
  {
    var x := PanelX(width);
    var panel := FillRect(picture, x, 12, 320, 20, inks.panel);
    assert panel.Keys == picture.Keys;
    hide Border, TextOver, FillRect, CStr, StatusText, Wrap;
    BorderDomain(panel, x, 12, 320, 20, inks.border);
    TextDomain(Border(panel, x, 12, 320, 20, inks.border), font, Wrap(x + 8), 18, CStr(StatusText(pointer)), 0,
               inks.text, inks.panel);
  }

  lemma {:induction false} MovedDomain(
    picture: Picture, font: char -> Glyph, width: u32, inks: Inks, moves: seq<Pointer>)
    ensures Moved(picture, font, width, inks, moves).Keys == picture.Keys
  {
    if moves != [] {
      MovedDomain(picture, font, width, inks, moves[..|moves| - 1]);
      StatusDomain(Moved(picture, font, width, inks, moves[..|moves| - 1]), font, width, inks, moves[|moves| - 1]);
      hide WithStatus;
    }
  }

  /** Over any run of moves the hidden picture keeps every pixel outside the status panel's reach. */
  lemma {:induction false} NoTrail(
    g: Geometry, length: nat, picture: Picture, font: char -> Glyph, inks: Inks, moves: seq<Pointer>, p: Pos)
    requires Fits(g, length) && Shows(g, picture) && OnScreen(g, p) && !InStatus(g.width, 43, p)
    ensures p in Moved(picture, font, g.width, inks, moves)
    ensures Moved(picture, font, g.width, inks, moves)[p] == picture[p]
  {
    if moves != [] {
      var before, last := moves[..|moves| - 1], moves[|moves| - 1];
      NoTrail(g, length, picture, font, inks, before, p);
      MovedDomain(picture, font, g.width, inks, before);
      StatusTextFits(last);
      hide WithStatus, Fits, StatusText, CStr;
      StatusInside(g, length, Moved(picture, font, g.width, inks, before), font, inks, last, p);
    }
  }

  lemma ShortStatus(p: Pointer)
    requires p.x < 100_000_000 && p.y < 100_000_000
    ensures |CStr(StatusText(p))| <= 39
  {
    assert Tens(4) == 10000;
    assert Tens(8) == 100000000;
    DecimalLength(p.x, 8, 100000000);
    DecimalLength(p.y, 8, 100000000);
  }

  lemma FillAgain(before: Picture, after: Picture, x: u32, pixel: Pixel)
    requires after.Keys == before.Keys
    requires forall p :: p in before && !(12 <= p.y < 32 && x <= p.x < x + 320) ==> after[p] == before[p]
    ensures FillRect(after, x, 12, 320, 20, pixel) == FillRect(before, x, 12, 320, 20, pixel)
  {
  }

  lemma StatusWithin(g: Geometry, length: nat, picture: Picture, font: char -> Glyph, inks: Inks, pointer: Pointer)
    requires Fits(g, length) && Shows(g, picture) && pointer.x < 100_000_000 && pointer.y < 100_000_000
    ensures var once, x := WithStatus(picture, font, g.width, inks, pointer), PanelX(g.width);
            once.Keys == picture.Keys
            && forall p :: p in picture && !(12 <= p.y < 32 && x <= p.x < x + 320) ==> once[p] == picture[p]
  {
    StatusDomain(picture, font, g.width, inks, pointer);
    ShortStatus(pointer);
    hide WithStatus, Fits, StatusText, CStr, PanelX;
    forall p | p in picture && !(12 <= p.y < 32 && PanelX(g.width) <= p.x < PanelX(g.width) + 320)
      ensures WithStatus(picture, font, g.width, inks, pointer)[p] == picture[p]
    {
      StatusInside(g, length, picture, font, inks, pointer, p);
    }
  }

  // A status panel covers the one before it, when its text stays inside.
  lemma StatusAgain(
    g: Geometry, length: nat, picture: Picture, font: char -> Glyph, inks: Inks, first: Pointer, second: Pointer)
    requires Fits(g, length) && Shows(g, picture) && first.x < 100_000_000 && first.y < 100_000_000
    ensures WithStatus(WithStatus(picture, font, g.width, inks, first), font, g.width, inks, second) ==
            WithStatus(picture, font, g.width, inks, second)
  {
    var once := WithStatus(picture, font, g.width, inks, first);
    StatusWithin(g, length, picture, font, inks, first);
    hide WithStatus, Fits, PanelX, FillRect, OnPanel;
    FillAgain(picture, once, PanelX(g.width), inks.panel);
    StatusOf(picture, font, g.width, inks, second);
    StatusOf(once, font, g.width, inks, second);
  }

  lemma StatusOf(picture: Picture, font: char -> Glyph, width: u32, inks: Inks, p: Pointer)
    ensures WithStatus(picture, font, width, inks, p) ==
            OnPanel(FillRect(picture, PanelX(width), 12, 320, 20, inks.panel), font, width, inks, p)
  {
  }

  /** Over a run of moves with coordinates below 10^8, only the last status panel shows in the hidden picture. */
  lemma {:induction false} OnlyLastStatus(
    g: Geometry, length: nat, picture: Picture, font: char -> Glyph, inks: Inks, moves: seq<Pointer>)
    requires Fits(g, length) && Shows(g, picture)
    requires forall i :: 0 <= i < |moves| ==> moves[i].x < 100_000_000 && moves[i].y < 100_000_000
    ensures Moved(picture, font, g.width, inks, moves) ==
            if moves == [] then picture else WithStatus(picture, font, g.width, inks, moves[|moves| - 1])
  {
    if moves != [] {
      var before := moves[..|moves| - 1];
      OnlyLastStatus(g, length, picture, font, inks, before);
      hide WithStatus, Fits;
      if before != [] {
        StatusAgain(g, length, picture, font, inks, before[|before| - 1], moves[|moves| - 1]);
      }
    }
  }

  // Drawing is pointwise: what it leaves at a place depends on the picture there alone.
  lemma LetterPointwise(a: Picture, b: Picture, x: u32, y: u32, glyph: Glyph, ink: Pixel, paper: Pixel, p: Pos)
    requires p in a && p in b && a[p] == b[p]
    ensures p in LetterOver(a, x, y, glyph, ink, paper) && p in LetterOver(b, x, y, glyph, ink, paper)
    ensures LetterOver(a, x, y, glyph, ink, paper)[p] == LetterOver(b, x, y, glyph, ink, paper)[p]
  {
    hide Wrap, Point;
  }

  lemma {:induction false} TextPointwise(
    a: Picture, b: Picture, font: char -> Glyph, x: u32, y: u32, text: string, i: nat, ink: Pixel, paper: Pixel, p: Pos)
    requires i <= |text| && p in a && p in b && a[p] == b[p]
    ensures p in TextOver(a, font, x, y, text, i, ink, paper) && p in TextOver(b, font, x, y, text, i, ink, paper)
    ensures TextOver(a, font, x, y, text, i, ink, paper)[p] == TextOver(b, font, x, y, text, i, ink, paper)[p]
    decreases |text| - i
  {
    hide Wrap, LetterOver;
    if i < |text| {
      var to, glyph := Wrap(x + i * 8), font(text[i]);
      LetterPointwise(a, b, to, y, glyph, ink, paper, p);
      TextPointwise(LetterOver(a, to, y, glyph, ink, paper), LetterOver(b, to, y, glyph, ink, paper),
                    font, x, y, text, i + 1, ink, paper, p);
    }
  }

  lemma BorderPointwise(a: Picture, b: Picture, x: u32, pixel: Pixel, p: Pos)
    requires p in a && p in b && a[p] == b[p]
    ensures p in Border(a, x, 12, 320, 20, pixel) && p in Border(b, x, 12, 320, 20, pixel)
    ensures Border(a, x, 12, 320, 20, pixel)[p] == Border(b, x, 12, 320, 20, pixel)[p]
  {
    hide Wrap;
  }

  lemma StatusPointwise(
    a: Picture, b: Picture, font: char -> Glyph, width: u32, inks: Inks, pointer: Pointer, p: Pos)
    requires p in a && p in b
    requires a[p] == b[p] || (12 <= p.y < 32 && PanelX(width) <= p.x < PanelX(width) + 320)
    ensures p in WithStatus(a, font, width, inks, pointer) && p in WithStatus(b, font, width, inks, pointer)
    ensures WithStatus(a, font, width, inks, pointer)[p] == WithStatus(b, font, width, inks, pointer)[p]
  {
    var x := PanelX(width);
    var one, other := FillRect(a, x, 12, 320, 20, inks.panel), FillRect(b, x, 12, 320, 20, inks.panel);
    assert p in one && p in other && one[p] == other[p];
    hide Border, TextOver, CStr, StatusText, Wrap, FillRect;
    BorderPointwise(one, other, x, inks.border, p);
    TextPointwise(Border(one, x, 12, 320, 20, inks.border), Border(other, x, 12, 320, 20, inks.border), font,
                  Wrap(x + 8), 18, CStr(StatusText(pointer)), 0, inks.text, inks.panel, p);
  }

  /** Over any run of moves, with any coordinates, the hidden picture is the start with the last status panel drawn
      on it, at every pixel but those of the strip of 32 to the panel's right that a long text runs into. */
  lemma LastStatusShows(
    g: Geometry, length: nat, picture: Picture, font: char -> Glyph, inks: Inks, moves: seq<Pointer>, p: Pos)
    requires Fits(g, length) && Shows(g, picture) && OnScreen(g, p) && moves != []
    requires !(12 <= p.y < 32 && PanelX(g.width) + 320 <= p.x < PanelX(g.width) + 352)
    ensures p in Moved(picture, font, g.width, inks, moves)
    ensures p in WithStatus(picture, font, g.width, inks, moves[|moves| - 1])
    ensures Moved(picture, font, g.width, inks, moves)[p] ==
            WithStatus(picture, font, g.width, inks, moves[|moves| - 1])[p]
  {
    var before, last := moves[..|moves| - 1], moves[|moves| - 1];
    MovedDomain(picture, font, g.width, inks, before);
    if !InStatus(g.width, 43, p) {
      NoTrail(g, length, picture, font, inks, before, p);
    }
    assert g.width < 0x1_0000_0000;
    hide Fits, WithStatus;
    StatusPointwise(Moved(picture, font, g.width, inks, before), picture, font, g.width, inks, last, p);
  }
}
