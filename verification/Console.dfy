/** The text console: a grid of cells with wrap and scroll, and the picture that must stay its rendering. */
module Console {
  import opened Word
  import opened Text
  import opened Framebuffer
  import opened Cursor

  // ---------------------------------------------------------------- the terminal

  datatype Cell = Blank(paper: Color) | Glyphed(c: char, ink: Color, paper: Color)

  type Grid = seq<seq<Cell>>

  datatype Terminal = Terminal(columns: nat, rows: nat, grid: Grid, x: nat, y: nat, ink: Color, paper: Color)

  predicate Sized(grid: Grid, columns: nat, rows: nat) {
    |grid| == rows && forall r :: 0 <= r < rows ==> |grid[r]| == columns
  }

  predicate TerminalInv(t: Terminal) {
    t.columns > 0 && t.rows > 0 && Sized(t.grid, t.columns, t.rows) && t.x <= t.columns && t.y < t.rows
  }

  function BlankRow(columns: nat, paper: Color): (row: seq<Cell>)
    ensures |row| == columns
  {
    seq(columns, _ => Blank(paper))
  }

  function BlankGrid(columns: nat, rows: nat, paper: Color): (grid: Grid)
    ensures Sized(grid, columns, rows)
  {
    seq(rows, _ => BlankRow(columns, paper))
  }

  function ScrolledGrid(grid: Grid, columns: nat, paper: Color): (scrolled: Grid)
    requires |grid| > 0 && Sized(grid, columns, |grid|)
    ensures Sized(scrolled, columns, |grid|)
  {
    grid[1..] + [BlankRow(columns, paper)]
  }

  function WithCell(grid: Grid, columns: nat, x: nat, y: nat, cell: Cell): (changed: Grid)
    requires y < |grid| && x < columns && Sized(grid, columns, |grid|)
    ensures Sized(changed, columns, |grid|)
  {
    grid[y := grid[y][x := cell]]
  }

  function Cleared(t: Terminal): Terminal {
    t.(grid := BlankGrid(t.columns, t.rows, t.paper), x := 0, y := 0)
  }

  function NewLine(t: Terminal): (r: Terminal)
    requires TerminalInv(t)
    ensures TerminalInv(r) && r.x == 0
    ensures r.columns == t.columns && r.rows == t.rows
  {
    if t.y + 1 >= t.rows then t.(x := 0, y := t.rows - 1, grid := ScrolledGrid(t.grid, t.columns, t.paper))
    else t.(x := 0, y := t.y + 1)
  }

  lemma ClearedInv(t: Terminal)
    requires TerminalInv(t)
    ensures TerminalInv(Cleared(t)) && |t.grid| == t.rows
  {
  }

  lemma ScrolledInv(t: Terminal)
    requires TerminalInv(t)
    ensures TerminalInv(t.(grid := ScrolledGrid(t.grid, t.columns, t.paper)))
    ensures |t.grid| == t.rows > 0
  {
  }

  function BackOne(t: Terminal): (r: Terminal)
    requires TerminalInv(t)
    ensures TerminalInv(r)
    ensures r.columns == t.columns && r.rows == t.rows
    ensures t.x < t.columns ==> r.x < r.columns
  {
    if t.x == 0 && t.y == 0 then t
    else
      var (x, y) := if t.x == 0 then (t.columns - 1, t.y - 1) else (t.x - 1, t.y);
      t.(x := x, y := y, grid := WithCell(t.grid, t.columns, x, y, Blank(t.paper)))
  }

  function PutPlain(t: Terminal, c: char): (r: Terminal)
    requires TerminalInv(t)
    ensures TerminalInv(r) && r.x < r.columns
    ensures r.columns == t.columns && r.rows == t.rows
  {
    var at := if t.x >= t.columns then NewLine(t) else t;
    var put := at.(grid := WithCell(at.grid, at.columns, at.x, at.y, Glyphed(c, at.ink, at.paper)), x := at.x + 1);
    if put.x >= put.columns then NewLine(put) else put
  }

  function Spaces(t: Terminal, n: nat): (r: Terminal)
    requires TerminalInv(t)
    ensures TerminalInv(r)
    ensures r.columns == t.columns && r.rows == t.rows
    ensures t.x < t.columns ==> r.x < r.columns
  {
    if n == 0 then t else PutPlain(Spaces(t, n - 1), ' ')
  }

  function Put(t: Terminal, c: char): (r: Terminal)
    requires TerminalInv(t)
    ensures TerminalInv(r)
    ensures r.columns == t.columns && r.rows == t.rows
    ensures t.x < t.columns ==> r.x < r.columns
  {
    if c == '\n' then NewLine(t)
    else if c == '\r' then t.(x := 0)
    else if c as int == 8 then BackOne(t)
    else if c == '\t' then Spaces(t, 4)
    else PutPlain(t, c)
  }

  function PutAll(t: Terminal, text: string): (r: Terminal)
    requires TerminalInv(t)
    ensures TerminalInv(r)
    ensures r.columns == t.columns && r.rows == t.rows
    ensures t.x < t.columns ==> r.x < r.columns
    decreases |text|
  {
    if text == "" then t else PutAll(Put(t, text[0]), text[1..])
  }

  function Placed(t: Terminal, column: nat, row: nat): (r: Terminal)
    requires TerminalInv(t)
    ensures TerminalInv(r) && r.x < r.columns
  {
    t.(x := Min(column, t.columns - 1), y := Min(row, t.rows - 1))
  }

  // ---------------------------------------------------------------- the rendering

  ghost function CellPixel(fb: Framebuffer, cell: Cell, dx: nat, dy: nat): Pixel
    requires fb.Valid()
  {
    match cell
    case Blank(paper) => fb.Shade(paper)
    case Glyphed(c, ink, paper) => if Ink(fb.font(c), dx, dy) then fb.Shade(ink) else fb.Shade(paper)
  }

  // Which cell a pixel coordinate is in, and where in the cell.
  function CellNo(v: nat): nat {
    v / 8
  }

  function Part(v: nat): nat {
    v % 8
  }

  lemma Eighths(v: nat)
    ensures v == CellNo(v) * 8 + Part(v) && Part(v) < 8
  {
  }

  lemma NextRow(v: nat)
    ensures CellNo(v + 8) == CellNo(v) + 1 && Part(v + 8) == Part(v)
  {
  }

  predicate InText(columns: nat, rows: nat, p: Pos) {
    0 <= p.x < columns * 8 && 0 <= p.y < rows * 8
  }

  ghost predicate RendersAt(fb: Framebuffer, picture: Picture, grid: Grid, columns: nat, p: Pos)
    requires fb.Valid() && Sized(grid, columns, |grid|) && InText(columns, |grid|, p)
  {
    Eighths(p.x);
    Eighths(p.y);
    && p in picture
    && picture[p] == CellPixel(fb, grid[CellNo(p.y)][CellNo(p.x)], Part(p.x), Part(p.y))
  }

  // Every pixel of the text area shows its cell.
  ghost predicate Renders(fb: Framebuffer, picture: Picture, grid: Grid, columns: nat)
    requires fb.Valid() && Sized(grid, columns, |grid|)
  {
    forall p :: InText(columns, |grid|, p) ==> RendersAt(fb, picture, grid, columns, p)
  }

  // The picture one text row further up, as far as it goes.
  ghost function Raised(picture: Picture, rows: int): Picture {
    imap p: Pos | p in picture ::
      if p.y < rows && Pos(p.x, p.y + 8) in picture then picture[Pos(p.x, p.y + 8)] else picture[p]
  }

  // What scrolling makes of a picture; a screen of at most eight pixel rows does not scroll.
  ghost function ScrolledPicture(fb: Framebuffer, picture: Picture, paper: Color): Picture
    requires fb.Valid()
  {
    if fb.height <= 8 then picture
    else FillRect(Raised(picture, fb.height - 8), 0, fb.height - 8, fb.width, 8, fb.Shade(paper))
  }

  // The screen holds the whole text area.
  ghost predicate Fitting(fb: Framebuffer, picture: Picture, grid: Grid, columns: nat) {
    && fb.Valid() && Shows(fb.g, picture)
    && columns * 8 <= fb.width < columns * 8 + 8 && |grid| * 8 <= fb.height < |grid| * 8 + 8
    && Sized(grid, columns, |grid|)
  }

  lemma ClearRenders(fb: Framebuffer, picture: Picture, paper: Color, columns: nat, rows: nat)
    requires Fitting(fb, picture, BlankGrid(columns, rows, paper), columns)
    ensures Renders(fb, Filled(picture, 0, 0, fb.width, fb.height, fb.Shade(paper)),
                    BlankGrid(columns, rows, paper), columns)
  {
    hide Fits, PixelOf, CellNo, Part;
    forall p | InText(columns, rows, p)
      ensures RendersAt(fb, Filled(picture, 0, 0, fb.width, fb.height, fb.Shade(paper)),
                        BlankGrid(columns, rows, paper), columns, p)
    {
      Eighths(p.x);
      Eighths(p.y);
    }
  }

  lemma Near(a: u32, b: u32)
    requires b + 8 <= 0x1_0000_0000
    ensures Wrap(a - b) < 8 <==> b <= a < b + 8
    ensures b <= a ==> Wrap(a - b) == a - b
  {
  }

  lemma LetterAt(picture: Picture, x: u32, y: u32, glyph: Glyph, ink: Pixel, paper: Pixel, p: Pos)
    requires p in picture && InWords(picture) && x + 8 <= 0x1_0000_0000 && y + 8 <= 0x1_0000_0000
    ensures p in LetterOver(picture, x, y, glyph, ink, paper)
    ensures LetterOver(picture, x, y, glyph, ink, paper)[p] ==
            if x <= p.x < x + 8 && y <= p.y < y + 8 then (if Ink(glyph, p.x - x, p.y - y) then ink else paper)
            else picture[p]
  {
    Near(p.x, x);
    Near(p.y, y);
    OverPoint(picture, Letter(glyph, ink, paper), x, y, 8, 8, p, Wrap(p.x - x), Wrap(p.y - y));
    hide Wrap, Ink, Point;
  }

  lemma LetterRendersAt(
    fb: Framebuffer, picture: Picture, grid: Grid, columns: nat, x: nat, y: nat, c: char, ink: Color, paper: Color, p: Pos)
    requires Fitting(fb, picture, grid, columns) && x < columns && y < |grid|
    requires InText(columns, |grid|, p) && RendersAt(fb, picture, grid, columns, p)
    ensures RendersAt(fb, LetterOver(picture, x * 8, y * 8, fb.font(c), fb.Shade(ink), fb.Shade(paper)),
                      WithCell(grid, columns, x, y, Glyphed(c, ink, paper)), columns, p)
  {
    hide Fits, PixelOf, CellNo, Part, LetterOver, Ink;
    Eighths(p.x);
    Eighths(p.y);
    LetterAt(picture, x * 8, y * 8, fb.font(c), fb.Shade(ink), fb.Shade(paper), p);
  }

  lemma LetterRenders(
    fb: Framebuffer, picture: Picture, grid: Grid, columns: nat, x: nat, y: nat, c: char, ink: Color, paper: Color)
    requires Fitting(fb, picture, grid, columns) && Renders(fb, picture, grid, columns) && x < columns && y < |grid|
    ensures Renders(fb, LetterOver(picture, x * 8, y * 8, fb.font(c), fb.Shade(ink), fb.Shade(paper)),
                    WithCell(grid, columns, x, y, Glyphed(c, ink, paper)), columns)
  {
    var over := LetterOver(picture, x * 8, y * 8, fb.font(c), fb.Shade(ink), fb.Shade(paper));
    var changed := WithCell(grid, columns, x, y, Glyphed(c, ink, paper));
    hide Fits, PixelOf, LetterOver, RendersAt;
    forall p | InText(columns, |grid|, p)
      ensures RendersAt(fb, over, changed, columns, p)
    {
      LetterRendersAt(fb, picture, grid, columns, x, y, c, ink, paper, p);
    }
  }

  lemma BlankRendersAt(
    fb: Framebuffer, picture: Picture, grid: Grid, columns: nat, x: nat, y: nat, paper: Color, p: Pos)
    requires Fitting(fb, picture, grid, columns) && x < columns && y < |grid|
    requires InText(columns, |grid|, p) && RendersAt(fb, picture, grid, columns, p)
    ensures RendersAt(fb, FillRect(picture, x * 8, y * 8, 8, 8, fb.Shade(paper)),
                      WithCell(grid, columns, x, y, Blank(paper)), columns, p)
  {
    hide Fits, PixelOf, CellNo, Part, Ink;
    Eighths(p.x);
    Eighths(p.y);
  }

  lemma BlankRenders(fb: Framebuffer, picture: Picture, grid: Grid, columns: nat, x: nat, y: nat, paper: Color)
    requires Fitting(fb, picture, grid, columns) && Renders(fb, picture, grid, columns) && x < columns && y < |grid|
    ensures Renders(fb, FillRect(picture, x * 8, y * 8, 8, 8, fb.Shade(paper)),
                    WithCell(grid, columns, x, y, Blank(paper)), columns)
  {
    var over := FillRect(picture, x * 8, y * 8, 8, 8, fb.Shade(paper));
    var changed := WithCell(grid, columns, x, y, Blank(paper));
    hide Fits, PixelOf, FillRect, RendersAt;
    forall p | InText(columns, |grid|, p)
      ensures RendersAt(fb, over, changed, columns, p)
    {
      BlankRendersAt(fb, picture, grid, columns, x, y, paper, p);
    }
  }

  lemma RaisedAt(fb: Framebuffer, picture: Picture, paper: Color, p: Pos)
    requires fb.Valid() && Shows(fb.g, picture) && fb.height > 8 && OnScreen(fb.g, p)
    ensures p in ScrolledPicture(fb, picture, paper)
    ensures ScrolledPicture(fb, picture, paper)[p] ==
            if p.y < fb.height - 8 then picture[Pos(p.x, p.y + 8)] else fb.Shade(paper)
  {
    hide Fits, PixelOf;
  }

  lemma ScrolledRow(grid: Grid, columns: nat, paper: Color, r: nat)
    requires r < |grid| && Sized(grid, columns, |grid|)
    ensures ScrolledGrid(grid, columns, paper)[r] ==
            if r + 1 < |grid| then grid[r + 1] else BlankRow(columns, paper)
  {
  }

  lemma MovedRendersAt(fb: Framebuffer, picture: Picture, grid: Grid, columns: nat, paper: Color, p: Pos)
    requires Fitting(fb, picture, grid, columns) && fb.height == |grid| * 8 && |grid| >= 2
    requires InText(columns, |grid|, p) && p.y < fb.height - 8
    requires RendersAt(fb, picture, grid, columns, Pos(p.x, p.y + 8))
    ensures RendersAt(fb, ScrolledPicture(fb, picture, paper), ScrolledGrid(grid, columns, paper), columns, p)
  {
    RaisedAt(fb, picture, paper, p);
    hide Fits, PixelOf, CellNo, Part, ScrolledPicture, ScrolledGrid, CellPixel;
    NextRow(p.y);
    Eighths(p.y);
    ScrolledRow(grid, columns, paper, CellNo(p.y));
  }

  lemma LastRendersAt(fb: Framebuffer, picture: Picture, grid: Grid, columns: nat, paper: Color, p: Pos)
    requires Fitting(fb, picture, grid, columns) && fb.height == |grid| * 8 && |grid| >= 2
    requires InText(columns, |grid|, p) && p.y >= fb.height - 8
    ensures RendersAt(fb, ScrolledPicture(fb, picture, paper), ScrolledGrid(grid, columns, paper), columns, p)
  {
    RaisedAt(fb, picture, paper, p);
    hide Fits, PixelOf, CellNo, Part, ScrolledPicture, ScrolledGrid, Ink;
    Eighths(p.x);
    Eighths(p.y);
    ScrolledRow(grid, columns, paper, CellNo(p.y));
  }

  lemma ScrollRenders(fb: Framebuffer, picture: Picture, grid: Grid, columns: nat, paper: Color)
    requires Fitting(fb, picture, grid, columns) && fb.height == |grid| * 8 && |grid| >= 2
    requires Renders(fb, picture, grid, columns)
    ensures Renders(fb, ScrolledPicture(fb, picture, paper), ScrolledGrid(grid, columns, paper), columns)
  {
    hide Fits, PixelOf, RendersAt, ScrolledPicture, ScrolledGrid;
    forall p | InText(columns, |grid|, p)
      ensures RendersAt(fb, ScrolledPicture(fb, picture, paper), ScrolledGrid(grid, columns, paper), columns, p)
    {
      if p.y < fb.height - 8 {
        assert InText(columns, |grid|, Pos(p.x, p.y + 8));
        MovedRendersAt(fb, picture, grid, columns, paper, p);
      } else {
        LastRendersAt(fb, picture, grid, columns, paper, p);
      }
    }
  }

  lemma ScrollKeeps(fb: Framebuffer, picture: Picture, grid: Grid, columns: nat, paper: Color)
    requires Fitting(fb, picture, grid, columns) && |grid| > 0
    ensures fb.height == |grid| * 8 && |grid| >= 2 && Renders(fb, picture, grid, columns) ==>
              Renders(fb, ScrolledPicture(fb, picture, paper), ScrolledGrid(grid, columns, paper), columns)
  {
    hide Fits, PixelOf, Renders, ScrolledPicture, ScrolledGrid;
    if fb.height == |grid| * 8 && |grid| >= 2 && Renders(fb, picture, grid, columns) {
      ScrollRenders(fb, picture, grid, columns, paper);
    }
  }

  // ---------------------------------------------------------------- what each operation shows

  // A terminal and the picture on the screen.
  datatype Display = Display(t: Terminal, picture: Picture)

  ghost function ShowClear(fb: Framebuffer, d: Display): (r: Display)
    requires fb.Valid()
    ensures r.t == Cleared(d.t)
  {
    Display(Cleared(d.t), Filled(d.picture, 0, 0, fb.width, fb.height, fb.Shade(d.t.paper)))
  }

  ghost function ShowNewLine(fb: Framebuffer, d: Display): (r: Display)
    requires fb.Valid() && TerminalInv(d.t)
    ensures r.t == NewLine(d.t)
  {
    Display(NewLine(d.t), if d.t.y + 1 >= d.t.rows then ScrolledPicture(fb, d.picture, d.t.paper) else d.picture)
  }

  ghost function ShowBack(fb: Framebuffer, d: Display): (r: Display)
    requires fb.Valid() && TerminalInv(d.t)
    ensures r.t == BackOne(d.t)
  {
    var t := BackOne(d.t);
    if d.t.x == 0 && d.t.y == 0 then d
    else Display(t, FillRect(d.picture, t.x * 8, t.y * 8, 8, 8, fb.Shade(t.paper)))
  }

  ghost function ShowLetter(fb: Framebuffer, d: Display, c: char): (r: Display)
    requires fb.Valid() && TerminalInv(d.t) && d.t.x < d.t.columns
    ensures TerminalInv(r.t)
    ensures r.t == d.t.(grid := WithCell(d.t.grid, d.t.columns, d.t.x, d.t.y, Glyphed(c, d.t.ink, d.t.paper)),
                        x := d.t.x + 1)
  {
    Display(d.t.(grid := WithCell(d.t.grid, d.t.columns, d.t.x, d.t.y, Glyphed(c, d.t.ink, d.t.paper)), x := d.t.x + 1),
            LetterOver(d.picture, d.t.x * 8, d.t.y * 8, fb.font(c), fb.Shade(d.t.ink), fb.Shade(d.t.paper)))
  }

  ghost function ShowPlain(fb: Framebuffer, d: Display, c: char): (r: Display)
    requires fb.Valid() && TerminalInv(d.t)
    ensures r.t == PutPlain(d.t, c)
  {
    var at := if d.t.x >= d.t.columns then ShowNewLine(fb, d) else d;
    var put := ShowLetter(fb, at, c);
    if put.t.x >= put.t.columns then ShowNewLine(fb, put) else put
  }

  ghost function ShowSpaces(fb: Framebuffer, d: Display, n: nat): (r: Display)
    requires fb.Valid() && TerminalInv(d.t)
    ensures r.t == Spaces(d.t, n)
  {
    if n == 0 then d else ShowPlain(fb, ShowSpaces(fb, d, n - 1), ' ')
  }

  ghost function ShowPut(fb: Framebuffer, d: Display, c: char): (r: Display)
    requires fb.Valid() && TerminalInv(d.t)
    ensures r.t == Put(d.t, c)
  {
    if c == '\n' then ShowNewLine(fb, d)
    else if c == '\r' then d.(t := d.t.(x := 0))
    else if c as int == 8 then ShowBack(fb, d)
    else if c == '\t' then ShowSpaces(fb, d, 4)
    else ShowPlain(fb, d, c)
  }

  ghost function ShowAll(fb: Framebuffer, d: Display, text: string): (r: Display)
    requires fb.Valid() && TerminalInv(d.t)
    ensures r.t == PutAll(d.t, text)
    decreases |text|
  {
    if text == "" then d else ShowAll(fb, ShowPut(fb, d, text[0]), text[1..])
  }

  // ---------------------------------------------------------------- runs

  datatype Op =
    | PutOp(c: char)
    | NewLineOp
    | BackOp
    | ColorsOp(ink: Color, paper: Color)
    | CursorOp(column: u32, row: u32)
    | ClearOp

  function Step(t: Terminal, op: Op): (r: Terminal)
    requires TerminalInv(t)
    ensures TerminalInv(r) && r.columns == t.columns && r.rows == t.rows
    ensures t.x < t.columns ==> r.x < r.columns
  {
    match op
    case PutOp(c) => Put(t, c)
    case NewLineOp => NewLine(t)
    case BackOp => BackOne(t)
    case ColorsOp(ink, paper) => t.(ink := ink, paper := paper)
    case CursorOp(column, row) => Placed(t, column, row)
    case ClearOp => Cleared(t)
  }

  ghost function ShowStep(fb: Framebuffer, d: Display, op: Op): (r: Display)
    requires fb.Valid() && TerminalInv(d.t)
    ensures r.t == Step(d.t, op)
  {
    match op
    case PutOp(c) => ShowPut(fb, d, c)
    case NewLineOp => ShowNewLine(fb, d)
    case BackOp => ShowBack(fb, d)
    case ClearOp => ShowClear(fb, d)
    case _ => d.(t := Step(d.t, op))
  }

  ghost function ShowRun(fb: Framebuffer, d: Display, ops: seq<Op>): (r: Display)
    requires fb.Valid() && TerminalInv(d.t)
    ensures TerminalInv(r.t) && r.t.columns == d.t.columns && r.t.rows == d.t.rows
    ensures d.t.x < d.t.columns ==> r.t.x < r.t.columns
    decreases |ops|
  {
    if ops == [] then d else ShowRun(fb, ShowStep(fb, d, ops[0]), ops[1..])
  }

  // Whole text rows, and at least two of them.
  predicate RegularScreen(fb: Framebuffer, t: Terminal) {
    fb.height == t.rows * 8 && t.rows >= 2
  }

  // The display fits the screen, and its picture is the rendering of its grid.
  ghost predicate Placeable(fb: Framebuffer, d: Display) {
    fb.Valid() && TerminalInv(d.t) && Fitting(fb, d.picture, d.t.grid, d.t.columns)
  }

  ghost predicate Faithful(fb: Framebuffer, d: Display) {
    Placeable(fb, d) && Renders(fb, d.picture, d.t.grid, d.t.columns)
  }

  lemma ScrolledShows(fb: Framebuffer, picture: Picture, paper: Color)
    requires fb.Valid() && Shows(fb.g, picture)
    ensures Shows(fb.g, ScrolledPicture(fb, picture, paper))
  {
    hide Fits, PixelOf;
  }

  lemma LetterShows(g: Geometry, picture: Picture, x: int, y: int, glyph: Glyph, ink: Pixel, paper: Pixel)
    requires Shows(g, picture)
    ensures Shows(g, LetterOver(picture, x, y, glyph, ink, paper))
  {
    hide Wrap, Point;
  }

  lemma FillShows(g: Geometry, picture: Picture, x0: int, y0: int, x1: int, y1: int, pixel: Pixel)
    requires Shows(g, picture)
    ensures Shows(g, Filled(picture, x0, y0, x1, y1, pixel))
  {
  }

  lemma ClearKeeps(fb: Framebuffer, d: Display)
    requires Placeable(fb, d)
    ensures Faithful(fb, ShowClear(fb, d))
  {
    hide Fits, PixelOf, Renders, Filled, BlankGrid;
    FillShows(fb.g, d.picture, 0, 0, fb.width, fb.height, fb.Shade(d.t.paper));
    ClearRenders(fb, d.picture, d.t.paper, d.t.columns, d.t.rows);
  }

  lemma NewLineKeeps(fb: Framebuffer, d: Display)
    requires Placeable(fb, d)
    ensures Placeable(fb, ShowNewLine(fb, d))
    ensures RegularScreen(fb, d.t) && Faithful(fb, d) ==> Faithful(fb, ShowNewLine(fb, d))
  {
    hide Fits, PixelOf, Renders, ScrolledPicture, ScrolledGrid;
    ScrolledShows(fb, d.picture, d.t.paper);
    ScrollKeeps(fb, d.picture, d.t.grid, d.t.columns, d.t.paper);
  }

  lemma BackKeeps(fb: Framebuffer, d: Display)
    requires Placeable(fb, d)
    ensures Placeable(fb, ShowBack(fb, d))
    ensures Faithful(fb, d) ==> Faithful(fb, ShowBack(fb, d))
  {
    hide Fits, PixelOf, Renders, WithCell, Filled;
    var t := BackOne(d.t);
    FillShows(fb.g, d.picture, t.x * 8, t.y * 8, t.x * 8 + 8, t.y * 8 + 8, fb.Shade(t.paper));
    if Faithful(fb, d) && !(d.t.x == 0 && d.t.y == 0) {
      BlankRenders(fb, d.picture, d.t.grid, d.t.columns, t.x, t.y, t.paper);
    }
  }

  lemma LetterKeeps(fb: Framebuffer, d: Display, c: char)
    requires Placeable(fb, d) && d.t.x < d.t.columns
    ensures Placeable(fb, ShowLetter(fb, d, c))
    ensures Faithful(fb, d) ==> Faithful(fb, ShowLetter(fb, d, c))
  {
    hide Fits, PixelOf, Renders, WithCell, LetterOver;
    LetterShows(fb.g, d.picture, d.t.x * 8, d.t.y * 8, fb.font(c), fb.Shade(d.t.ink), fb.Shade(d.t.paper));
    if Faithful(fb, d) {
      LetterRenders(fb, d.picture, d.t.grid, d.t.columns, d.t.x, d.t.y, c, d.t.ink, d.t.paper);
    }
  }

  lemma PlainKeeps(fb: Framebuffer, d: Display, c: char)
    requires Placeable(fb, d)
    ensures Placeable(fb, ShowPlain(fb, d, c))
    ensures RegularScreen(fb, d.t) && Faithful(fb, d) ==> Faithful(fb, ShowPlain(fb, d, c))
  {
    hide Fitting, Renders, ShowNewLine, ShowLetter, ScrolledGrid, WithCell, Sized, Fits, MasksOk;
    NewLineKeeps(fb, d);
    var at := if d.t.x >= d.t.columns then ShowNewLine(fb, d) else d;
    LetterKeeps(fb, at, c);
    NewLineKeeps(fb, ShowLetter(fb, at, c));
  }

  lemma {:induction false} SpacesKeep(fb: Framebuffer, d: Display, n: nat)
    requires Placeable(fb, d)
    ensures Placeable(fb, ShowSpaces(fb, d, n))
    ensures RegularScreen(fb, d.t) && Faithful(fb, d) ==> Faithful(fb, ShowSpaces(fb, d, n))
  {
    hide Fitting, Renders, ShowPlain, PutPlain, Sized, Fits, MasksOk;
    if n > 0 {
      SpacesKeep(fb, d, n - 1);
      PlainKeeps(fb, ShowSpaces(fb, d, n - 1), ' ');
    }
  }

  lemma PutKeeps(fb: Framebuffer, d: Display, c: char)
    requires Placeable(fb, d)
    ensures Placeable(fb, ShowPut(fb, d, c))
    ensures RegularScreen(fb, d.t) && Faithful(fb, d) ==> Faithful(fb, ShowPut(fb, d, c))
  {
    hide Fitting, Renders, ShowPlain, ShowSpaces, ShowNewLine, ShowBack, NewLine, BackOne, PutPlain, Spaces, Sized, Fits,
         MasksOk;
    if c == '\n' {
      NewLineKeeps(fb, d);
    } else if c as int == 8 {
      BackKeeps(fb, d);
    } else if c == '\t' {
      SpacesKeep(fb, d, 4);
    } else if c != '\r' {
      PlainKeeps(fb, d, c);
    }
  }

  lemma StepKeeps(fb: Framebuffer, d: Display, op: Op)
    requires Placeable(fb, d)
    ensures Placeable(fb, ShowStep(fb, d, op))
    ensures RegularScreen(fb, d.t) && Faithful(fb, d) ==> Faithful(fb, ShowStep(fb, d, op))
  {
    hide Fitting, Renders, ShowPut, ShowNewLine, ShowBack, ShowClear, Put, NewLine, BackOne, Cleared, Sized, Fits, MasksOk;
    match op
    case PutOp(c) => PutKeeps(fb, d, c);
    case NewLineOp => NewLineKeeps(fb, d);
    case BackOp => BackKeeps(fb, d);
    case ClearOp => ClearKeeps(fb, d);
    case _ =>
  }

  /** Over every run of characters, newlines, backspaces, colour changes, cursor placements and clears on a
      regular screen the picture stays the rendering of the terminal's grid. */
  lemma {:induction false} RunKeeps(fb: Framebuffer, d: Display, ops: seq<Op>)
    requires Placeable(fb, d)
    ensures Placeable(fb, ShowRun(fb, d, ops))
    ensures RegularScreen(fb, d.t) && Faithful(fb, d) ==> Faithful(fb, ShowRun(fb, d, ops))
    decreases |ops|
  {
    if ops != [] {
      StepKeeps(fb, d, ops[0]);
      hide Placeable, Faithful, ShowStep;
      RunKeeps(fb, ShowStep(fb, d, ops[0]), ops[1..]);
    }
  }

  // ---------------------------------------------------------------- scrolling byte by byte

  ghost function RowUp(picture: Picture, y: int): Picture {
    imap p: Pos | p in picture ::
      if p.y == y && Pos(p.x, p.y + 8) in picture then picture[Pos(p.x, p.y + 8)] else picture[p]
  }

  lemma SliceMoved(before: seq<bv8>, after: seq<bv8>, to: nat, from: nat, row: nat, x: nat, depth: nat)
    requires to + row <= |after| && from + row <= |before| && x + depth <= row
    requires after[to..to + row] == before[from..from + row]
    ensures after[to + x..to + x + depth] == before[from + x..from + x + depth]
  {
    var left, right := after[to + x..to + x + depth], before[from + x..from + x + depth];
    forall j | 0 <= j < |left| ensures left[j] == right[j] {
      assert after[to..to + row][x + j] == before[from..from + row][x + j];
    }
  }

  lemma SliceKept(before: seq<bv8>, after: seq<bv8>, to: nat, row: nat, offset: nat, depth: nat)
    requires |after| == |before| && offset + depth <= |before| && (offset + depth <= to || to + row <= offset)
    requires forall k :: 0 <= k < |before| && !(to <= k < to + row) ==> after[k] == before[k]
    ensures after[offset..offset + depth] == before[offset..offset + depth]
  {
  }

  // One row of pixels copied over another: `row` is the number of bytes it shows.
  ghost predicate CopiedRow(g: Geometry, before: seq<bv8>, after: seq<bv8>, y: nat, to: nat, from: nat, row: nat) {
    && Fits(g, |before|) && |after| == |before| && y + 8 < g.height && row == g.width * g.depth
    && to == y * g.pitch && from == (y + 8) * g.pitch && to + row <= |before| && from + row <= |before|
    && after[to..to + row] == before[from..from + row]
    && forall k :: 0 <= k < |before| && !(to <= k < to + row) ==> after[k] == before[k]
  }

  lemma RowUpThere(g: Geometry, before: seq<bv8>, after: seq<bv8>, y: nat, to: nat, from: nat, row: nat, p: Pos)
    requires CopiedRow(g, before, after, y, to, from, row) && OnScreen(g, p) && p.y == y
    ensures PixelAt(g, after, p) == PixelAt(g, before, Pos(p.x, p.y + 8))
  {
    var x := p.x * g.depth;
    RowFits(g, |before|, p.x, y);
    assert Offset(g, p.x, y) == to + x && Offset(g, p.x, y + 8) == from + x;
    hide Offset, Fits;
    SliceMoved(before, after, to, from, row, x, g.depth);
  }

  lemma RowUpElsewhere(g: Geometry, before: seq<bv8>, after: seq<bv8>, y: nat, to: nat, from: nat, row: nat, p: Pos)
    requires CopiedRow(g, before, after, y, to, from, row) && OnScreen(g, p) && p.y != y
    ensures PixelAt(g, after, p) == PixelAt(g, before, p)
  {
    RowFits(g, |before|, p.x, p.y);
    RowFits(g, |before|, 0, y);
    hide Fits;
    if p.y < y {
      Ordered(p.y + 1, y, g.pitch);
    } else {
      Ordered(y + 1, p.y, g.pitch);
    }
    hide Offset;
    SliceKept(before, after, to, row, Offset(g, p.x, p.y), g.depth);
  }

  lemma RowCopied(g: Geometry, before: seq<bv8>, after: seq<bv8>, y: nat, to: nat, from: nat, row: nat)
    requires CopiedRow(g, before, after, y, to, from, row)
    ensures PictureOf(g, after) == RowUp(PictureOf(g, before), y)
  {
    hide PixelAt, Fits;
    forall p | OnScreen(g, p)
      ensures PictureOf(g, after)[p] == RowUp(PictureOf(g, before), y)[p]
    {
      if p.y == y {
        RowUpThere(g, before, after, y, to, from, row, p);
      } else {
        RowUpElsewhere(g, before, after, y, to, from, row, p);
      }
    }
    assert PictureOf(g, after) == RowUp(PictureOf(g, before), y);
  }

  lemma RaiseNothing(picture: Picture)
    requires InWords(picture)
    ensures Raised(picture, 0) == picture
  {
  }

  lemma RaiseRow(picture: Picture, y: nat)
    ensures RowUp(Raised(picture, y), y) == Raised(picture, y + 1)
  {
  }

  // Rows of eight lines apart do not overlap, and lie within the buffer.
  lemma RowPlaces(g: Geometry, length: nat, y: nat)
    requires Fits(g, length) && y + 8 < g.height
    ensures 0 <= y * g.pitch && y * g.pitch + g.width * g.depth <= (y + 8) * g.pitch
    ensures (y + 8) * g.pitch + g.width * g.depth <= length
  {
    RowFits(g, length, 0, y);
    RowFits(g, length, 0, y + 8);
    Ordered(y + 1, y + 8, g.pitch);
  }

  // ---------------------------------------------------------------- the console

  class Console {
    const fb: Framebuffer
    const cursor: Cursor
    var cursorX: u32
    var cursorY: u32
    var columns: u32
    var rows: u32
    var foreground: Color
    var background: Color
    var ready: bool
    // What the text area is meant to show.
    ghost var grid: Grid

    ghost predicate Valid()
      reads this
    {
      && fb.Valid() && cursor.Valid() && cursor.fb == fb
      && (ready ==>
            && fb.available && columns == CellNo(fb.width) && rows == CellNo(fb.height)
            && TerminalInv(Screen()))
    }

    ghost function Screen(): Terminal
      reads this
    {
      Terminal(columns, rows, grid, cursorX, cursorY, foreground, background)
    }

    ghost function Look(): Display
      requires fb.Valid()
      reads this, fb.buffer
    {
      Display(Screen(), fb.View())
    }

    ghost predicate Shown()
      requires Valid() && ready
      reads this, fb.buffer
    {
      Renders(fb, fb.View(), grid, columns)
    }

    ghost predicate Regular()
      reads this
    {
      RegularScreen(fb, Screen())
    }

    constructor (fb: Framebuffer, cursor: Cursor, foreground: Color, background: Color)
      requires fb.Valid() && cursor.Valid() && cursor.fb == fb
      ensures Valid() && this.fb == fb && this.cursor == cursor
      ensures ready == (fb.available && fb.width >= 8 && fb.height >= 8)
      ensures ready ==> cursorX == 0 && cursorY == 0
      ensures this.foreground == foreground && this.background == background
    {
      this.fb, this.cursor := fb, cursor;
      cursorX, cursorY, columns, rows := 0, 0, 0, 0;
      this.foreground, this.background := foreground, background;
      ready := false;
      grid := [];
      new;
      hide Fits;
      if !fb.available {
        return;
      }
      columns := fb.width / 8;
      rows := fb.height / 8;
      ready := columns > 0 && rows > 0;
      grid := BlankGrid(columns, rows, background);
    }

    // Copies bytes of the framebuffer to a place before them.
    method CopyBytes(to: nat, from: nat, count: nat)
      requires Valid() && to + count <= from && from + count <= fb.buffer.Length
      modifies fb.buffer
      ensures fb.buffer[to..to + count] == old(fb.buffer[from..from + count])
      ensures forall k :: 0 <= k < fb.buffer.Length && !(to <= k < to + count) ==> fb.buffer[k] == old(fb.buffer[k])
    {
      hide Fits;
      ghost var before := fb.buffer[..];
      var byte := 0;
      while byte < count
        invariant 0 <= byte <= count
        invariant fb.buffer[to..to + byte] == before[from..from + byte]
        invariant forall k :: 0 <= k < |before| && !(to <= k < to + byte) ==> fb.buffer[k] == before[k]
      {
        fb.buffer[to + byte] := fb.buffer[from + byte];
        byte := byte + 1;
      }
    }

    method CopyRowUp(y: u32)
      requires Valid() && y + 8 < fb.height
      modifies fb.buffer
      ensures fb.View() == RowUp(old(fb.View()), y)
    {
      RowPlaces(fb.g, fb.buffer.Length, y);
      var bytesPerPixel := fb.bpp / 8;
      var visible := fb.width * bytesPerPixel;
      var to, from := y * fb.pitch, (y + 8) * fb.pitch;
      ghost var before := fb.buffer[..];
      CopyBytes(to, from, visible);
      assert fb.buffer[..][to..to + visible] == before[from..from + visible];
      RowCopied(fb.g, before, fb.buffer[..], y, to, from, visible);
    }

    method Scroll()
      requires Valid() && ready
      modifies fb.buffer, cursor`visible
      ensures fb.View() == ScrolledPicture(fb, old(fb.View()), background)
      ensures cursor.visible == (old(cursor.visible) && fb.height <= 8)
    {
      hide Fits, PictureOf, PixelOf, Raised, RowUp;
      if fb.height <= 8 {
        return;
      }
      ghost var picture := fb.View();
      RaiseNothing(picture);
      var y := 0;
      while y < fb.height - 8
        invariant 0 <= y <= fb.height - 8
        invariant fb.View() == Raised(picture, y)
      {
        CopyRowUp(y);
        RaiseRow(picture, y);
        y := y + 1;
      }
      fb.DrawFillRect(0, fb.height - 8, fb.width, 8, background);
      cursor.Invalidate();
    }

    method SetColors(foreground: Color, background: Color)
      requires Valid()
      modifies this
      ensures Valid() && ready == old(ready)
      ensures Screen() == old(Screen()).(ink := foreground, paper := background)
    {
      this.foreground, this.background := foreground, background;
    }

    method SetCursor(column: u32, row: u32)
      requires Valid()
      modifies `cursorX, `cursorY
      ensures Valid()
      ensures Screen() == if ready then Placed(old(Screen()), column, row) else old(Screen())
    {
      if !ready {
        return;
      }
      var x, y := column, row;
      if x >= columns {
        x := columns - 1;
      }
      if y >= rows {
        y := rows - 1;
      }
      cursorX, cursorY := x, y;
    }

    // Everything in the background colour, and the cursors forgotten.
    method BlankScreen()
      requires Valid() && ready
      modifies this, fb.buffer, cursor`visible
      ensures Valid() && ready && Look() == ShowClear(fb, old(Look())) && !cursor.visible
    {
      ClearedInv(Screen());
      ghost var blank := BlankGrid(columns, rows, background);
      hide Fits, PictureOf, PixelOf, Filled, BlankGrid, Framebuffer.View, CellNo, Framebuffer.Valid, Cursor.Valid,
           TerminalInv;
      fb.Clear(background);
      grid := blank;
      cursor.Invalidate();
      cursorX, cursorY := 0, 0;
    }

    method Clear()
      requires Valid()
      modifies this, fb.buffer, cursor`visible
      ensures Valid() && ready == old(ready)
      ensures ready ==> Look() == ShowClear(fb, old(Look())) && Shown() && !cursor.visible
      ensures !ready ==> Look() == old(Look())
    {
      if !ready {
        return;
      }
      ShownIsFaithful();
      ClearKeeps(fb, Look());
      hide Placeable, Faithful, ShowClear, Cleared, Shown, TerminalInv, Framebuffer.View;
      BlankScreen();
      ShownIsFaithful();
    }

    lemma AreaFits()
      requires Valid() && ready
      ensures Placeable(fb, Look())
    {
      hide Fits, PictureOf;
      Eighths(fb.width);
      Eighths(fb.height);
    }

    method ScrollLine()
      requires Valid() && ready
      modifies `grid, fb.buffer, cursor`visible
      ensures Valid()
      ensures grid == ScrolledGrid(old(grid), columns, background)
      ensures fb.View() == ScrolledPicture(fb, old(fb.View()), background)
    {
      ghost var scrolled := ScrolledGrid(grid, columns, background);
      ScrolledInv(Screen());
      hide Fits, PictureOf, PixelOf, ScrolledPicture, ScrolledGrid, Framebuffer.View, CellNo, Sized,
           Framebuffer.Valid, Cursor.Valid, TerminalInv;
      Scroll();
      grid := scrolled;
    }

    // The cursor goes to the next row; at the last one the screen scrolls.
    method AdvanceLine()
      requires Valid() && ready
      modifies this, fb.buffer, cursor`visible
      ensures Valid() && ready && Look() == ShowNewLine(fb, old(Look()))
    {
      hide Fits, PictureOf, PixelOf, ScrolledGrid, ScrolledPicture, Framebuffer.View, CellNo, Sized,
           Framebuffer.Valid, Cursor.Valid;
      cursorX := 0;
      if cursorY + 1 >= rows {
        ScrollLine();
        cursorY := rows - 1;
        return;
      }
      cursorY := cursorY + 1;
    }

    method Newline()
      requires Valid()
      modifies this, fb.buffer, cursor`visible
      ensures Valid() && ready == old(ready)
      ensures ready ==> Look() == ShowNewLine(fb, old(Look())) && (old(Regular() && Shown()) ==> Shown())
      ensures !ready ==> Look() == old(Look())
    {
      if !ready {
        return;
      }
      ShownIsFaithful();
      NewLineKeeps(fb, Look());
      hide Placeable, Faithful, ShowNewLine, NewLine, Shown, TerminalInv, Framebuffer.View;
      AdvanceLine();
      ShownIsFaithful();
    }

    lemma ShownIsFaithful()
      requires Valid() && ready
      ensures Placeable(fb, Look()) && (Shown() <==> Faithful(fb, Look()))
    {
      AreaFits();
      hide Fits, PictureOf, Renders, Fitting;
    }

    // Blanks the cell at the cursor.
    method BlankCell()
      requires Valid() && ready && cursorX < columns
      modifies `grid, fb.buffer
      ensures Valid()
      ensures grid == WithCell(old(grid), columns, cursorX, cursorY, Blank(background))
      ensures fb.View() == FillRect(old(fb.View()), cursorX * 8, cursorY * 8, 8, 8, fb.Shade(background))
    {
      SmallPlace();
      hide Fits, PictureOf, PixelOf, Framebuffer.View, CellNo, Sized, Filled, WithCell, Framebuffer.Valid, Cursor.Valid;
      fb.DrawFillRect(cursorX * 8, cursorY * 8, 8, 8, background);
      grid := WithCell(grid, columns, cursorX, cursorY, Blank(background));
    }

    // The cell before the cursor is blanked; there is none before the first.
    method EraseCell()
      requires Valid() && ready
      modifies `cursorX, `cursorY, `grid, fb.buffer
      ensures Valid() && Look() == ShowBack(fb, old(Look()))
    {
      hide Fits, PictureOf, PixelOf, Framebuffer.View, CellNo, Sized, Filled, WithCell, Framebuffer.Valid, Cursor.Valid;
      if cursorX == 0 {
        if cursorY == 0 {
          return;
        }
        cursorY := cursorY - 1;
        cursorX := columns - 1;
      } else {
        cursorX := cursorX - 1;
      }
      BlankCell();
    }

    method Backspace()
      requires Valid()
      modifies `cursorX, `cursorY, `grid, fb.buffer
      ensures Valid()
      ensures ready ==> Look() == ShowBack(fb, old(Look())) && (old(Shown()) ==> Shown())
      ensures !ready ==> Look() == old(Look())
    {
      if !ready {
        return;
      }
      ShownIsFaithful();
      BackKeeps(fb, Look());
      hide Placeable, Faithful, ShowBack, BackOne, Shown, TerminalInv, Framebuffer.View;
      EraseCell();
      ShownIsFaithful();
    }

    // Cell coordinates in pixels fit a word.
    lemma SmallPlace()
      requires Valid() && ready
      ensures columns * 8 <= fb.width && rows * 8 <= fb.height
    {
      Eighths(fb.width);
      Eighths(fb.height);
    }

    method DrawCell(c: char)
      requires Valid() && ready && cursorX < columns
      modifies `grid, `cursorX, fb.buffer
      ensures Valid() && Look() == ShowLetter(fb, old(Look()), c)
    {
      SmallPlace();
      hide Fits, PictureOf, PixelOf, LetterOver, Framebuffer.View, CellNo, Sized, Framebuffer.Valid, Cursor.Valid;
      fb.DrawChar(cursorX * 8, cursorY * 8, c, foreground, background);
      grid := WithCell(grid, columns, cursorX, cursorY, Glyphed(c, foreground, background));
      cursorX := cursorX + 1;
    }

    // A character that is not a control character.
    method PutVisible(c: char)
      requires Valid() && ready
      modifies this, fb.buffer, cursor`visible
      ensures Valid() && ready && Look() == ShowPlain(fb, old(Look()), c)
    {
      hide Fits, PictureOf, PixelOf, Renders, Framebuffer.View, ShowNewLine, ShowLetter, NewLine, WithCell;
      if cursorX >= columns {
        Newline();
      }
      DrawCell(c);
      if cursorX >= columns {
        Newline();
      }
    }

    method PutChar(c: char)
      requires Valid()
      modifies this, fb.buffer, cursor`visible
      ensures Valid() && ready == old(ready)
      ensures ready ==>
                Look() == ShowPut(fb, old(Look()), c) && (old(Regular() && Shown()) ==> Regular() && Shown())
      ensures !ready ==> Look() == old(Look())
    {
      if !ready {
        return;
      }
      AreaFits();
      PutKeeps(fb, Look(), c);
      hide Fits, PictureOf, PixelOf, Renders, Framebuffer.View, ShowNewLine, ShowBack, ShowPlain, NewLine, BackOne,
           PutPlain, Fitting, Sized;
      if c == '\n' {
        Newline();
      } else if c == '\r' {
        cursorX := 0;
      } else if c as int == 8 {
        Backspace();
      } else if c == '\t' {
        var i := 0;
        while i < 4
          invariant i <= 4 && Valid() && ready
          invariant Look() == ShowSpaces(fb, old(Look()), i)
        {
          PutVisible(' ');
          i := i + 1;
        }
      } else {
        PutVisible(c);
      }
    }

    // `text` is a C string.
    method Write(text: string)
      requires Valid()
      modifies this, fb.buffer, cursor`visible
      ensures Valid() && ready == old(ready)
      ensures ready ==>
                && Look() == ShowAll(fb, old(Look()), CStr(text))
                && (old(Regular() && Shown()) ==> Regular() && Shown())
      ensures !ready ==> Look() == old(Look())
    {
      hide Fits, PictureOf, PixelOf, Renders, Framebuffer.View, ShowPut, Put, CStr, Sized, Framebuffer.Valid,
           Cursor.Valid, RegularScreen;
      ghost var whole := CStr(text);
      assert whole[0..] == whole;
      var i := 0;
      while At(text, i) != NUL
        invariant i <= |whole| && Valid() && ready == old(ready)
        invariant ready ==>
                    && ShowAll(fb, Look(), whole[i..]) == ShowAll(fb, old(Look()), whole)
                    && (old(Regular() && Shown()) ==> Regular() && Shown())
        invariant !ready ==> Look() == old(Look())
        decreases |whole| - i
      {
        assert whole[i..][0] == text[i] && whole[i..][1..] == whole[i + 1..];
        PutChar(text[i]);
        i := i + 1;
      }
      assert whole[i..] == "";
    }

    method WriteLine(text: string)
      requires Valid()
      modifies this, fb.buffer, cursor`visible
      ensures Valid() && ready == old(ready)
      ensures ready ==>
                && Look() == ShowNewLine(fb, ShowAll(fb, old(Look()), CStr(text)))
                && (old(Regular() && Shown()) ==> Regular() && Shown())
      ensures !ready ==> Look() == old(Look())
    {
      hide Fits, PictureOf, PixelOf, Renders, Framebuffer.View, ShowAll, PutAll, ShowNewLine, NewLine;
      Write(text);
      Newline();
    }

    method Perform(op: Op)
      requires Valid() && ready
      modifies this, fb.buffer, cursor`visible
      ensures Valid() && ready && Look() == ShowStep(fb, old(Look()), op)
    {
      hide Fits, PictureOf, PixelOf, Renders, Framebuffer.View, ShowNewLine, ShowBack, ShowPut, ShowClear,
           NewLine, BackOne, Put, Cleared, WithCell;
      match op
      case PutOp(c) => PutChar(c);
      case NewLineOp => Newline();
      case BackOp => Backspace();
      case ColorsOp(ink, paper) => SetColors(ink, paper);
      case CursorOp(column, row) => SetCursor(column, row);
      case ClearOp => Clear();
    }

    /** After a clear and any run of characters, newlines, backspaces, colour changes and cursor placements, the
        console's picture is still the rendering of the terminal's grid, and the cursor is inside the grid. */
    method Drive(ops: seq<Op>)
      requires Valid() && ready
      modifies this, fb.buffer, cursor`visible
      ensures Valid() && ready
      ensures Look() == ShowRun(fb, ShowClear(fb, old(Look())), ops)
      ensures old(Regular()) ==> Shown()
      ensures cursorX < columns && cursorY < rows
    {
      Clear();
      ghost var start := Look();
      AreaFits();
      RunKeeps(fb, start, ops);
      assert ops[0..] == ops && start.t.x < start.t.columns;
      hide Fits, PictureOf, PixelOf, Renders, Fitting, Framebuffer.View, ShowStep, ShowClear, Step, Cleared;
      var i := 0;
      while i < |ops|
        invariant i <= |ops| && Valid() && ready
        invariant ShowRun(fb, Look(), ops[i..]) == ShowRun(fb, start, ops)
      {
        assert ops[i..][0] == ops[i] && ops[i..][1..] == ops[i + 1..];
        Perform(ops[i]);
        i := i + 1;
      }
      assert ops[i..] == [];
    }
  }

  // ---------------------------------------------------------------- what text looks like

  // A character that only takes a cell.
  predicate Plain(c: char) {
    c != '\n' && c != '\r' && c != '\t' && c as int != 8
  }

  // The cell a column of a line of the text falls in.
  function LaidCell(t: Terminal, text: string, line: nat, column: nat): Cell {
    var k := line * t.columns + column;
    if k < |text| then Glyphed(text[k], t.ink, t.paper) else Blank(t.paper)
  }

  function LaidGrid(t: Terminal, text: string, top: nat): (grid: Grid)
    ensures Sized(grid, t.columns, t.rows)
  {
    seq(t.rows, r requires r >= 0 => seq(t.columns, c requires c >= 0 => LaidCell(t, text, top + r, c)))
  }

  // The first line still on the screen when the cursor is in a line.
  function Top(line: nat, rows: nat): nat
    requires rows > 0
  {
    if line < rows then 0 else line - rows + 1
  }

  // A text cut into lines of the terminal's width, of which the last ones show.
  function Laid(t: Terminal, text: string, line: nat, column: nat): Terminal
    requires t.rows > 0
  {
    t.(grid := LaidGrid(t, text, Top(line, t.rows)), x := column, y := line - Top(line, t.rows))
  }

  lemma PlaceUnique(columns: nat, line: nat, column: nat, other: nat, otherColumn: nat)
    requires column < columns && otherColumn < columns
    ensures line * columns + column == other * columns + otherColumn <==> line == other && column == otherColumn
  {
    if line < other {
      Ordered(line + 1, other, columns);
      assert (line + 1) * columns == line * columns + columns;
    } else if other < line {
      Ordered(other + 1, line, columns);
      assert (other + 1) * columns == other * columns + columns;
    }
  }

  lemma CellAdded(t: Terminal, text: string, c: char, line: nat, column: nat, at: nat, k: nat)
    requires column < t.columns && k < t.columns && |text| == line * t.columns + column
    ensures LaidCell(t, text + [c], at, k) ==
            if at == line && k == column then Glyphed(c, t.ink, t.paper) else LaidCell(t, text, at, k)
  {
    PlaceUnique(t.columns, at, k, line, column);
  }

  lemma GridAdded(t: Terminal, text: string, c: char, line: nat, column: nat)
    requires t.rows > 0 && column < t.columns && |text| == line * t.columns + column
    ensures var top := Top(line, t.rows);
            WithCell(LaidGrid(t, text, top), t.columns, column, line - top, Glyphed(c, t.ink, t.paper)) ==
            LaidGrid(t, text + [c], top)
  {
    var top := Top(line, t.rows);
    var left := WithCell(LaidGrid(t, text, top), t.columns, column, line - top, Glyphed(c, t.ink, t.paper));
    var right := LaidGrid(t, text + [c], top);
    forall r | 0 <= r < t.rows ensures left[r] == right[r] {
      forall k | 0 <= k < t.columns ensures left[r][k] == right[r][k] {
        CellAdded(t, text, c, line, column, top + r, k);
        hide LaidCell;
      }
    }
    hide LaidGrid, WithCell;
    assert left == right;
  }

  lemma GridScrolled(t: Terminal, text: string, line: nat)
    requires t.rows > 0 && t.columns > 0 && line + 1 >= t.rows && |text| == (line + 1) * t.columns
    ensures ScrolledGrid(LaidGrid(t, text, Top(line, t.rows)), t.columns, t.paper) ==
            LaidGrid(t, text, Top(line + 1, t.rows))
  {
    var top := Top(line, t.rows);
    var left := ScrolledGrid(LaidGrid(t, text, top), t.columns, t.paper);
    var right := LaidGrid(t, text, top + 1);
    forall r | 0 <= r < t.rows ensures left[r] == right[r] {
      if r + 1 == t.rows {
        assert top + 1 + r == line + 1;
        forall k | 0 <= k < t.columns ensures right[r][k] == Blank(t.paper) {
          assert LaidCell(t, text, line + 1, k) == Blank(t.paper);
        }
      }
    }
    assert left == right;
  }

  lemma PlainStep(t: Terminal, text: string, c: char, line: nat, column: nat)
    requires TerminalInv(t) && column < t.columns && |text| == line * t.columns + column
    ensures TerminalInv(Laid(t, text, line, column))
    ensures PutPlain(Laid(t, text, line, column), c) ==
            if column + 1 < t.columns then Laid(t, text + [c], line, column + 1) else Laid(t, text + [c], line + 1, 0)
  {
    GridAdded(t, text, c, line, column);
    if column + 1 == t.columns && line + 1 >= t.rows {
      assert |text + [c]| == (line + 1) * t.columns;
      GridScrolled(t, text + [c], line);
    }
    hide LaidGrid, WithCell, ScrolledGrid;
  }

  lemma {:induction false} PutAllLast(t: Terminal, text: string, c: char)
    requires TerminalInv(t)
    ensures PutAll(t, text + [c]) == Put(PutAll(t, text), c)
    decreases |text|
  {
    hide Put;
    if text == "" {
      assert (text + [c])[1..] == "";
    } else {
      assert (text + [c])[1..] == text[1..] + [c];
      PutAllLast(Put(t, text[0]), text[1..], c);
    }
  }

  /** Text of any length without control characters, written to a cleared console, fills it line by line and
      shows its last lines: with the cursor in a line, the cell in row r and column c holds the character at
      (first line shown + r) * columns + c, and is blank behind the end of the text. */
  lemma {:induction false} PlainTextLayout(t: Terminal, text: string, line: nat, column: nat)
    requires TerminalInv(t) && forall i :: 0 <= i < |text| ==> Plain(text[i])
    requires column < t.columns && |text| == line * t.columns + column
    ensures PutAll(Cleared(t), text) == Laid(t, text, line, column)
    decreases |text|
  {
    if text == "" {
      if line > 0 {
        Ordered(1, line, t.columns);
      }
      assert LaidGrid(t, "", 0) == BlankGrid(t.columns, t.rows, t.paper) by { EmptyLayout(t); }
    } else {
      var most, c := text[..|text| - 1], text[|text| - 1];
      assert text == most + [c];
      var (l, k) := if column > 0 then (line, column - 1) else (line - 1, t.columns - 1);
      if column == 0 {
        assert line > 0 && (line - 1) * t.columns == line * t.columns - t.columns;
      }
      PlainTextLayout(t, most, l, k);
      PlainStep(t, most, c, l, k);
      ClearedInv(t);
      PutAllLast(Cleared(t), most, c);
      hide PutAll, Laid, PutPlain, Cleared;
      assert Put(Laid(t, most, l, k), c) == PutPlain(Laid(t, most, l, k), c);
    }
  }

  lemma EmptyLayout(t: Terminal)
    ensures LaidGrid(t, "", 0) == BlankGrid(t.columns, t.rows, t.paper)
  {
    forall r | 0 <= r < t.rows ensures LaidGrid(t, "", 0)[r] == BlankRow(t.columns, t.paper) {
      forall c | 0 <= c < t.columns ensures LaidGrid(t, "", 0)[r][c] == Blank(t.paper) {
        Ordered(0, r, t.columns);
      }
    }
  }

  // ---------------------------------------------------------------- when scrolling keeps the rendering

  // Scrolling shows the scrolled grid, whatever is on the screen.
  ghost predicate ScrollFaithful(fb: Framebuffer, columns: nat, rows: nat)
    requires fb.Valid() && rows > 0
  {
    forall picture: Picture, grid: Grid, paper: Color ::
      |grid| == rows && Fitting(fb, picture, grid, columns) && Renders(fb, picture, grid, columns) ==>
        Renders(fb, ScrolledPicture(fb, picture, paper), ScrolledGrid(grid, columns, paper), columns)
  }

  // The whole screen in one colour.
  ghost function Plainly(fb: Framebuffer, paper: Color): Picture
    requires fb.Valid()
  {
    imap p: Pos | OnScreen(fb.g, p) :: fb.Shade(paper)
  }

  lemma ClearIsPlain(fb: Framebuffer, picture: Picture, paper: Color)
    requires fb.Valid() && Shows(fb.g, picture)
    ensures Filled(picture, 0, 0, fb.width, fb.height, fb.Shade(paper)) == Plainly(fb, paper)
  {
    hide Fits, PixelOf;
  }

  // On an irregular screen a scroll leaves the old colour where the scrolled-in row begins.
  lemma TornPixel(fb: Framebuffer, rows: nat, one: Color, other: Color, p: Pos)
    requires fb.Valid() && rows > 0 && rows * 8 <= fb.height < rows * 8 + 8 && p == Pos(0, (rows - 1) * 8)
    requires fb.height != rows * 8 || rows < 2
    ensures p in ScrolledPicture(fb, Plainly(fb, one), other)
    ensures ScrolledPicture(fb, Plainly(fb, one), other)[p] == fb.Shade(one)
  {
    if fb.height > 8 {
      RaisedAt(fb, Plainly(fb, one), other, p);
      hide ScrolledPicture;
    }
    hide Fits, PixelOf;
  }

  lemma TornCell(fb: Framebuffer, picture: Picture, grid: Grid, columns: nat, paper: Color, p: Pos)
    requires fb.Valid() && columns > 0 && |grid| > 0 && Sized(grid, columns, |grid|) && p == Pos(0, (|grid| - 1) * 8)
    requires p in picture && picture[p] != fb.Shade(paper)
    ensures !Renders(fb, picture, ScrolledGrid(grid, columns, paper), columns)
  {
    Eighths(0);
    Eighths((|grid| - 1) * 8);
    ScrolledRow(grid, columns, paper, |grid| - 1);
    hide Fits, PixelOf, CellNo, Part, ScrolledGrid;
    assert InText(columns, |grid|, p);
    assert !RendersAt(fb, picture, ScrolledGrid(grid, columns, paper), columns, p);
  }

  lemma PlainlyRenders(fb: Framebuffer, columns: nat, rows: nat, paper: Color)
    requires fb.Valid() && columns * 8 <= fb.width < columns * 8 + 8 && rows * 8 <= fb.height < rows * 8 + 8
    ensures Fitting(fb, Plainly(fb, paper), BlankGrid(columns, rows, paper), columns)
    ensures Renders(fb, Plainly(fb, paper), BlankGrid(columns, rows, paper), columns)
  {
    hide Fits, PixelOf, Renders;
    ClearIsPlain(fb, Plainly(fb, paper), paper);
    ClearRenders(fb, Plainly(fb, paper), paper, columns, rows);
  }

  // With lines left over below the text, or a single row of text that never scrolls, the wrong colour shows.
  lemma ScrollTears(fb: Framebuffer, columns: nat, rows: nat, one: Color, other: Color)
    requires fb.Valid() && columns > 0 && rows > 0 && fb.Shade(one) != fb.Shade(other)
    requires columns * 8 <= fb.width < columns * 8 + 8 && rows * 8 <= fb.height < rows * 8 + 8
    requires fb.height != rows * 8 || rows < 2
    ensures !ScrollFaithful(fb, columns, rows)
  {
    hide Fits, PixelOf, Renders, ScrolledPicture, ScrolledGrid, Plainly, BlankGrid;
    var p, grid := Pos(0, (rows - 1) * 8), BlankGrid(columns, rows, one);
    PlainlyRenders(fb, columns, rows, one);
    TornPixel(fb, rows, one, other, p);
    hide Fitting, Shows, Sized;
    TornCell(fb, ScrolledPicture(fb, Plainly(fb, one), other), grid, columns, other, p);
  }

  /** Scrolling keeps the picture the rendering of the grid, for every picture and grid, exactly when the text
      rows fill the screen's height and there are at least two of them. */
  lemma ScrollFaithfulExactly(fb: Framebuffer, columns: nat, rows: nat, one: Color, other: Color)
    requires fb.Valid() && columns > 0 && rows > 0 && fb.Shade(one) != fb.Shade(other)
    requires columns * 8 <= fb.width < columns * 8 + 8 && rows * 8 <= fb.height < rows * 8 + 8
    ensures ScrollFaithful(fb, columns, rows) <==> fb.height == rows * 8 && rows >= 2
  {
    hide Fits, PixelOf, Renders, ScrolledPicture, ScrolledGrid;
    if fb.height == rows * 8 && rows >= 2 {
      forall picture: Picture, grid: Grid, paper: Color
        | |grid| == rows && Fitting(fb, picture, grid, columns) && Renders(fb, picture, grid, columns)
        ensures Renders(fb, ScrolledPicture(fb, picture, paper), ScrolledGrid(grid, columns, paper), columns)
      {
        ScrollRenders(fb, picture, grid, columns, paper);
      }
    } else {
      ScrollTears(fb, columns, rows, one, other);
    }
  }

  // Clear in one colour, then scroll in another.
  function TearingRun(rows: nat, one: Color, other: Color): seq<Op>
    requires 0 < rows < 0x1_0000_0000
  {
    [ColorsOp(one, one), ClearOp, ColorsOp(other, other), CursorOp(0, rows - 1), NewLineOp]
  }

  lemma RowsFit(fb: Framebuffer, d: Display)
    requires Placeable(fb, d)
    ensures fb.Valid() && TerminalInv(d.t) && Shows(fb.g, d.picture) && 0 < d.t.rows < 0x1_0000_0000
  {
  }

  lemma TearingRunShows(fb: Framebuffer, d: Display, one: Color, other: Color)
    requires Placeable(fb, d)
    ensures ShowRun(fb, d, TearingRun(d.t.rows, one, other)) ==
            Display(Terminal(d.t.columns, d.t.rows,
                             ScrolledGrid(BlankGrid(d.t.columns, d.t.rows, one), d.t.columns, other),
                             0, d.t.rows - 1, other, other),
                    ScrolledPicture(fb, Plainly(fb, one), other))
  {
    hide PixelOf, Filled, ScrolledPicture, ScrolledGrid, BlankGrid, Sized, Plainly, WithCell, Fits, Placeable, Shows,
         Framebuffer.Valid;
    RowsFit(fb, d);
    var ops := TearingRun(d.t.rows, one, other);
    ClearIsPlain(fb, d.picture, one);
    var d1 := ShowStep(fb, d, ops[0]);
    var d2 := ShowStep(fb, d1, ops[1]);
    var d3 := ShowStep(fb, d2, ops[2]);
    var d4 := ShowStep(fb, d3, ops[3]);
    var d5 := ShowStep(fb, d4, ops[4]);
    hide ShowStep, Plainly;
    assert ops[1..][1..] == ops[2..] && ops[2..][1..] == ops[3..] && ops[3..][1..] == ops[4..] && ops[4..][1..] == [];
    assert ShowRun(fb, d, ops) == ShowRun(fb, d1, ops[1..]) == ShowRun(fb, d2, ops[2..]);
    assert ShowRun(fb, d2, ops[2..]) == ShowRun(fb, d3, ops[3..]) == ShowRun(fb, d4, ops[4..]);
    assert ShowRun(fb, d4, ops[4..]) == d5;
  }

  // On an irregular screen that run ends with a torn picture.
  lemma TearingRunTears(fb: Framebuffer, d: Display, one: Color, other: Color)
    requires Placeable(fb, d) && fb.Shade(one) != fb.Shade(other) && !RegularScreen(fb, d.t)
    ensures d.t.rows < 0x1_0000_0000 && !Faithful(fb, ShowRun(fb, d, TearingRun(d.t.rows, one, other)))
  {
    var t, p := d.t, Pos(0, (d.t.rows - 1) * 8);
    RowsFit(fb, d);
    TearingRunShows(fb, d, one, other);
    TornPixel(fb, t.rows, one, other, p);
    hide Fits, PixelOf, Renders, ScrolledPicture, ScrolledGrid, Plainly, BlankGrid, Fitting, ShowRun;
    TornCell(fb, ScrolledPicture(fb, Plainly(fb, one), other), BlankGrid(t.columns, t.rows, one), t.columns, other, p);
  }

  /** After a clear every run of the console keeps the picture the rendering of the grid exactly when the text
      rows fill the screen's height and there are at least two: on any other screen with two colours that differ
      some run tears. */
  lemma RunsFaithfulExactly(fb: Framebuffer, d: Display, one: Color, other: Color)
    requires Placeable(fb, d) && fb.Shade(one) != fb.Shade(other)
    ensures (forall ops: seq<Op> :: Faithful(fb, ShowRun(fb, ShowClear(fb, d), ops))) <==> RegularScreen(fb, d.t)
  {
    ClearKeeps(fb, d);
    var start := ShowClear(fb, d);
    hide Faithful, ShowRun, ShowClear, PixelOf;
    if RegularScreen(fb, d.t) {
      forall ops: seq<Op> ensures Faithful(fb, ShowRun(fb, start, ops)) {
        FaithfulPlaceable(fb, start);
        RunKeeps(fb, start, ops);
      }
    } else {
      FaithfulPlaceable(fb, start);
      TearingRunTears(fb, start, one, other);
    }
  }

  lemma FaithfulPlaceable(fb: Framebuffer, d: Display)
    requires Faithful(fb, d)
    ensures Placeable(fb, d)
  {
  }
}
