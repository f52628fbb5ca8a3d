/** What a text looks like on the console: the pen's way over an endless sheet, and the part of the sheet that the
    screen shows. The sheet knows neither rows that scroll nor a grid. */
module ConsoleText {
  import opened Word
  import opened Text
  import opened Framebuffer
  import opened Console

  // ---------------------------------------------------------------- the sheet

  // Where the pen is, and the topmost line it can still reach.
  datatype Pen = Pen(line: nat, column: nat, top: nat)

  // A cell put on the sheet; a later one covers an earlier one.
  datatype Dab = Dab(line: nat, column: nat, cell: Cell)

  const BACKSPACE: char := 8 as char

  // On a sheet of so many columns, of which the last rows of so many stay in reach.
  function Down(rows: nat, p: Pen): Pen {
    Pen(p.line + 1, 0, if p.line + 2 > p.top + rows then p.line + 2 - rows else p.top)
  }

  function PenStep(columns: nat, rows: nat, p: Pen, c: char): Pen {
    if c == '\n' then Down(rows, p)
    else if c == '\r' then p.(column := 0)
    else if c == BACKSPACE then
      if p.column > 0 then p.(column := p.column - 1)
      else if p.line > p.top && columns > 0 then p.(line := p.line - 1, column := columns - 1)
      else p
    else if p.column + 1 < columns then p.(column := p.column + 1)
    else Down(rows, p)
  }

  function PenAfter(columns: nat, rows: nat, text: string): Pen {
    if text == "" then Pen(0, 0, 0)
    else PenStep(columns, rows, PenAfter(columns, rows, text[..|text| - 1]), text[|text| - 1])
  }

  // What a character puts on the sheet: a letter at the pen, or a blank where backspace moves the pen to.
  function DabOf(columns: nat, rows: nat, p: Pen, c: char, ink: Color, paper: Color): seq<Dab> {
    if c == '\n' || c == '\r' then []
    else if c == BACKSPACE then
      var q := PenStep(columns, rows, p, c);
      if q == p then [] else [Dab(q.line, q.column, Blank(paper))]
    else [Dab(p.line, p.column, Glyphed(c, ink, paper))]
  }

  function Dabs(columns: nat, rows: nat, text: string, ink: Color, paper: Color): seq<Dab> {
    if text == "" then []
    else
      var most := text[..|text| - 1];
      Dabs(columns, rows, most, ink, paper)
      + DabOf(columns, rows, PenAfter(columns, rows, most), text[|text| - 1], ink, paper)
  }

  // What is seen at a place of the sheet.
  function Seen(dabs: seq<Dab>, line: nat, column: nat, paper: Color): Cell {
    if dabs == [] then Blank(paper)
    else
      var last := dabs[|dabs| - 1];
      if last.line == line && last.column == column then last.cell
      else Seen(dabs[..|dabs| - 1], line, column, paper)
  }

  function SeenGrid(t: Terminal, dabs: seq<Dab>, top: nat): (grid: Grid)
    ensures Sized(grid, t.columns, t.rows)
  {
    seq(t.rows, r requires r >= 0 => seq(t.columns, c requires c >= 0 => Seen(dabs, top + r, c, t.paper)))
  }

  // The screen: the rows from the topmost line in reach on, and the cursor where the pen is.
  function Window(t: Terminal, dabs: seq<Dab>, p: Pen): Terminal
    requires p.top <= p.line
  {
    t.(grid := SeenGrid(t, dabs, p.top), x := p.column, y := p.line - p.top)
  }

  // ---------------------------------------------------------------- the terminal is a window on the sheet

  ghost predicate InReach(t: Terminal, dabs: seq<Dab>, p: Pen) {
    && t.columns > 0 && t.rows > 0
    && p.top <= p.line < p.top + t.rows && p.column < t.columns
    && forall i :: 0 <= i < |dabs| ==> dabs[i].line < p.top + t.rows
  }

  lemma SeenLast(dabs: seq<Dab>, d: Dab, line: nat, column: nat, paper: Color)
    ensures Seen(dabs + [d], line, column, paper) ==
            if d.line == line && d.column == column then d.cell else Seen(dabs, line, column, paper)
  {
    assert (dabs + [d])[..|dabs + [d]| - 1] == dabs;
  }

  lemma {:induction false} SeenNowhere(dabs: seq<Dab>, line: nat, column: nat, paper: Color)
    requires forall i :: 0 <= i < |dabs| ==> dabs[i].line != line
    ensures Seen(dabs, line, column, paper) == Blank(paper)
  {
    if dabs != [] {
      SeenNowhere(dabs[..|dabs| - 1], line, column, paper);
    }
  }

  lemma DabSeen(t: Terminal, dabs: seq<Dab>, top: nat, line: nat, column: nat, cell: Cell)
    requires top <= line < top + t.rows && column < t.columns
    ensures WithCell(SeenGrid(t, dabs, top), t.columns, column, line - top, cell) ==
            SeenGrid(t, dabs + [Dab(line, column, cell)], top)
  {
    var left := WithCell(SeenGrid(t, dabs, top), t.columns, column, line - top, cell);
    var right := SeenGrid(t, dabs + [Dab(line, column, cell)], top);
    forall r | 0 <= r < t.rows ensures left[r] == right[r] {
      forall k | 0 <= k < t.columns ensures left[r][k] == right[r][k] {
        SeenLast(dabs, Dab(line, column, cell), top + r, k, t.paper);
        hide Seen;
      }
    }
    hide SeenGrid, WithCell;
    assert left == right;
  }

  lemma ScrollSeen(t: Terminal, dabs: seq<Dab>, top: nat)
    requires t.rows > 0 && forall i :: 0 <= i < |dabs| ==> dabs[i].line < top + t.rows
    ensures ScrolledGrid(SeenGrid(t, dabs, top), t.columns, t.paper) == SeenGrid(t, dabs, top + 1)
  {
    var left, right := ScrolledGrid(SeenGrid(t, dabs, top), t.columns, t.paper), SeenGrid(t, dabs, top + 1);
    forall r | 0 <= r < t.rows ensures left[r] == right[r] {
      if r + 1 == t.rows {
        forall k | 0 <= k < t.columns ensures right[r][k] == Blank(t.paper) {
          SeenNowhere(dabs, top + 1 + r, k, t.paper);
        }
      }
    }
    assert left == right;
  }

  lemma DownSeen(t: Terminal, dabs: seq<Dab>, p: Pen)
    requires InReach(t, dabs, p)
    ensures InReach(t, dabs, Down(t.rows, p)) && TerminalInv(Window(t, dabs, p))
    ensures NewLine(Window(t, dabs, p)) == Window(t, dabs, Down(t.rows, p))
  {
    if p.line + 1 == p.top + t.rows {
      ScrollSeen(t, dabs, p.top);
    }
    hide SeenGrid, ScrolledGrid;
  }

  lemma PlainSeen(t: Terminal, dabs: seq<Dab>, p: Pen, c: char)
    requires InReach(t, dabs, p)
    ensures var d := Dab(p.line, p.column, Glyphed(c, t.ink, t.paper));
            && TerminalInv(Window(t, dabs, p))
            && InReach(t, dabs + [d], p)
            && PutPlain(Window(t, dabs, p), c) ==
               Window(t, dabs + [d], if p.column + 1 < t.columns then p.(column := p.column + 1) else Down(t.rows, p))
  {
    var cell := Glyphed(c, t.ink, t.paper);
    var d := Dab(p.line, p.column, cell);
    DabSeen(t, dabs, p.top, p.line, p.column, cell);
    DownSeen(t, dabs + [d], p);
    NewLineIgnoresColumn(Window(t, dabs + [d], p));
    hide SeenGrid, WithCell, NewLine;
  }

  lemma NewLineIgnoresColumn(t: Terminal)
    requires TerminalInv(t) && t.x < t.columns
    ensures TerminalInv(t.(x := t.x + 1)) && NewLine(t.(x := t.x + 1)) == NewLine(t)
  {
    hide ScrolledGrid;
  }

  lemma BackSeen(t: Terminal, dabs: seq<Dab>, p: Pen)
    requires InReach(t, dabs, p)
    ensures var q := PenStep(t.columns, t.rows, p, BACKSPACE);
            var more := if q == p then [] else [Dab(q.line, q.column, Blank(t.paper))];
            && TerminalInv(Window(t, dabs, p)) && InReach(t, dabs + more, q)
            && BackOne(Window(t, dabs, p)) == Window(t, dabs + more, q)
  {
    var q := PenStep(t.columns, t.rows, p, BACKSPACE);
    if q == p {
      Unit(dabs);
    } else {
      DabSeen(t, dabs, p.top, q.line, q.column, Blank(t.paper));
    }
    hide SeenGrid, WithCell;
  }

  lemma CharacterSeen(t: Terminal, dabs: seq<Dab>, p: Pen, c: char)
    requires InReach(t, dabs, p) && c != '\t'
    ensures var q, more := PenStep(t.columns, t.rows, p, c), DabOf(t.columns, t.rows, p, c, t.ink, t.paper);
            && TerminalInv(Window(t, dabs, p)) && InReach(t, dabs + more, q)
            && Put(Window(t, dabs, p), c) == Window(t, dabs + more, q)
  {
    Unit(dabs);
    hide SeenGrid, WithCell, PutPlain, NewLine, BackOne, ScrolledGrid;
    if c == '\n' {
      DownSeen(t, dabs, p);
    } else if c == '\r' {
      DownSeen(t, dabs, p);
    } else if c == BACKSPACE {
      BackSeen(t, dabs, p);
    } else {
      PlainSeen(t, dabs, p, c);
      DownSeen(t, dabs + [Dab(p.line, p.column, Glyphed(c, t.ink, t.paper))], p);
    }
  }

  lemma ClearedSeen(t: Terminal)
    requires TerminalInv(t)
    ensures Cleared(t) == Window(t, [], Pen(0, 0, 0)) && InReach(t, [], Pen(0, 0, 0))
  {
    var grid := SeenGrid(t, [], 0);
    forall r | 0 <= r < t.rows ensures grid[r] == BlankRow(t.columns, t.paper) {
    }
    assert grid == BlankGrid(t.columns, t.rows, t.paper);
  }

  /** For every text without tabs, whatever newlines, returns and backspaces it holds and however long it is, a
      cleared console shows the last rows of the sheet in the pen's reach, and its cursor is at the pen. */
  lemma {:induction false} WindowOnSheet(t: Terminal, text: string)
    requires TerminalInv(t) && '\t' !in text
    ensures var dabs, p := Dabs(t.columns, t.rows, text, t.ink, t.paper), PenAfter(t.columns, t.rows, text);
            InReach(t, dabs, p) && PutAll(Cleared(t), text) == Window(t, dabs, p)
    decreases |text|
  {
    ClearedSeen(t);
    if text != "" {
      var most, c := text[..|text| - 1], text[|text| - 1];
      assert text == most + [c];
      WindowOnSheet(t, most);
      hide Window, Cleared, InReach, PutAll, Put;
      PutAllLast(Cleared(t), most, c);
      CharacterSeen(t, Dabs(t.columns, t.rows, most, t.ink, t.paper), PenAfter(t.columns, t.rows, most), c);
    }
  }

  // ---------------------------------------------------------------- tabs

  // Every tab written out as four spaces.
  function Expanded(text: string): string {
    if text == "" then "" else (if text[0] == '\t' then "    " else [text[0]]) + Expanded(text[1..])
  }

  lemma {:induction false} ExpandedHasNoTab(text: string)
    ensures '\t' !in Expanded(text)
  {
    if text != "" {
      ExpandedHasNoTab(text[1..]);
    }
  }

  lemma {:induction false} PutAllConcat(t: Terminal, a: string, b: string)
    requires TerminalInv(t)
    ensures PutAll(t, a + b) == PutAll(PutAll(t, a), b)
    decreases |a|
  {
    hide Put;
    if a == "" {
      Unit(b);
    } else {
      assert (a + b)[0] == a[0] && (a + b)[1..] == a[1..] + b;
      PutAllConcat(Put(t, a[0]), a[1..], b);
    }
  }

  lemma PutOne(t: Terminal, c: char)
    requires TerminalInv(t)
    ensures PutAll(t, [c]) == Put(t, c)
  {
    assert [c][1..] == "";
    hide Put;
  }

  lemma {:induction false} SpacesPut(t: Terminal, n: nat)
    requires TerminalInv(t)
    ensures Spaces(t, n) == PutAll(t, seq(n, _ => ' '))
  {
    hide PutPlain;
    if n > 0 {
      hide PutAll, TerminalInv;
      SpacesPut(t, n - 1);
      assert seq(n, _ => ' ') == seq(n - 1, _ => ' ') + [' '];
      PutAllLast(t, seq(n - 1, _ => ' '), ' ');
    }
  }

  /** A tab is exactly four spaces. */
  lemma TabIsFourSpaces(t: Terminal)
    requires TerminalInv(t)
    ensures Put(t, '\t') == PutAll(t, "    ")
  {
    hide PutAll, PutPlain, Spaces, TerminalInv;
    SpacesPut(t, 4);
    assert seq(4, _ => ' ') == "    ";
  }

  lemma {:induction false} ExpandedPuts(t: Terminal, text: string)
    requires TerminalInv(t)
    ensures PutAll(t, text) == PutAll(t, Expanded(text))
    decreases |text|
  {
    if text != "" {
      var c, rest := text[0], text[1..];
      ExpandedPuts(Put(t, c), rest);
      PutOne(t, c);
      TabIsFourSpaces(t);
      PutAllConcat(t, if c == '\t' then "    " else [c], Expanded(rest));
      hide Put;
    }
  }

  /** So for every text at all a cleared console is the window on the sheet of the text with its tabs written out. */
  lemma ConsoleShowsSheet(t: Terminal, text: string)
    requires TerminalInv(t)
    ensures var plain := Expanded(text);
            var dabs, p := Dabs(t.columns, t.rows, plain, t.ink, t.paper), PenAfter(t.columns, t.rows, plain);
            InReach(t, dabs, p) && PutAll(Cleared(t), text) == Window(t, dabs, p)
  {
    ClearedInv(t);
    ExpandedHasNoTab(text);
    hide Cleared, PutAll, Window, InReach, Expanded;
    ExpandedPuts(Cleared(t), text);
    WindowOnSheet(t, Expanded(text));
  }

  // ---------------------------------------------------------------- lines and returns

  lemma SplitStep(s: string, c: char, separator: char)
    ensures var parts := Split(s, separator);
            Split(s + [c], separator) ==
            if c == separator then parts + [""] else parts[..|parts| - 1] + [parts[|parts| - 1] + [c]]
  {
    hide Split, Glue;
    SplitAppend(s, [c], separator);
    SplitOne(c, separator);
    GlueEnds(Split(s, separator), c);
  }

  lemma GlueEnds(parts: seq<string>, c: char)
    requires parts != []
    ensures Glue(parts, ["", ""]) == parts + [""]
    ensures Glue(parts, [[c]]) == parts[..|parts| - 1] + [parts[|parts| - 1] + [c]]
  {
    var most, last := parts[..|parts| - 1], parts[|parts| - 1];
    var two: seq<string>, one: seq<string> := ["", ""], [[c]];
    assert two[1..] == [""] && one[1..] == [];
    Unit(last);
    assert most + [last] == parts;
    Unit(most + [last + [c]]);
  }

  // Texts written over one another from the start of a line: the last one that is long enough shows.
  function Cover(texts: seq<string>, column: nat, ink: Color, paper: Color): Cell {
    if texts == [] then Blank(paper)
    else
      var last := texts[|texts| - 1];
      if column < |last| then Glyphed(last[column], ink, paper)
      else Cover(texts[..|texts| - 1], column, ink, paper)
  }

  lemma CoverReturn(texts: seq<string>, column: nat, ink: Color, paper: Color)
    ensures Cover(texts + [""], column, ink, paper) == Cover(texts, column, ink, paper)
  {
    assert (texts + [""])[..|texts + [""]| - 1] == texts;
  }

  lemma CoverLetter(texts: seq<string>, c: char, column: nat, ink: Color, paper: Color)
    requires texts != []
    ensures var last := texts[|texts| - 1];
            Cover(texts[..|texts| - 1] + [last + [c]], column, ink, paper) ==
            if column == |last| then Glyphed(c, ink, paper) else Cover(texts, column, ink, paper)
  {
    var last := texts[|texts| - 1];
    var more := texts[..|texts| - 1] + [last + [c]];
    assert more[..|more| - 1] == texts[..|texts| - 1];
  }

  // The stretches of a line between its returns all stay inside a row.
  ghost predicate LineFits(columns: nat, line: string) {
    forall j :: 0 <= j < |Split(line, '\r')| ==> |Split(line, '\r')[j]| < columns
  }

  // A text of letters, newlines and returns whose lines all fit.
  ghost predicate Fits(columns: nat, text: string) {
    && '\t' !in text && BACKSPACE !in text
    && forall i :: 0 <= i < |Split(text, '\n')| ==> LineFits(columns, Split(text, '\n')[i])
  }

  function Stretches(text: string, line: nat): seq<string> {
    if line < |Split(text, '\n')| then Split(Split(text, '\n')[line], '\r') else []
  }

  lemma StretchesStep(text: string, c: char, line: nat)
    ensures var parts, last := Split(text, '\n'), |Split(text, '\n')| - 1;
            && |Split(text + [c], '\n')| == (if c == '\n' then |parts| + 1 else |parts|)
            && Stretches(text, last) != []
            && (c == '\n' ==> Stretches(text + [c], line) == if line == last + 1 then [""] else Stretches(text, line))
            && (c != '\n' && line != last ==> Stretches(text + [c], line) == Stretches(text, line))
            && (c == '\r' ==> Stretches(text + [c], last) == Stretches(text, last) + [""])
            && (c != '\n' && c != '\r' ==>
                  var texts := Stretches(text, last);
                  Stretches(text + [c], last) == texts[..|texts| - 1] + [texts[|texts| - 1] + [c]])
  {
    hide Split;
    var parts := Split(text, '\n');
    SplitStep(text, c, '\n');
    SplitStep(parts[|parts| - 1], c, '\r');
    SplitWhole("", '\r');
    if c == '\n' {
    } else if c == '\r' {
    }
  }

  // Where the pen is after a text of letters, newlines and returns.
  ghost predicate PenWritten(columns: nat, rows: nat, text: string) {
    var last, p := |Split(text, '\n')| - 1, PenAfter(columns, rows, text);
    var texts := Stretches(text, last);
    && p.line == last && texts != [] && p.column == |texts[|texts| - 1]|
    && p.top == (if last < rows then 0 else last + 1 - rows)
  }

  // A place of the sheet shows what its line says.
  ghost predicate PlaceWritten(columns: nat, rows: nat, text: string, ink: Color, paper: Color, l: nat, k: nat) {
    Seen(Dabs(columns, rows, text, ink, paper), l, k, paper) == Cover(Stretches(text, l), k, ink, paper)
  }

  // The stretch the pen is in has room for one more letter.
  ghost predicate Room(columns: nat, text: string) {
    var texts := Stretches(text, |Split(text, '\n')| - 1);
    texts != [] && |texts[|texts| - 1]| + 1 < columns
  }

  lemma LineFitsStep(columns: nat, line: string, c: char)
    requires LineFits(columns, line + [c])
    ensures LineFits(columns, line)
    ensures c != '\r' ==>
              var texts := Split(line, '\r'); texts != [] && |texts[|texts| - 1]| + 1 < columns
  {
    SplitStep(line, c, '\r');
    hide Split;
    ShorterBefore(Split(line, '\r'), Split(line + [c], '\r'), c, columns);
  }

  lemma ShorterBefore(texts: seq<string>, after: seq<string>, c: char, columns: nat)
    requires texts != []
    requires after == if c == '\r' then texts + [""] else texts[..|texts| - 1] + [texts[|texts| - 1] + [c]]
    requires forall j :: 0 <= j < |after| ==> |after[j]| < columns
    ensures forall j :: 0 <= j < |texts| ==> |texts[j]| < columns
    ensures c != '\r' ==> |texts[|texts| - 1]| + 1 < columns
  {
    forall j | 0 <= j < |texts| ensures |texts[j]| < columns {
      assert |texts[j]| <= |after[j]| < columns;
    }
    if c != '\r' {
      assert |after[|texts| - 1]| == |texts[|texts| - 1]| + 1;
    }
  }

  lemma FitsStep(columns: nat, text: string, c: char)
    requires Fits(columns, text + [c])
    ensures Fits(columns, text) && c != '\t' && c != BACKSPACE
    ensures c != '\n' && c != '\r' ==> Room(columns, text)
  {
    hide Split, LineFits;
    var parts, whole := Split(text, '\n'), text + [c];
    var last := |parts| - 1;
    assert whole[|text|] == c && forall i :: 0 <= i < |text| ==> text[i] == whole[i];
    SplitStep(text, c, '\n');
    var after := Split(whole, '\n');
    if c == '\n' {
      assert forall i :: 0 <= i <= last ==> after[i] == parts[i];
    } else {
      assert forall i :: 0 <= i < last ==> after[i] == parts[i];
      assert after[last] == parts[last] + [c];
      LineFitsStep(columns, parts[last], c);
    }
  }

  lemma WrittenNone(columns: nat, rows: nat, ink: Color, paper: Color, l: nat, k: nat)
    requires rows > 0
    ensures PenWritten(columns, rows, "") && PlaceWritten(columns, rows, "", ink, paper, l, k)
  {
    SplitWhole("", '\n');
    SplitWhole("", '\r');
    CoverNone(k, ink, paper);
    hide Split, Cover;
  }

  lemma {:induction false} WrittenAll(columns: nat, rows: nat, text: string, ink: Color, paper: Color, l: nat, k: nat)
    requires columns > 0 && rows > 0 && Fits(columns, text) && k < columns
    ensures PenWritten(columns, rows, text) && PlaceWritten(columns, rows, text, ink, paper, l, k)
  {
    hide PenWritten, PlaceWritten, Room;
    if text == "" {
      WrittenNone(columns, rows, ink, paper, l, k);
    } else {
      var most, c := text[..|text| - 1], text[|text| - 1];
      assert text == most + [c];
      FitsStep(columns, most, c);
      hide Fits;
      WrittenAll(columns, rows, most, ink, paper, l, k);
      PenWrittenStep(columns, rows, most, c);
      PlaceWrittenStep(columns, rows, most, c, ink, paper, l, k);
    }
  }

  lemma DabsStep(columns: nat, rows: nat, text: string, c: char, ink: Color, paper: Color)
    ensures PenAfter(columns, rows, text + [c]) == PenStep(columns, rows, PenAfter(columns, rows, text), c)
    ensures Dabs(columns, rows, text + [c], ink, paper) ==
            Dabs(columns, rows, text, ink, paper) + DabOf(columns, rows, PenAfter(columns, rows, text), c, ink, paper)
  {
    assert (text + [c])[..|text + [c]| - 1] == text;
  }

  lemma PenWrittenStep(columns: nat, rows: nat, text: string, c: char)
    requires columns > 0 && rows > 0 && PenWritten(columns, rows, text) && c != '\t' && c != BACKSPACE
    requires c != '\n' && c != '\r' ==> Room(columns, text)
    ensures PenWritten(columns, rows, text + [c])
  {
    hide Split, Stretches, Dabs, PenAfter;
    var last := |Split(text, '\n')| - 1;
    DabsStep(columns, rows, text, c, 0, 0);
    if c == '\n' {
      StretchesStep(text, c, last + 1);
    } else {
      StretchesStep(text, c, last);
    }
  }

  lemma PlaceWrittenStep(
    columns: nat, rows: nat, text: string, c: char, ink: Color, paper: Color, l: nat, k: nat)
    requires columns > 0 && rows > 0 && c != '\t' && c != BACKSPACE
    requires PenWritten(columns, rows, text) && PlaceWritten(columns, rows, text, ink, paper, l, k)
    ensures PlaceWritten(columns, rows, text + [c], ink, paper, l, k)
  {
    hide PenWritten, PlaceWritten;
    if c == '\n' || c == '\r' {
      ReturnWritten(columns, rows, text, c, ink, paper, l, k);
    } else {
      LetterWritten(columns, rows, text, c, ink, paper, l, k);
    }
  }

  lemma ReturnWritten(
    columns: nat, rows: nat, text: string, c: char, ink: Color, paper: Color, l: nat, k: nat)
    requires c == '\n' || c == '\r'
    requires PlaceWritten(columns, rows, text, ink, paper, l, k)
    ensures PlaceWritten(columns, rows, text + [c], ink, paper, l, k)
  {
    hide Split, Stretches, Dabs, PenAfter, Cover, Seen, PenStep;
    DabsStep(columns, rows, text, c, ink, paper);
    Unit(Dabs(columns, rows, text, ink, paper));
    StretchesStep(text, c, l);
    CoverNone(k, ink, paper);
    CoverReturn(Stretches(text, l), k, ink, paper);
    BehindLast(text, l);
  }

  lemma LetterWritten(
    columns: nat, rows: nat, text: string, c: char, ink: Color, paper: Color, l: nat, k: nat)
    requires c != '\n' && c != '\r' && c != BACKSPACE
    requires PenWritten(columns, rows, text) && PlaceWritten(columns, rows, text, ink, paper, l, k)
    ensures PlaceWritten(columns, rows, text + [c], ink, paper, l, k)
  {
    hide Split, Stretches, Dabs, PenAfter, Cover, Seen, PenStep;
    var last, p := |Split(text, '\n')| - 1, PenAfter(columns, rows, text);
    DabsStep(columns, rows, text, c, ink, paper);
    SeenLast(Dabs(columns, rows, text, ink, paper), Dab(p.line, p.column, Glyphed(c, ink, paper)), l, k, paper);
    StretchesStep(text, c, l);
    if l == last {
      CoverLetter(Stretches(text, last), c, k, ink, paper);
    }
  }

  lemma CoverNone(column: nat, ink: Color, paper: Color)
    ensures Cover([""], column, ink, paper) == Cover([], column, ink, paper) == Blank(paper)
  {
    assert [""][..0] == [];
  }

  lemma BehindLast(text: string, line: nat)
    ensures line >= |Split(text, '\n')| ==> Stretches(text, line) == []
  {
    hide Split;
  }

  // The line of a text that the screen's first row shows.
  function FirstLine(rows: nat, text: string): nat {
    if |Split(text, '\n')| <= rows then 0 else |Split(text, '\n')| - rows
  }

  lemma PlaceShown(columns: nat, rows: nat, text: string, ink: Color, paper: Color, r: nat, k: nat)
    requires columns > 0 && rows > 0 && Fits(columns, text) && k < columns
    ensures var top := PenAfter(columns, rows, text).top;
            Seen(Dabs(columns, rows, text, ink, paper), top + r, k, paper) ==
            Cover(Stretches(text, FirstLine(rows, text) + r), k, ink, paper)
  {
    hide Split, Seen, Cover, Dabs, PenAfter, Fits, Stretches;
    WrittenAll(columns, rows, text, ink, paper, FirstLine(rows, text) + r, k);
  }

  lemma WindowCell(t: Terminal, dabs: seq<Dab>, p: Pen, r: nat, k: nat)
    requires InReach(t, dabs, p) && r < t.rows && k < t.columns
    ensures var grid := Window(t, dabs, p).grid;
            Sized(grid, t.columns, t.rows) && grid[r][k] == Seen(dabs, p.top + r, k, t.paper)
  {
    hide Seen;
  }

  lemma FitsNoTab(columns: nat, text: string)
    requires Fits(columns, text)
    ensures '\t' !in text
  {
  }

  lemma LineShown(t: Terminal, text: string, r: nat, k: nat)
    requires TerminalInv(t) && Fits(t.columns, text) && r < t.rows && k < t.columns
    ensures var u := PutAll(Cleared(t), text);
            && Sized(u.grid, t.columns, t.rows)
            && u.grid[r][k] == Cover(Stretches(text, FirstLine(t.rows, text) + r), k, t.ink, t.paper)
  {
    hide Cleared, PutAll, Split, Seen, Cover, Dabs, PenAfter, Fits, Stretches, InReach, FirstLine, Window;
    FitsNoTab(t.columns, text);
    WindowOnSheet(t, text);
    WindowCell(t, Dabs(t.columns, t.rows, text, t.ink, t.paper), PenAfter(t.columns, t.rows, text), r, k);
    PlaceShown(t.columns, t.rows, text, t.ink, t.paper, r, k);
  }

  lemma PenPlaced(columns: nat, rows: nat, text: string)
    requires columns > 0 && rows > 0 && Fits(columns, text)
    ensures var p, last := PenAfter(columns, rows, text), |Split(text, '\n')| - 1;
            && p.line - p.top == last - FirstLine(rows, text) >= 0
            && Stretches(text, last) != [] && p.column == |Stretches(text, last)[|Stretches(text, last)| - 1]|
  {
    hide Split, PlaceWritten, PenAfter, Fits, Stretches;
    WrittenAll(columns, rows, text, 0, 0, 0, 0);
  }

  lemma CursorShown(t: Terminal, text: string)
    requires TerminalInv(t) && Fits(t.columns, text)
    ensures var u, last := PutAll(Cleared(t), text), |Split(text, '\n')| - 1;
            && u.columns == t.columns && u.rows == t.rows && Sized(u.grid, t.columns, t.rows)
            && u.y == last - FirstLine(t.rows, text)
            && Stretches(text, last) != [] && u.x == |Stretches(text, last)[|Stretches(text, last)| - 1]|
  {
    hide Cleared, PutAll, Split, Dabs, PenAfter, Fits, Stretches, InReach, FirstLine, SeenGrid, Sized;
    FitsNoTab(t.columns, text);
    WindowOnSheet(t, text);
    PenPlaced(t.columns, t.rows, text);
  }

  /** A text of letters, newlines and returns whose stretches stay inside a row shows its last lines, one a row: at
      each column the last of the line's stretches between returns that is long enough, and blanks behind. The
      cursor stands behind the last stretch. */
  lemma LinesAndReturns(t: Terminal, text: string)
    requires TerminalInv(t) && Fits(t.columns, text)
    ensures var u, last := PutAll(Cleared(t), text), |Split(text, '\n')| - 1;
            && Sized(u.grid, t.columns, t.rows) && u.y == last - FirstLine(t.rows, text)
            && Stretches(text, last) != [] && u.x == |Stretches(text, last)[|Stretches(text, last)| - 1]|
            && forall r, k :: 0 <= r < t.rows && 0 <= k < t.columns ==>
                 u.grid[r][k] == Cover(Stretches(text, FirstLine(t.rows, text) + r), k, t.ink, t.paper)
  {
    CursorShown(t, text);
    hide Cleared, PutAll, Split, Cover, Fits, Stretches, FirstLine, Sized;
    forall r, k | 0 <= r < t.rows && 0 <= k < t.columns
      ensures PutAll(Cleared(t), text).grid[r][k] ==
              Cover(Stretches(text, FirstLine(t.rows, text) + r), k, t.ink, t.paper)
    {
      LineShown(t, text, r, k);
    }
  }

  /** The same for text without returns: the screen's rows are the text's last lines, cell by cell. */
  lemma RowsAreLines(t: Terminal, text: string, r: nat, k: nat)
    requires TerminalInv(t) && Fits(t.columns, text) && '\r' !in text && r < t.rows && k < t.columns
    ensures var lines, line := Split(text, '\n'), FirstLine(t.rows, text) + r;
            && Sized(PutAll(Cleared(t), text).grid, t.columns, t.rows)
            && PutAll(Cleared(t), text).grid[r][k] ==
               if line < |lines| && k < |lines[line]| then Glyphed(lines[line][k], t.ink, t.paper) else Blank(t.paper)
  {
    LineShown(t, text, r, k);
    var lines, line := Split(text, '\n'), FirstLine(t.rows, text) + r;
    if line < |lines| {
      PieceFree(text, '\n', '\r', line);
      SplitWhole(lines[line], '\r');
      var one := [lines[line]];
      assert one[..0] == [];
    }
    hide PutAll, Cleared, Split, Fits, FirstLine, Sized;
  }

  // A character that is not in a text is in none of its pieces.
  lemma {:induction false} PieceFree(text: string, separator: char, c: char, i: nat)
    requires c !in text && i < |Split(text, separator)|
    ensures c !in Split(text, separator)[i]
  {
    if text != "" {
      var rest := Split(text[1..], separator);
      assert c !in text[1..] && text[0] != c by { Elements(text, c); }
      if text[0] == separator {
        if i > 0 { PieceFree(text[1..], separator, c, i - 1); }
      } else {
        PieceFree(text[1..], separator, c, i);
        if i == 0 { PieceFree(text[1..], separator, c, 0); }
      }
    }
  }

  lemma Elements(text: string, c: char)
    requires c !in text && text != ""
    ensures c !in text[1..] && text[0] != c
  {
    assert text[0] in text && forall x :: x in text[1..] ==> x in text;
  }

  // ---------------------------------------------------------------- backspace

  /** On a console of two or more rows, a letter and a backspace leave the pen where it was, also when the letter
      ended its row, and a blank at its place. */
  lemma BackspaceErases(t: Terminal, text: string, c: char)
    requires TerminalInv(t) && t.rows >= 2 && '\t' !in text && Plain(c)
    ensures var before := PenAfter(t.columns, t.rows, text);
            var after := PenAfter(t.columns, t.rows, text + [c] + [BACKSPACE]);
            && after.line == before.line && after.column == before.column
            && Dabs(t.columns, t.rows, text + [c] + [BACKSPACE], t.ink, t.paper) ==
               Dabs(t.columns, t.rows, text, t.ink, t.paper)
               + [Dab(before.line, before.column, Glyphed(c, t.ink, t.paper))]
               + [Dab(before.line, before.column, Blank(t.paper))]
  {
    WindowOnSheet(t, text);
    DabsStep(t.columns, t.rows, text, c, t.ink, t.paper);
    DabsStep(t.columns, t.rows, text + [c], BACKSPACE, t.ink, t.paper);
    hide Dabs, PenAfter, Window, PutAll, Cleared;
  }

  /** At the upper left corner of a cleared console a backspace does nothing. */
  lemma BackspaceAtHome(t: Terminal)
    requires TerminalInv(t)
    ensures Put(Cleared(t), BACKSPACE) == Cleared(t)
  {
    hide BlankGrid;
    ClearedInv(t);
  }

  // ---------------------------------------------------------------- placing and colours

  /** A letter written where the cursor was placed is the only cell that changes, in the colours last set, and the
      cursor stands behind it; a place outside the grid counts as the nearest one inside. The last column is left
      out here: a letter there ends its row. */
  lemma LetterPlaced(t: Terminal, column: u32, row: u32, ink: Color, paper: Color, c: char)
    requires TerminalInv(t) && Plain(c) && Min(column, t.columns - 1) + 1 < t.columns
    ensures var s := Step(Step(t, CursorOp(column, row)), ColorsOp(ink, paper));
            var u, x, y := Put(s, c), Min(column, t.columns - 1), Min(row, t.rows - 1);
            && u.x == x + 1 && u.y == y && u.ink == ink && u.paper == paper
            && Sized(u.grid, t.columns, t.rows)
            && forall r, k :: 0 <= r < t.rows && 0 <= k < t.columns ==>
                 u.grid[r][k] == if r == y && k == x then Glyphed(c, ink, paper) else t.grid[r][k]
  {
    hide NewLine, BackOne, Spaces;
  }

  /** A clear blanks every cell in the paper colour last set, keeps both colours, and goes home. */
  lemma ClearShows(t: Terminal, ink: Color, paper: Color, r: nat, k: nat)
    requires TerminalInv(t) && r < t.rows && k < t.columns
    ensures var u := Step(Step(t, ColorsOp(ink, paper)), ClearOp);
            && u.x == 0 && u.y == 0 && u.ink == ink && u.paper == paper
            && Sized(u.grid, t.columns, t.rows) && u.grid[r][k] == Blank(paper)
  {
  }
}
