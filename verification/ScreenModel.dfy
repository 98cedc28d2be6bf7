/** The 25 by 80 screen as a value, and the unbounded grid that it is a window of. */
module ScreenModel {
  import opened Limits

  const CELLS := SCREEN_HEIGHT * SCREEN_WIDTH
  const BACKSPACE: char := 8 as char

  // A cell of the text buffer: an ASCII character and a colour byte.
  datatype Cell = Cell(ch: char, color: nat)

  datatype Screen = Screen(cells: seq<Cell>, row: nat, column: nat, color: nat)

  function Blanks(n: nat, color: nat): (r: seq<Cell>)
    ensures |r| == n && forall i :: 0 <= i < n ==> r[i] == Cell(' ', color)
  {
    seq(n, _ => Cell(' ', color))
  }

  ghost predicate ValidScreen(s: Screen) {
    |s.cells| == CELLS && s.row < SCREEN_HEIGHT && s.column < SCREEN_WIDTH
  }

  // ---------- what the kernel does to the screen ----------

  function Cleared(color: nat): (r: Screen)
    ensures ValidScreen(r)
  {
    Screen(Blanks(CELLS, color), 0, 0, color)
  }

  function Scroll(s: Screen): (r: Screen)
    requires |s.cells| == CELLS
    ensures ValidScreen(r)
  {
    Screen(s.cells[SCREEN_WIDTH..] + Blanks(SCREEN_WIDTH, s.color), SCREEN_HEIGHT - 1, 0, s.color)
  }

  function NextRow(s: Screen): (r: Screen)
    requires |s.cells| == CELLS && s.row < SCREEN_HEIGHT
    ensures ValidScreen(r)
  {
    if s.row + 1 == SCREEN_HEIGHT then Scroll(s) else Screen(s.cells, s.row + 1, 0, s.color)
  }

  function Offset(s: Screen): nat { s.row * SCREEN_WIDTH + s.column }

  function PutChar(s: Screen, c: char): (r: Screen)
    requires ValidScreen(s)
    ensures ValidScreen(r)
  {
    if c == '\n' then NextRow(s)
    else if c == BACKSPACE then
      if s.column > 0 then
        Screen(s.cells[Offset(s) - 1 := Cell(' ', s.color)], s.row, s.column - 1, s.color)
      else if s.row > 0 then
        Screen(s.cells[Offset(s) - 1 := Cell(' ', s.color)], s.row - 1, SCREEN_WIDTH - 1, s.color)
      else s
    else
      var t := Screen(s.cells[Offset(s) := Cell(c, s.color)], s.row, s.column, s.color);
      if s.column + 1 == SCREEN_WIDTH then NextRow(t) else Screen(t.cells, t.row, t.column + 1, t.color)
  }

  /** Both nibbles of the colour byte. */
  function ColorByte(fg: nat, bg: nat): nat { bg % 16 * 16 + fg % 16 }

  /** The foreground in the low nibble, the background in the high one. */
  lemma ColorNibbles(fg: nat, bg: nat)
    ensures var b := ColorByte(fg, bg); b < 256 && b % 16 == fg % 16 && b / 16 == bg % 16
  {
  }

  /** What a program sends to its terminal. */
  datatype Output = Char(c: char) | Color(color: nat)

  function Text(s: string): (r: seq<Output>)
    ensures |r| == |s| && forall i :: 0 <= i < |s| ==> r[i] == Char(s[i])
  {
    seq(|s|, i requires 0 <= i < |s| => Char(s[i]))
  }

  function Show(s: Screen, o: Output): (r: Screen)
    requires ValidScreen(s)
    ensures ValidScreen(r)
  {
    match o
    case Char(c) => PutChar(s, c)
    case Color(color) => Screen(s.cells, s.row, s.column, color)
  }

  function ShowAll(s: Screen, os: seq<Output>): (r: Screen)
    requires ValidScreen(s)
    ensures ValidScreen(r)
    decreases |os|
  {
    if os == [] then s else Show(ShowAll(s, os[..|os| - 1]), os[|os| - 1])
  }

  /** After a colour is set, a printed character has that foreground and background, a row higher if it scrolled. */
  lemma PrintedInColor(s: Screen, fg: nat, bg: nat, c: char)
    requires ValidScreen(s) && c != '\n' && c != BACKSPACE
    ensures var t := Show(Show(s, Color(ColorByte(fg, bg))), Char(c));
            var at := if Offset(s) == CELLS - 1 then CELLS - 1 - SCREEN_WIDTH else Offset(s);
            && t.cells[at].ch == c && t.cells[at].color % 16 == fg % 16 && t.cells[at].color / 16 == bg % 16
            && t.color % 16 == fg % 16 && t.color / 16 == bg % 16
  {
    ColorNibbles(fg, bg);
  }

  /** The top left of the screen stops a backspace; a newline below the last row clears a new one in the current colour. */
  lemma ScreenEdges(s: Screen)
    requires ValidScreen(s)
    ensures Offset(s) == 0 ==> PutChar(s, BACKSPACE) == s
    ensures s.row == SCREEN_HEIGHT - 1 ==>
              var t := PutChar(s, '\n');
              && t.row == SCREEN_HEIGHT - 1 && t.column == 0
              && (forall i :: 0 <= i < CELLS - SCREEN_WIDTH ==> t.cells[i] == s.cells[i + SCREEN_WIDTH])
              && (forall i :: CELLS - SCREEN_WIDTH <= i < CELLS ==> t.cells[i] == Cell(' ', s.color))
  {
  }

  // ---------- the unbounded grid ----------

  /** All rows since the clear, in row-major order; the last 25 are the ones shown. */
  datatype Grid = Grid(cells: seq<Cell>, cursor: nat, color: nat)

  function Top(g: Grid): int { |g.cells| - CELLS }

  ghost predicate ValidGrid(g: Grid) {
    && |g.cells| % SCREEN_WIDTH == 0 && Top(g) >= 0
    && Top(g) <= g.cursor < |g.cells|
  }

  /** The window at the bottom of the grid. */
  function Window(g: Grid): (s: Screen)
    requires ValidGrid(g)
    ensures ValidScreen(s)
  {
    Screen(g.cells[Top(g)..], (g.cursor - Top(g)) / SCREEN_WIDTH, (g.cursor - Top(g)) % SCREEN_WIDTH, g.color)
  }

  function Start(color: nat): (g: Grid)
    ensures ValidGrid(g)
  {
    Grid(Blanks(CELLS, color), 0, color)
  }

  /** A cursor past the last row adds a blank row. */
  function Grow(g: Grid): Grid {
    if g.cursor == |g.cells| then Grid(g.cells + Blanks(SCREEN_WIDTH, g.color), g.cursor, g.color) else g
  }

  /**
   On the grid a printable is written at the cursor and advances it, a newline goes to the next row,
   and a backspace steps back and blanks, except at the top left of the window.
   */
  function Put(g: Grid, c: char): (r: Grid)
    requires ValidGrid(g)
  {
    if c == '\n' then Grow(Grid(g.cells, (g.cursor / SCREEN_WIDTH + 1) * SCREEN_WIDTH, g.color))
    else if c == BACKSPACE then
      if g.cursor > Top(g) then Grid(g.cells[g.cursor - 1 := Cell(' ', g.color)], g.cursor - 1, g.color) else g
    else Grow(Grid(g.cells[g.cursor := Cell(c, g.color)], g.cursor + 1, g.color))
  }

  function Write(g: Grid, o: Output): (r: Grid)
    requires ValidGrid(g)
    ensures ValidGrid(r)
  {
    match o
    case Char(c) => PutKeepsValid(g, c); Put(g, c)
    case Color(color) => Grid(g.cells, g.cursor, color)
  }

  function WriteAll(g: Grid, os: seq<Output>): (r: Grid)
    requires ValidGrid(g)
    ensures ValidGrid(r)
    decreases |os|
  {
    if os == [] then g else Write(WriteAll(g, os[..|os| - 1]), os[|os| - 1])
  }

  lemma TextSnoc(g: Grid, line: string, c: char)
    requires ValidGrid(g)
    ensures WriteAll(g, Text(line + [c])) == Write(WriteAll(g, Text(line)), Char(c))
  {
    var os := Text(line + [c]);
    assert os[..|os| - 1] == Text(line);
  }

  lemma PutKeepsValid(g: Grid, c: char)
    requires ValidGrid(g)
    ensures ValidGrid(Put(g, c)) && Put(g, c).color == g.color
  {
  }

  // ---------- the screen is the window ----------

  lemma GrowIsScroll(g: Grid, s: Screen)
    requires |g.cells| % SCREEN_WIDTH == 0 && Top(g) >= 0 && g.cursor == |g.cells|
    requires s.cells == g.cells[Top(g)..] && s.color == g.color
    ensures ValidGrid(Grow(g)) && Window(Grow(g)) == Scroll(s)
  {
  }

  lemma WindowNewline(g: Grid)
    requires ValidGrid(g)
    ensures Window(Put(g, '\n')) == PutChar(Window(g), '\n')
  {
    var next := Grid(g.cells, (g.cursor / SCREEN_WIDTH + 1) * SCREEN_WIDTH, g.color);
    if next.cursor == |g.cells| {
      GrowIsScroll(next, Window(g));
    }
  }

  lemma WindowBackspace(g: Grid)
    requires ValidGrid(g)
    ensures Window(Put(g, BACKSPACE)) == PutChar(Window(g), BACKSPACE)
  {
  }

  lemma WindowPrint(g: Grid, c: char)
    requires ValidGrid(g) && c != '\n' && c != BACKSPACE
    ensures Window(Put(g, c)) == PutChar(Window(g), c)
  {
    var s, next := Window(g), Grid(g.cells[g.cursor := Cell(c, g.color)], g.cursor + 1, g.color);
    var t := Screen(s.cells[Offset(s) := Cell(c, s.color)], s.row, s.column, s.color);
    assert Offset(s) == g.cursor - Top(g);
    assert t.cells == next.cells[Top(g)..];
    if next.cursor == |g.cells| {
      GrowIsScroll(next, t);
    }
  }

  lemma WindowPut(g: Grid, c: char)
    requires ValidGrid(g)
    ensures ValidGrid(Put(g, c)) && Window(Put(g, c)) == PutChar(Window(g), c)
  {
    PutKeepsValid(g, c);
    if c == '\n' {
      WindowNewline(g);
    } else if c == BACKSPACE {
      WindowBackspace(g);
    } else {
      WindowPrint(g, c);
    }
  }

  /** Whatever is sent to a screen that is the window of a grid, it stays the window of that grid. */
  lemma {:induction false} ShowIsWindow(g: Grid, os: seq<Output>)
    requires ValidGrid(g)
    ensures ShowAll(Window(g), os) == Window(WriteAll(g, os))
    decreases |os|
  {
    if os != [] {
      var h, o := WriteAll(g, os[..|os| - 1]), os[|os| - 1];
      ShowIsWindow(g, os[..|os| - 1]);
      if o.Char? {
        WindowPut(h, o.c);
      }
    }
  }

  /** The terminal refinement: whatever is sent after a clear, the screen is the window of the grid. */
  lemma ScreenIsWindow(color: nat, os: seq<Output>)
    ensures ShowAll(Cleared(color), os) == Window(WriteAll(Start(color), os))
  {
    assert Window(Start(color)) == Cleared(color);
    ShowIsWindow(Start(color), os);
  }

  // ---------- nothing lies ahead of the cursor ----------

  ghost predicate BlankAhead(g: Grid) {
    forall i :: g.cursor <= i < |g.cells| ==> g.cells[i].ch == ' '
  }

  lemma {:induction false} AheadIsBlank(color: nat, os: seq<Output>)
    ensures BlankAhead(WriteAll(Start(color), os))
    decreases |os|
  {
    if os != [] {
      AheadIsBlank(color, os[..|os| - 1]);
    }
  }

  /** Every cell at or after the cursor of the screen is blank, backspaces included. */
  lemma ScreenAheadIsBlank(color: nat, os: seq<Output>)
    ensures var s := ShowAll(Cleared(color), os);
            forall i :: Offset(s) <= i < CELLS ==> s.cells[i].ch == ' '
  {
    ScreenIsWindow(color, os);
    AheadIsBlank(color, os);
    var g := WriteAll(Start(color), os);
    assert Offset(Window(g)) == g.cursor - Top(g);
  }

  // ---------- what a backspace undoes ----------

  /** A backspace takes back a printed character, but not the row that it may have added. */
  lemma BackspaceUndoes(g: Grid, c: char)
    requires ValidGrid(g) && BlankAhead(g) && c != '\n' && c != BACKSPACE
    ensures ValidGrid(Put(g, c))
    ensures var h := Put(Put(g, c), BACKSPACE);
            && h.cursor == g.cursor && |h.cells| >= |g.cells|
            && (forall i :: 0 <= i < |g.cells| && i != g.cursor ==> h.cells[i] == g.cells[i])
            && h.cells[g.cursor] == Cell(' ', g.color)
            && (|h.cells| == |g.cells| <==> g.cursor + 1 < |g.cells|)
  {
    PutKeepsValid(g, c);
  }
}
