/** What printed text looks like: its lines, each wrapped at 80 columns and padded with blanks. */
module TextLayout {
  import opened Limits
  import opened Strings
  import opened ScreenModel

  function Spaces(n: nat): (r: string)
    ensures |r| == n && forall i :: 0 <= i < n ==> r[i] == ' '
  {
    seq(n, _ => ' ')
  }

  /** Rows that a line takes: one more than it fills, because the cursor wraps at the 80th character. */
  function RowsOf(line: string): nat { |line| / SCREEN_WIDTH + 1 }

  function Padded(line: string): (r: string)
    ensures |r| == RowsOf(line) * SCREEN_WIDTH > |line|
  {
    line + Spaces(RowsOf(line) * SCREEN_WIDTH - |line|)
  }

  function Rows(lines: seq<string>): (r: string)
    ensures |r| % SCREEN_WIDTH == 0
    decreases |lines|
  {
    if lines == [] then "" else Rows(lines[..|lines| - 1]) + Padded(lines[|lines| - 1])
  }

  /** The layout of a text, by its lines alone: no cursor, no scrolling. */
  function Layout(text: string): string { Rows(Split(text, '\n')) }

  function CursorOf(text: string): nat {
    var lines := Split(text, '\n');
    |Rows(lines[..|lines| - 1])| + |lines[|lines| - 1]|
  }

  function Chars(cells: seq<Cell>): (r: string)
    ensures |r| == |cells| && forall i :: 0 <= i < |cells| ==> r[i] == cells[i].ch
  {
    seq(|cells|, i requires 0 <= i < |cells| => cells[i].ch)
  }

  function Extended(lines: seq<string>, c: char, sep: char): seq<string>
    requires lines != []
  {
    if c == sep then lines + [""] else lines[..|lines| - 1] + [lines[|lines| - 1] + [c]]
  }

  lemma ExtendedCons(first: string, rest: seq<string>, c: char, sep: char)
    requires rest != []
    ensures Extended([first] + rest, c, sep) == [first] + Extended(rest, c, sep)
  {
    var lines := [first] + rest;
    assert lines[..|lines| - 1] == [first] + rest[..|rest| - 1];
  }

  lemma SplitSnocLast(s: string, c: char, sep: char)
    requires sep !in s
    ensures Split(s + [c], sep) == Extended([s], c, sep)
  {
    if c == sep {
      SplitPrefix(s, "", sep);
      assert s + [c] + "" == s + [c];
      assert Split("", sep) == [""];
    } else {
      SplitNone(s + [c], sep);
    }
  }

  lemma {:induction false} SplitSnoc(s: string, c: char, sep: char)
    ensures Split(s + [c], sep) == Extended(Split(s, sep), c, sep)
    decreases |s|
  {
    var k := IndexOf(s, sep);
    if k == |s| {
      SplitNone(s, sep);
      SplitSnocLast(s, c, sep);
    } else {
      var first, rest := s[..k], s[k + 1..];
      SplitSnoc(rest, c, sep);
      assert s + [c] == first + [sep] + (rest + [c]);
      SplitPrefix(first, rest + [c], sep);
      ExtendedCons(first, Split(rest, sep), c, sep);
    }
  }

  /** The grid shows a text: its layout, then blanks up to a whole window. */
  ghost predicate Shows(g: Grid, text: string) {
    && |g.cells| == (if |Layout(text)| > CELLS then |Layout(text)| else CELLS)
    && Chars(g.cells) == Layout(text) + Spaces(|g.cells| - |Layout(text)|)
    && g.cursor == CursorOf(text)
  }

  lemma LayoutNewline(text: string)
    ensures Layout(text + "\n") == Layout(text) + Spaces(SCREEN_WIDTH)
    ensures CursorOf(text + "\n") == |Layout(text)|
    ensures |Layout(text)| == (CursorOf(text) / SCREEN_WIDTH + 1) * SCREEN_WIDTH
  {
    var lines := Split(text, '\n');
    SplitSnoc(text, '\n', '\n');
    assert (lines + [""])[..|lines|] == lines;
    assert Padded("") == Spaces(SCREEN_WIDTH);
  }

  lemma LayoutPrint(text: string, c: char)
    requires c != '\n'
    ensures var at, was, now := CursorOf(text), Layout(text), Layout(text + [c]);
            && at < |was| && CursorOf(text + [c]) == at + 1
            && now == was[at := c] + Spaces(if at + 1 == |was| then SCREEN_WIDTH else 0)
            && was[at] == ' '
  {
    var lines := Split(text, '\n');
    var front, last := lines[..|lines| - 1], lines[|lines| - 1];
    SplitSnoc(text, c, '\n');
    assert lines == front + [last];
    RowsPrint(front, last, c);
    assert (front + [last + [c]])[..|front|] == front;
  }

  lemma RowsSnoc(front: seq<string>, last: string)
    ensures Rows(front + [last]) == Rows(front) + Padded(last)
  {
    assert (front + [last])[..|front|] == front;
  }

  lemma RowsPrint(front: seq<string>, last: string, c: char)
    ensures var at, was := |Rows(front)| + |last|, Rows(front + [last]);
            && at < |was| && was[at] == ' '
            && Rows(front + [last + [c]]) == was[at := c] + Spaces(if at + 1 == |was| then SCREEN_WIDTH else 0)
  {
    RowsSnoc(front, last);
    RowsSnoc(front, last + [c]);
    PaddedSnoc(last, c);
    UpdateRight(Rows(front), Padded(last), |last|, c);
  }

  lemma UpdateRight(a: string, b: string, i: nat, c: char)
    requires i < |b|
    ensures (a + b)[|a| + i := c] == a + b[i := c] && (a + b)[|a| + i] == b[i]
  {
  }

  lemma PaddedSnoc(line: string, c: char)
    ensures Padded(line + [c]) == Padded(line)[|line| := c] + Spaces(if |line| + 1 == |Padded(line)| then SCREEN_WIDTH else 0)
    ensures Padded(line)[|line|] == ' '
  {
  }

  lemma ShowsNewline(g: Grid, text: string)
    requires ValidGrid(g) && Shows(g, text)
    ensures Shows(Put(g, '\n'), text + "\n")
  {
    LayoutNewline(text);
  }

  lemma ShowsPrint(g: Grid, text: string, c: char)
    requires ValidGrid(g) && Shows(g, text) && c != '\n' && c != BACKSPACE
    ensures Shows(Put(g, c), text + [c])
  {
    LayoutPrint(text, c);
  }

  /** One blank window with the cursor at its start, in whatever colours. */
  ghost predicate BlankGrid(g: Grid) {
    |g.cells| == CELLS && g.cursor == 0 && forall i :: 0 <= i < CELLS ==> g.cells[i].ch == ' '
  }

  lemma BlankShowsNothing(g: Grid)
    requires BlankGrid(g)
    ensures Shows(g, "")
  {
    assert Split("", '\n') == [""] && [""][..0] == [];
    assert Padded("") == Spaces(SCREEN_WIDTH);
    assert Layout("") == Spaces(SCREEN_WIDTH);
  }

  /** Printed text without backspaces appears exactly as laid out, with the cursor at its end. */
  lemma {:induction false} PrintedIsLayout(g: Grid, text: string)
    requires BACKSPACE !in text && ValidGrid(g) && BlankGrid(g)
    ensures Shows(WriteAll(g, Text(text)), text)
    decreases |text|
  {
    if text == [] {
      BlankShowsNothing(g);
    } else {
      var front, c := text[..|text| - 1], text[|text| - 1];
      assert text == front + [c];
      PrintedIsLayout(g, front);
      TextSnoc(g, front, c);
      if c == '\n' {
        ShowsNewline(WriteAll(g, Text(front)), front);
      } else {
        ShowsPrint(WriteAll(g, Text(front)), front, c);
      }
    }
  }

  /** The last 25 rows of a layout, or all of it above blanks. */
  function BottomRows(text: string): string {
    var all := Layout(text);
    if |all| > CELLS then all[|all| - CELLS..] else all + Spaces(CELLS - |all|)
  }

  ghost predicate BlankScreen(s: Screen) {
    |s.cells| == CELLS && s.row == s.column == 0 && forall i :: 0 <= i < CELLS ==> s.cells[i].ch == ' '
  }

  lemma GridShows(g: Grid, text: string)
    requires ValidGrid(g) && Shows(g, text)
    ensures Chars(Window(g).cells) == BottomRows(text)
  {
    assert Chars(Window(g).cells) == Chars(g.cells)[Top(g)..];
  }

  /** So a screen that was blank shows the bottom rows of what is printed. */
  lemma ScreenShowsLayout(s: Screen, text: string)
    requires BACKSPACE !in text && BlankScreen(s)
    ensures Chars(ShowAll(s, Text(text)).cells) == BottomRows(text)
  {
    var g := Grid(s.cells, 0, s.color);
    assert Window(g) == s;
    PrintedIsLayout(g, text);
    ShowIsWindow(g, Text(text));
    GridShows(WriteAll(g, Text(text)), text);
  }
}
