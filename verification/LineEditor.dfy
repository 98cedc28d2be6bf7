/** Typing a command: the screen shows what will be submitted. */
module LineEditor {
  import opened Limits
  import opened ScreenModel

  // The keys of a line before Enter: printable characters and backspace.
  datatype Stroke = Type(c: char) | Back

  /** The line buffer: backspace removes the last character, if there is one. */
  function Edit(strokes: seq<Stroke>): string
    decreases |strokes|
  {
    if strokes == [] then ""
    else
      var line := Edit(strokes[..|strokes| - 1]);
      match strokes[|strokes| - 1]
      case Type(c) => line + [c]
      case Back => if line == "" then "" else line[..|line| - 1]
  }

  /** What the shell sends to the terminal for the strokes. */
  function Echoed(strokes: seq<Stroke>): seq<Output>
    decreases |strokes|
  {
    if strokes == [] then []
    else
      var before := strokes[..|strokes| - 1];
      Echoed(before) +
      match strokes[|strokes| - 1]
      case Type(c) => [Char(c)]
      case Back => if Edit(before) == "" then [] else [Char(BACKSPACE)]
  }

  /** Not a control key: Enter and backspace, and the arrow keys, which arrive as the characters 0x11 to 0x14. */
  predicate Printable(k: Stroke) {
    k.Type? ==> k.c != '\n' && k.c != BACKSPACE && !(0x11 <= k.c as int <= 0x14)
  }

  /** Printable keys, and a line that never fills its buffer: at 255 characters the shell gives it up. */
  ghost predicate Fits(strokes: seq<Stroke>) {
    && (forall i :: 0 <= i < |strokes| ==> Printable(strokes[i]))
    && (forall n :: 0 <= n <= |strokes| ==> |Edit(strokes[..n])| < MAX_CMD_LEN - 1)
  }

  lemma FitsPrefix(strokes: seq<Stroke>, n: nat)
    requires Fits(strokes) && n <= |strokes|
    ensures Fits(strokes[..n]) && |Edit(strokes[..n])| < MAX_CMD_LEN - 1
  {
    forall m | 0 <= m <= n
      ensures |Edit(strokes[..n][..m])| < MAX_CMD_LEN - 1
    {
      assert strokes[..n][..m] == strokes[..m];
    }
  }

  /** The same characters in the same places, rows that only one has being blank. */
  ghost predicate LooksLike(g: Grid, h: Grid) {
    && g.cursor == h.cursor && g.color == h.color && |g.cells| >= |h.cells|
    && (forall i :: 0 <= i < |h.cells| ==> g.cells[i].ch == h.cells[i].ch)
    && (forall i :: |h.cells| <= i < |g.cells| ==> g.cells[i].ch == ' ')
  }

  ghost predicate Room(g: Grid, start: nat, was: nat) {
    |g.cells| <= (if was > start + 2 * MAX_CMD_LEN then was else start + 2 * MAX_CMD_LEN)
  }

  lemma WriteSnoc(g: Grid, os: seq<Output>, o: Output)
    requires ValidGrid(g)
    ensures WriteAll(g, os + [o]) == Write(WriteAll(g, os), o)
  {
    assert (os + [o])[..|os|] == os;
  }

  /** The typed line on the grid: it ends at the cursor, and nothing lies ahead. */
  lemma {:induction false} LineOnGrid(g: Grid, line: string)
    requires ValidGrid(g) && BlankAhead(g)
    requires PlainLine(line)
    ensures var h := WriteAll(g, Text(line));
            h.cursor == g.cursor + |line| && h.color == g.color && BlankAhead(h) && |h.cells| >= |g.cells|
    decreases |line|
  {
    if line != "" {
      var front, c := line[..|line| - 1], line[|line| - 1];
      LineOnGrid(g, front);
      TextSnoc(g, front, c);
      assert line == front + [c];
    } else {
      assert Text(line) == [];
    }
  }

  lemma TypeLooks(g: Grid, h: Grid, c: char)
    requires ValidGrid(g) && ValidGrid(h) && LooksLike(g, h) && c != '\n' && c != BACKSPACE
    ensures LooksLike(Put(g, c), Put(h, c))
  {
  }

  /** Backspace on the edited grid looks like never having typed the last character. */
  lemma BackLooks(g: Grid, h: Grid, c: char)
    requires ValidGrid(g) && ValidGrid(h) && BlankAhead(h) && c != '\n' && c != BACKSPACE
    requires LooksLike(g, Put(h, c)) && g.cursor > Top(g)
    ensures LooksLike(Put(g, BACKSPACE), h)
  {
  }

  ghost predicate PlainLine(line: string) {
    forall i :: 0 <= i < |line| ==> line[i] != '\n' && line[i] != BACKSPACE
  }

  lemma {:induction false} EditIsPlain(strokes: seq<Stroke>)
    requires forall i :: 0 <= i < |strokes| ==> Printable(strokes[i])
    ensures PlainLine(Edit(strokes))
    decreases |strokes|
  {
    if strokes != [] {
      EditIsPlain(strokes[..|strokes| - 1]);
    }
  }

  lemma EditSnoc(before: seq<Stroke>, k: Stroke)
    ensures var line, all := Edit(before), before + [k];
            match k
            case Type(c) => Edit(all) == line + [c] && Echoed(all) == Echoed(before) + [Char(c)]
            case Back =>
              if line == "" then Edit(all) == "" && Echoed(all) == Echoed(before)
              else Edit(all) == line[..|line| - 1] && Echoed(all) == Echoed(before) + [Char(BACKSPACE)]
  {
    assert (before + [k])[..|before|] == before;
    assert Echoed(before) + [] == Echoed(before);
  }

  /** After the output, the grid looks as if only the line had been written from `g` on. */
  ghost predicate Shown(g: Grid, echoed: seq<Output>, line: string)
    requires ValidGrid(g)
  {
    && LooksLike(WriteAll(g, echoed), WriteAll(g, Text(line)))
    && Room(WriteAll(g, echoed), g.cursor, |g.cells|)
  }

  /**
   What you see is what you submit: after any typing and erasing, the screen's grid looks as if only
   the remaining line had been typed, wherever on the screen the prompt is.
   */
  lemma {:induction false} EchoShowsLine(g: Grid, strokes: seq<Stroke>)
    requires ValidGrid(g) && BlankAhead(g) && Fits(strokes)
    ensures LooksLike(WriteAll(g, Echoed(strokes)), WriteAll(g, Text(Edit(strokes))))
    ensures Shown(g, Echoed(strokes), Edit(strokes))
    decreases |strokes|
  {
    if strokes == [] {
      assert Text("") == [];
    } else {
      var before, k := strokes[..|strokes| - 1], strokes[|strokes| - 1];
      FitsPrefix(strokes, |strokes| - 1);
      EchoShowsLine(g, before);
      EditIsPlain(before);
      assert strokes == before + [k] && Printable(k);
      EditSnoc(before, k);
      match k
      case Type(c) => TypeStep(g, Echoed(before), Edit(before), c);
      case Back => if Edit(before) != "" { BackStep(g, Echoed(before), Edit(before)); }
    }
  }

  lemma TypeStep(g: Grid, echoed: seq<Output>, line: string, c: char)
    requires ValidGrid(g) && BlankAhead(g) && Shown(g, echoed, line) && Printable(Type(c))
    requires PlainLine(line) && |line| < MAX_CMD_LEN
    ensures Shown(g, echoed + [Char(c)], line + [c])
  {
    LineOnGrid(g, line);
    WriteSnoc(g, echoed, Char(c));
    TextSnoc(g, line, c);
    TypeLooks(WriteAll(g, echoed), WriteAll(g, Text(line)), c);
  }

  lemma BackStep(g: Grid, echoed: seq<Output>, line: string)
    requires ValidGrid(g) && BlankAhead(g) && Shown(g, echoed, line)
    requires PlainLine(line) && 0 < |line| < MAX_CMD_LEN
    ensures Shown(g, echoed + [Char(BACKSPACE)], line[..|line| - 1])
  {
    var front, c := line[..|line| - 1], line[|line| - 1];
    WriteSnoc(g, echoed, Char(BACKSPACE));
    assert line == front + [c];
    TextSnoc(g, front, c);
    LineOnGrid(g, front);
    BackOnGrid(g, WriteAll(g, echoed), WriteAll(g, Text(front)), c);
  }

  /** The prompt is still in the window, so the backspace is not stopped at its top. */
  lemma BackOnGrid(start: Grid, g: Grid, h: Grid, c: char)
    requires ValidGrid(start) && ValidGrid(g) && ValidGrid(h) && BlankAhead(h) && c != '\n' && c != BACKSPACE
    requires start.cursor <= h.cursor && LooksLike(g, Put(h, c)) && Room(g, start.cursor, |start.cells|)
    ensures LooksLike(Put(g, BACKSPACE), h) && Room(Put(g, BACKSPACE), start.cursor, |start.cells|)
  {
    assert g.cursor == h.cursor + 1;
    BackLooks(g, h, c);
  }

  // ---------- what the line is ----------

  function Keys(text: string): (r: seq<Stroke>)
    ensures |r| == |text| && forall i :: 0 <= i < |text| ==> r[i] == Type(text[i])
  {
    seq(|text|, i requires 0 <= i < |text| => Type(text[i]))
  }

  /** Typing a text adds it to the line. */
  lemma {:induction false} TypedIsAdded(strokes: seq<Stroke>, text: string)
    ensures Edit(strokes + Keys(text)) == Edit(strokes) + text
    decreases |text|
  {
    if text == "" {
      assert strokes + Keys(text) == strokes;
    } else {
      var front, c := text[..|text| - 1], text[|text| - 1];
      TypedIsAdded(strokes, front);
      assert strokes + Keys(text) == strokes + Keys(front) + [Type(c)];
      EditSnoc(strokes + Keys(front), Type(c));
    }
  }

  function Backs(n: nat): (r: seq<Stroke>)
    ensures |r| == n && forall i :: 0 <= i < n ==> r[i] == Back
  {
    seq(n, _ => Back)
  }

  lemma BacksSnoc(strokes: seq<Stroke>, n: nat)
    requires n > 0
    ensures strokes + Backs(n) == strokes + Backs(n - 1) + [Back]
  {
  }

  function Shortened(line: string, n: nat): string {
    if n <= |line| then line[..|line| - n] else ""
  }

  lemma ShortenedOnce(line: string, n: nat)
    requires n > 0
    ensures Shortened(Shortened(line, n - 1), 1) == Shortened(line, n)
  {
  }

  /** As many backspaces as characters take a text back; further ones take what stood before it. */
  lemma {:induction false} BacksErase(strokes: seq<Stroke>, n: nat)
    ensures Edit(strokes + Backs(n)) == Shortened(Edit(strokes), n)
    decreases n
  {
    if n == 0 {
      assert strokes + Backs(0) == strokes;
    } else {
      BacksErase(strokes, n - 1);
      BacksSnoc(strokes, n);
      EditSnoc(strokes + Backs(n - 1), Back);
      ShortenedOnce(Edit(strokes), n);
    }
  }

  /** Typing a text and erasing it leaves the line as it was. */
  lemma ErasedIsGone(strokes: seq<Stroke>, text: string)
    ensures Edit(strokes + Keys(text) + Backs(|text|)) == Edit(strokes)
  {
    TypedIsAdded(strokes, text);
    BacksErase(strokes + Keys(text), |text|);
  }
}
