/** The inner loop of the shell, which reads a line into its buffer and echoes it. */
module LineInput {
  import opened Limits
  import opened ScreenModel
  import opened Terminal
  import opened LineEditor

  lemma PrefixSnoc(strokes: seq<Stroke>, k: nat)
    requires Fits(strokes) && k < |strokes|
    ensures strokes[..k] + [strokes[k]] == strokes[..k + 1] && |Edit(strokes[..k] + [strokes[k]])| < MAX_CMD_LEN - 1
  {
    FitsPrefix(strokes, k + 1);
    assert strokes[..k] + [strokes[k]] == strokes[..k + 1];
  }

  lemma ShowSnoc(s: Screen, os: seq<Output>, o: Output)
    requires ValidScreen(s)
    ensures ShowAll(s, os + [o]) == Show(ShowAll(s, os), o)
  {
    assert (os + [o])[..|os|] == os;
  }

  /** The strokes come from the keyboard; Enter follows the last one. */
  method ReadLine(console: Console, strokes: seq<Stroke>) returns (line: string)
    requires console.Valid() && Fits(strokes)
    modifies console`row, console`column, console.buffer
    ensures line == Edit(strokes)
    ensures console.Valid() && console.State() == ShowAll(old(console.State()), Echoed(strokes))
  {
    var cmd := new char[MAX_CMD_LEN];
    var pos: nat := 0;
    ghost var start := console.State();
    assert strokes[..0] == [];
    for k := 0 to |strokes|
      invariant fresh(cmd) && pos < MAX_CMD_LEN && cmd[..pos] == Edit(strokes[..k])
      invariant console.Valid() && console.State() == ShowAll(start, Echoed(strokes[..k]))
    {
      PrefixSnoc(strokes, k);
      pos := Stroked(console, cmd, pos, strokes[k], start, strokes[..k]);
    }
    assert strokes[..|strokes|] == strokes;
    cmd[pos] := '\0';
    line := cmd[..pos];
  }

  /** One key: a character is stored and shown, a backspace takes one back if there is one. */
  method Stroked(console: Console, cmd: array<char>, pos: nat, k: Stroke, ghost start: Screen, ghost before: seq<Stroke>)
    returns (next: nat)
    requires console.Valid() && ValidScreen(start) && cmd.Length == MAX_CMD_LEN && pos < MAX_CMD_LEN
    requires cmd[..pos] == Edit(before) && |Edit(before + [k])| < MAX_CMD_LEN - 1
    requires console.State() == ShowAll(start, Echoed(before))
    modifies console`row, console`column, console.buffer, cmd
    ensures next < MAX_CMD_LEN && cmd[..next] == Edit(before + [k])
    ensures console.Valid() && console.State() == ShowAll(start, Echoed(before + [k]))
  {
    EditSnoc(before, k);
    next := pos;
    match k
    case Back =>
      if pos > 0 {
        next := pos - 1;
        ShowSnoc(start, Echoed(before), Char(BACKSPACE));
        console.TerminalPutChar(BACKSPACE);
        assert cmd[..next] == cmd[..pos][..next];
      }
    case Type(c) =>
      cmd[pos] := c;
      next := pos + 1;
      ShowSnoc(start, Echoed(before), Char(c));
      console.TerminalPutChar(c);
      assert cmd[..next] == Edit(before) + [c];
  }
}
