/** The command history of the shell: 100 lines, and a position that the arrow keys move. */
module History {
  import opened Limits

  // What the array holds, and the position of the arrow keys.
  datatype Recall = Recall(lines: seq<string>, pos: nat)

  datatype Key = Submit(cmd: string) | Up | Down

  function LastLines(lines: seq<string>): (r: seq<string>)
    ensures |r| <= HISTORY_SIZE
  {
    if |lines| <= HISTORY_SIZE then lines else lines[|lines| - HISTORY_SIZE..]
  }

  function Press(h: Recall, k: Key): Recall {
    match k
    case Submit(cmd) =>
      if cmd == "" then h
      else var lines := LastLines(h.lines + [cmd]); Recall(lines, |lines|)
    case Up => if h.pos > 0 then Recall(h.lines, h.pos - 1) else h
    case Down => if h.pos < |h.lines| - 1 then Recall(h.lines, h.pos + 1) else h
  }

  function PressAll(keys: seq<Key>): Recall
    decreases |keys|
  {
    if keys == [] then Recall([], 0) else Press(PressAll(keys[..|keys| - 1]), keys[|keys| - 1])
  }

  /** The non-empty commands submitted so far, oldest first. */
  function Submitted(keys: seq<Key>): seq<string>
    decreases |keys|
  {
    if keys == [] then []
    else
      var k := keys[|keys| - 1];
      Submitted(keys[..|keys| - 1]) + if k.Submit? && k.cmd != "" then [k.cmd] else []
  }

  /** The commands that count are those typed, in order, but for empty ones; arrows add none. */
  lemma {:induction false} SubmittedGrows(keys: seq<Key>, k: Key)
    ensures Submitted(keys + [k]) == Submitted(keys) + if k.Submit? && k.cmd != "" then [k.cmd] else []
    ensures forall i :: 0 <= i < |Submitted(keys)| ==> Submitted(keys)[i] != ""
    decreases |keys|
  {
    assert (keys + [k])[..|keys|] == keys;
    if keys != [] {
      SubmittedGrows(keys[..|keys| - 1], keys[|keys| - 1]);
      assert keys == keys[..|keys| - 1] + [keys[|keys| - 1]];
    }
  }

  /** How many lines the history has after some commands. */
  function Kept(count: nat): nat { if count < 100 then count else 100 }

  /** After any keys the history is exactly the last hundred non-empty commands, in order, or all there are. */
  lemma HistoryIsLastLines(keys: seq<Key>)
    ensures var subs, h := Submitted(keys), PressAll(keys);
            && |h.lines| == Kept(|subs|) && h.pos <= |h.lines|
            && forall i :: 0 <= i < |h.lines| ==> h.lines[i] == subs[|subs| - |h.lines| + i]
  {
    LinesAreLast(keys);
  }

  lemma {:induction false} LinesAreLast(keys: seq<Key>)
    ensures PressAll(keys).lines == LastLines(Submitted(keys))
    ensures PressAll(keys).pos <= |PressAll(keys).lines|
    decreases |keys|
  {
    if keys != [] {
      LinesAreLast(keys[..|keys| - 1]);
      var k := keys[|keys| - 1];
      if k.Submit? && k.cmd != "" {
        LastLinesSnoc(Submitted(keys[..|keys| - 1]), k.cmd);
      } else {
        assert Submitted(keys) == Submitted(keys[..|keys| - 1]);
      }
    }
  }

  lemma LastLinesSnoc(lines: seq<string>, cmd: string)
    ensures LastLines(LastLines(lines) + [cmd]) == LastLines(lines + [cmd])
  {
  }

  function Times(k: Key, n: nat): (r: seq<Key>)
    ensures |r| == n && forall i :: 0 <= i < n ==> r[i] == k
  {
    seq(n, _ => k)
  }

  lemma TimesSnoc(start: seq<Key>, k: Key, n: nat)
    requires n > 0
    ensures start + Times(k, n) == (start + Times(k, n - 1)) + [k]
  {
  }

  lemma PressSnoc(keys: seq<Key>, k: Key)
    ensures PressAll(keys + [k]) == Press(PressAll(keys), k)
  {
    assert (keys + [k])[..|keys|] == keys;
  }

  lemma {:induction false} UpMoves(keys: seq<Key>, cmd: string, n: nat)
    requires cmd != "" && n <= |PressAll(keys + [Submit(cmd)]).lines|
    ensures var h := PressAll(keys + [Submit(cmd)]);
            PressAll(keys + [Submit(cmd)] + Times(Up, n)) == Recall(h.lines, |h.lines| - n)
    decreases n
  {
    var start := keys + [Submit(cmd)];
    if n == 0 {
      assert start + Times(Up, 0) == start;
      PressSnoc(keys, Submit(cmd));
    } else {
      UpMoves(keys, cmd, n - 1);
      TimesSnoc(start, Up, n);
      PressSnoc(start + Times(Up, n - 1), Up);
    }
  }

  lemma LineFromEnd(keys: seq<Key>, n: nat)
    requires 1 <= n <= |PressAll(keys).lines|
    ensures var subs, lines := Submitted(keys), PressAll(keys).lines;
            n <= |subs| && lines[|lines| - n] == subs[|subs| - n]
  {
    HistoryIsLastLines(keys);
  }

  /** After a command, `n` presses of Up bring back the `n`-th last command submitted: one brings back that command. */
  lemma UpSelects(keys: seq<Key>, cmd: string, n: nat)
    requires cmd != "" && 1 <= n <= Kept(|Submitted(keys)| + 1)
    ensures var subs, h := Submitted(keys) + [cmd], PressAll(keys + [Submit(cmd)] + Times(Up, n));
            && h.pos < |h.lines| && h.lines[h.pos] == subs[|subs| - n]
            && (n == 1 ==> h.lines[h.pos] == cmd)
  {
    var start := keys + [Submit(cmd)];
    SubmittedGrows(keys, Submit(cmd));
    assert |PressAll(start).lines| == Kept(|Submitted(start)|) by { HistoryIsLastLines(start); }
    LineFromEnd(start, n);
    UpMoves(keys, cmd, n);
  }

  /** Down takes back an Up unless that Up left the blank line at the end. */
  lemma DownUndoesUp(h: Recall)
    requires 0 < h.pos <= |h.lines|
    ensures Press(Press(h, Up), Down) == h <==> h.pos < |h.lines|
  {
  }

  class CommandHistory {
    const entries: array<string>
    var count: int
    var pos: int

    ghost predicate Valid()
      reads this
    {
      entries.Length == HISTORY_SIZE && 0 <= pos <= count <= HISTORY_SIZE
    }

    ghost function State(): Recall
      requires Valid()
      reads this, entries
    {
      Recall(entries[..count], pos)
    }

    constructor ()
      ensures Valid() && fresh(entries) && State() == Recall([], 0)
    {
      entries := new string[HISTORY_SIZE](_ => "");
      count, pos := 0, 0;
    }

    method AddToHistory(cmd: string)
      requires Valid()
      modifies this, entries
      ensures Valid() && State() == Press(old(State()), Submit(cmd))
    {
      if |cmd| == 0 { return; }
      if count < HISTORY_SIZE {
        entries[count] := cmd;
        count := count + 1;
        assert entries[..count] == old(entries[..count]) + [cmd];
      } else {
        for i := 0 to HISTORY_SIZE - 1
          invariant count == old(count)
          invariant forall j :: 0 <= j < i ==> entries[j] == old(entries[j + 1])
          invariant forall j :: i <= j < HISTORY_SIZE ==> entries[j] == old(entries[j])
        {
          entries[i] := entries[i + 1];
        }
        entries[HISTORY_SIZE - 1] := cmd;
        assert entries[..count] == LastLines(old(entries[..count]) + [cmd]);
      }
      pos := count;
    }

    /** The up arrow: the line it brings back, if there is an older one. */
    method ArrowUp(cmd: string) returns (line: string)
      requires Valid()
      modifies `pos
      ensures Valid() && State() == Press(old(State()), Up)
      ensures line == if old(pos) > 0 then State().lines[State().pos] else cmd
    {
      line := cmd;
      if pos > 0 {
        pos := pos - 1;
        line := entries[pos];
      }
    }

    method ArrowDown(cmd: string) returns (line: string)
      requires Valid()
      modifies `pos
      ensures Valid() && State() == Press(old(State()), Down)
      ensures line == if old(pos) < count - 1 then State().lines[State().pos] else cmd
    {
      line := cmd;
      if pos < count - 1 {
        pos := pos + 1;
        line := entries[pos];
      }
    }

    /** Any keys after power-on. */
    method PressKeys(keys: seq<Key>)
      requires Valid() && State() == Recall([], 0)
      modifies this, entries
      ensures Valid() && State() == PressAll(keys)
      ensures |State().lines| == Kept(|Submitted(keys)|)
      ensures forall i :: 0 <= i < count ==> entries[i] == Submitted(keys)[|Submitted(keys)| - count + i]
    {
      assert keys[..0] == [];
      var line := "";
      for k := 0 to |keys|
        invariant Valid() && State() == PressAll(keys[..k])
      {
        assert keys[..k + 1][..k] == keys[..k];
        match keys[k]
        case Submit(cmd) => AddToHistory(cmd);
        case Up => line := ArrowUp(line);
        case Down => line := ArrowDown(line);
      }
      assert keys[..|keys|] == keys;
      HistoryIsLastLines(keys);
    }
  }
}
