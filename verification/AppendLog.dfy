/** A file written with `echo >` and then extended with `echo >>` is a list of lines. */
module AppendLog {
  import opened Limits
  import opened FileNames
  import opened Strings
  import opened BkfsState
  import opened FileTable
  import opened TreeModel
  import opened Abstraction
  import opened Simulation

  /** Lines that come back from the file: not empty, and free of newlines and NULs. */
  ghost predicate GoodLines(lines: seq<string>) {
    forall i :: 0 <= i < |lines| ==> lines[i] != "" && '\n' !in lines[i] && '\0' !in lines[i]
  }

  /** `echo l0 > name`, then `echo li >> name` for the rest. */
  function LogCommands(name: string, lines: seq<string>): (r: seq<Command>)
    ensures |r| == |lines|
    decreases |lines|
  {
    if lines == [] then []
    else
      LogCommands(name, lines[..|lines| - 1])
      + [if |lines| == 1 then Echo(name, lines[0]) else EchoAppend(name, lines[|lines| - 1])]
  }

  lemma CleanCString(s: string)
    requires '\0' !in s
    ensures CString(s) == s
  {
  }

  lemma {:induction false} JoinedLines(lines: seq<string>)
    requires lines != [] && GoodLines(lines)
    ensures var c := Join(lines, '\n'); c != "" && '\0' !in c && c[|c| - 1] != '\n'
    ensures forall i :: 0 <= i < |lines| ==> |lines[i]| <= |Join(lines, '\n')|
    decreases |lines|
  {
    if |lines| > 1 {
      JoinedLines(lines[1..]);
    }
  }

  lemma AppendLine(content: string, line: string)
    requires content != "" && '\0' !in content && content[|content| - 1] != '\n' && |content| < MAX_FILE_SIZE
    ensures Appended(content, line) == content + "\n" + line
  {
    CleanCString(content);
  }

  lemma {:induction false} JoinShorter(lines: seq<string>)
    requires |lines| > 1
    ensures var front := lines[..|lines| - 1];
            Join(lines, '\n') == Join(front, '\n') + "\n" + lines[|lines| - 1]
  {
    var front := lines[..|lines| - 1];
    JoinSnoc(front, lines[|lines| - 1], '\n');
    assert lines == front + [lines[|lines| - 1]];
  }

  lemma LookupAfterPut(t: Tree, name: string, node: Node)
    requires !(t.cur == [] && name == "root")
    ensures Lookup(Put(t, name, node), name) == Some(node) && Put(t, name, node).cur == t.cur
  {
  }

  /** A name under which `echo >` succeeds: an existing file, or one that can be created. */
  ghost predicate Writable(t: Tree, name: string) {
    CanCreate(t, name) || (Lookup(t, name).Some? && Lookup(t, name).value.File?)
  }

  lemma FirstLine(t: Tree, name: string, line: string)
    requires NameFits(name) && Writable(t, name) && '\0' !in line && |line| < MAX_FILE_SIZE
    ensures Fits(t, Echo(name, line))
    ensures Lookup(Step(t, Echo(name, line)).0, name) == Some(File(line))
  {
    LookupAfterPut(t, name, File(line));
  }

  lemma NextLine(t: Tree, name: string, content: string, line: string)
    requires NameFits(name) && Lookup(t, name) == Some(File(content)) && '\0' !in line
    requires content != "" && '\0' !in content && content[|content| - 1] != '\n'
    requires |content| + 1 + |line| < MAX_FILE_SIZE
    ensures Fits(t, EchoAppend(name, line))
    ensures Lookup(Step(t, EchoAppend(name, line)).0, name) == Some(File(content + "\n" + line))
  {
    AppendLine(content, line);
    LookupAfterPut(t, name, File(content + "\n" + line));
  }

  lemma {:induction false} LogBuilds(t: Tree, name: string, lines: seq<string>)
    requires lines != [] && GoodLines(lines) && |Join(lines, '\n')| < MAX_FILE_SIZE
    requires NameFits(name) && Writable(t, name)
    ensures RunFits(t, LogCommands(name, lines))
    ensures Lookup(Run(t, LogCommands(name, lines)).0, name) == Some(File(Join(lines, '\n')))
    decreases |lines|
  {
    var cs, last := LogCommands(name, lines), lines[|lines| - 1];
    var front := lines[..|lines| - 1];
    assert cs[..|cs| - 1] == LogCommands(name, front);
    JoinedLines(lines);
    if |lines| == 1 {
      FirstLine(t, name, last);
      assert Run(t, cs[..0]).0 == t;
    } else {
      JoinShorter(lines);
      LogBuilds(t, name, front);
      JoinedLines(front);
      NextLine(Run(t, LogCommands(name, front)).0, name, Join(front, '\n'), last);
    }
  }

  lemma ReadsAs(r: Fs, name: string, text: string)
    requires Good(r) && Lookup(Abs(r), name) == Some(File(text)) && |text| < MAX_FILE_SIZE
    ensures var i := First(r.files, ByName(r.cur, name));
            i < |r.files| && ReadFile(r, r.files[i].inode, MAX_FILE_SIZE) == text
  {
    LookupAgrees(r, name);
    var i := First(r.files, ByName(r.cur, name));
    assert LiveEntry(r.files[i]);
  }

  /** On the tables: after the commands the file reads as the lines joined, and splits back into them. */
  lemma AppendFold(s: Fs, name: string, lines: seq<string>)
    requires Good(s)
    requires lines != [] && GoodLines(lines) && |Join(lines, '\n')| < MAX_FILE_SIZE
    requires NameFits(name) && Writable(Abs(s), name)
    ensures RunFits(Abs(s), LogCommands(name, lines))
    ensures var r := ExecuteAll(s, LogCommands(name, lines)).0;
            var i := First(r.files, ByName(r.cur, name));
            && i < |r.files|
            && ReadFile(r, r.files[i].inode, MAX_FILE_SIZE) == Join(lines, '\n')
            && Split(ReadFile(r, r.files[i].inode, MAX_FILE_SIZE), '\n') == lines
  {
    LogBuilds(Abs(s), name, lines);
    ReadsAs(ExecuteAll(s, LogCommands(name, lines)).0, name, Join(lines, '\n'));
    SplitJoin(lines, '\n');
  }

  // ---------- appending to any file, line by line ----------

  /** The lines of a text; a newline at its end ends the last of them. */
  function LinesOf(content: string): seq<string> {
    var pieces := Split(content, '\n');
    if pieces[|pieces| - 1] == "" then pieces[..|pieces| - 1] else pieces
  }

  ghost predicate CleanLine(line: string) { '\n' !in line && '\0' !in line }

  ghost predicate CleanLines(lines: seq<string>) {
    forall i :: 0 <= i < |lines| ==> CleanLine(lines[i])
  }

  lemma AppendedIs(content: string, line: string)
    requires '\0' !in content && CleanLine(line) && |content| <= 4095
    ensures Appended(content, line) ==
            if content == "" then line
            else if content[|content| - 1] == '\n' then content[..|content| - 1] + ['\n'] + line
            else content + ['\n'] + line
  {
    CleanCString(content);
  }

  lemma DropLast(pieces: seq<string>, last: string)
    ensures (pieces + [last])[..|pieces|] == pieces && (pieces + [last])[|pieces|] == last
  {
  }

  lemma EndedText(front: string)
    ensures LinesOf(front + ['\n']) == Split(front, '\n')
  {
    SplitConcat(front, "", '\n');
    SplitNone("", '\n');
    assert front + ['\n'] + "" == front + ['\n'];
    DropLast(Split(front, '\n'), "");
  }

  lemma AddedToEnded(front: string, line: string)
    requires '\n' !in line
    ensures Split(front + ['\n'] + line, '\n') == LinesOf(front + ['\n']) + [line]
  {
    EndedText(front);
    SplitConcat(front, line, '\n');
    SplitNone(line, '\n');
  }

  lemma AddedToOpen(content: string, line: string)
    requires '\n' !in line && content != "" && content[|content| - 1] != '\n'
    ensures Split(content + ['\n'] + line, '\n') == LinesOf(content) + [line]
  {
    LastPiece(content, '\n');
    SplitConcat(content, line, '\n');
    SplitNone(line, '\n');
  }

  lemma AddedToEmpty(line: string)
    requires '\n' !in line
    ensures Split(line, '\n') == LinesOf("") + [line]
  {
    SplitNone("", '\n');
    SplitNone(line, '\n');
  }

  /** The old lines, the new one, and nothing else, whether or not the file was empty or ended in a newline. */
  lemma LineIsAdded(content: string, line: string)
    requires '\0' !in content && CleanLine(line) && |content| <= 4095
    ensures Split(Appended(content, line), '\n') == LinesOf(content) + [line]
    ensures '\0' !in Appended(content, line) && |Appended(content, line)| <= |content| + 1 + |line|
  {
    AppendedIs(content, line);
    if content == "" {
      AddedToEmpty(line);
    } else if content[|content| - 1] == '\n' {
      assert content == content[..|content| - 1] + ['\n'];
      AddedToEnded(content[..|content| - 1], line);
    } else {
      AddedToOpen(content, line);
    }
  }

  /** `echo line >> name` on any file: what is read back is at most its first 4095 bytes. */
  lemma AppendAddsLine(t: Tree, name: string, content: string, line: string) returns (after: string)
    requires Lookup(t, name) == Some(File(content)) && '\0' !in content && CleanLine(line)
    ensures Lookup(Step(t, EchoAppend(name, line)).0, name) == Some(File(after))
    ensures Split(after, '\n') == LinesOf(if |content| > 4095 then content[..4095] else content) + [line]
  {
    var kept := if |content| > 4095 then content[..4095] else content;
    LineIsAdded(kept, line);
    after := Appended(content, line);
    LookupAfterPut(t, name, File(after));
    assert kept[..|kept|] == kept;
  }

  /** `echo l >> name` for each line. */
  function Appends(name: string, lines: seq<string>): (r: seq<Command>)
    ensures |r| == |lines| && forall i :: 0 <= i < |r| ==> r[i] == EchoAppend(name, lines[i])
  {
    seq(|lines|, i requires 0 <= i < |lines| => EchoAppend(name, lines[i]))
  }

  function TotalSize(lines: seq<string>): nat {
    if lines == [] then 0 else TotalSize(lines[..|lines| - 1]) + 1 + |lines[|lines| - 1]|
  }

  /** What the file then holds: empty lines leave no trace, but that one at the end leaves its newline. */
  ghost predicate HoldsLines(t: Tree, name: string, content: string, lines: seq<string>, after: string) {
    && Lookup(t, name) == Some(File(after)) && '\0' !in after && |after| <= |content| + TotalSize(lines)
    && LinesOf(after) == LinesOf(content) + NonEmpty(lines)
    && (lines != [] ==> Split(after, '\n') == LinesOf(content) + NonEmpty(lines[..|lines| - 1]) + [lines[|lines| - 1]])
  }

  lemma LinesOfPieces(content: string, pieces: seq<string>, last: string)
    requires Split(content, '\n') == pieces + [last]
    ensures LinesOf(content) == pieces + if last == "" then [] else [last]
  {
    assert (pieces + [last])[..|pieces|] == pieces;
  }

  lemma GrownLines(content: string, front: seq<string>, before: string, last: string)
    requires LinesOf(before) == LinesOf(content) + NonEmpty(front) && '\0' !in before && CleanLine(last) && |before| <= 4095
    ensures var after, lines := Appended(before, last), front + [last];
            && LinesOf(after) == LinesOf(content) + NonEmpty(lines)
            && Split(after, '\n') == LinesOf(content) + NonEmpty(front) + [last]
  {
    LineIsAdded(before, last);
    LinesOfPieces(Appended(before, last), LinesOf(before), last);
    NonEmptySnoc(front, last);
  }

  lemma OneLineMore(t: Tree, name: string, content: string, front: seq<string>, before: string, last: string) returns (after: string)
    requires HoldsLines(t, name, content, front, before) && CleanLine(last) && |content| + TotalSize(front + [last]) < MAX_FILE_SIZE
    requires NameFits(name)
    ensures Fits(t, EchoAppend(name, last)) && HoldsLines(Step(t, EchoAppend(name, last)).0, name, content, front + [last], after)
  {
    var lines := front + [last];
    assert lines[..|lines| - 1] == front && lines[|lines| - 1] == last;
    after := Appended(before, last);
    LineIsAdded(before, last);
    GrownLines(content, front, before, last);
    LookupAfterPut(t, name, File(after));
  }

  /** Any run of `echo >>`, empty ones among them, on a file with any content that has room. */
  lemma {:induction false} AppendsAddLines(t: Tree, name: string, content: string, lines: seq<string>) returns (after: string)
    requires Lookup(t, name) == Some(File(content)) && '\0' !in content && CleanLines(lines)
    requires NameFits(name) && |content| + TotalSize(lines) < MAX_FILE_SIZE
    ensures RunFits(t, Appends(name, lines))
    ensures HoldsLines(Run(t, Appends(name, lines)).0, name, content, lines, after)
    decreases |lines|
  {
    var cs := Appends(name, lines);
    if lines == [] {
      after := content;
    } else {
      var front, last := lines[..|lines| - 1], lines[|lines| - 1];
      assert cs[..|cs| - 1] == Appends(name, front);
      assert lines == front + [last];
      var before := AppendsAddLines(t, name, content, front);
      after := OneLineMore(Run(t, Appends(name, front)).0, name, content, front, before, last);
    }
  }

  /** `touch name`, then `echo l >> name` for each line. */
  function TouchAndAppend(name: string, lines: seq<string>): seq<Command> { [Touch(name)] + Appends(name, lines) }

  lemma {:induction false} RunAfter(t: Tree, c: Command, cs: seq<Command>)
    requires Fits(t, c) && RunFits(Step(t, c).0, cs)
    ensures RunFits(t, [c] + cs) && Run(t, [c] + cs).0 == Run(Step(t, c).0, cs).0
    decreases |cs|
  {
    var all := [c] + cs;
    if cs == [] {
      assert all[..0] == [] && all == [c];
    } else {
      assert all[..|all| - 1] == [c] + cs[..|cs| - 1];
      RunAfter(t, c, cs[..|cs| - 1]);
    }
  }

  lemma TouchedTree(t: Tree, name: string, lines: seq<string>) returns (after: string)
    requires CanCreate(t, name) && NameFits(name)
    requires lines != [] && CleanLines(lines) && TotalSize(lines) < MAX_FILE_SIZE
    ensures RunFits(t, TouchAndAppend(name, lines))
    ensures Lookup(Run(t, TouchAndAppend(name, lines)).0, name) == Some(File(after)) && |after| < MAX_FILE_SIZE
    ensures Split(after, '\n') == NonEmpty(lines[..|lines| - 1]) + [lines[|lines| - 1]]
  {
    LookupAfterPut(t, name, File([]));
    after := AppendsAddLines(Step(t, Touch(name)).0, name, "", lines);
    RunAfter(t, Touch(name), Appends(name, lines));
    SplitNone("", '\n');
    assert LinesOf("") == [];
  }

  /** On the tables, from an empty file: it reads as the non-empty lines, the last one as it was typed. */
  lemma TouchedLog(s: Fs, name: string, lines: seq<string>)
    requires Good(s) && CanCreate(Abs(s), name) && NameFits(name)
    requires lines != [] && CleanLines(lines) && TotalSize(lines) < MAX_FILE_SIZE
    ensures RunFits(Abs(s), TouchAndAppend(name, lines))
    ensures var r := ExecuteAll(s, TouchAndAppend(name, lines)).0;
            var i := First(r.files, ByName(r.cur, name));
            && i < |r.files|
            && Split(ReadFile(r, r.files[i].inode, MAX_FILE_SIZE), '\n') ==
               NonEmpty(lines[..|lines| - 1]) + [lines[|lines| - 1]]
  {
    var after := TouchedTree(Abs(s), name, lines);
    ReadsAs(ExecuteAll(s, TouchAndAppend(name, lines)).0, name, after);
  }
}
