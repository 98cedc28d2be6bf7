/** `execute_command` from the typed line to the file command it runs. */
module ShellLine {
  import opened Limits
  import opened FileNames
  import opened CBuffers
  import opened Strings
  import opened TreeModel
  import opened Abstraction
  import opened ShellState
  import opened Simulation
  import opened CommandLine
  import opened Tokenizer
  import opened Bkfs
  import opened Shell

  /** The words at the offsets, read as C strings. */
  method ReadArgs(buf: array<char>, offsets: seq<nat>, ghost words: seq<string>) returns (args: seq<string>)
    requires |offsets| == |words| && forall k :: 0 <= k < |offsets| ==> TokenAt(buf[..], offsets[k], words[k])
    ensures args == words
  {
    args := [];
    for k := 0 to |offsets|
      invariant args == words[..k]
    {
      TokenCString(buf[..], offsets[k], words[k]);
      args := args + [CString(buf[offsets[k]..])];
      assert buf[..][offsets[k]..] == buf[offsets[k]..];
    }
  }

  method FindRedirect(args: seq<string>) returns (pos: nat)
    requires args != []
    ensures pos == RedirectFrom(args, 1)
  {
    pos := 1;
    while pos < |args|
      invariant 1 <= pos <= |args| && RedirectFrom(args, 1) == RedirectFrom(args, pos)
    {
      if args[pos] == ">" || args[pos] == ">>" { return; }
      pos := pos + 1;
    }
  }

  /** The redirected text, built in its buffer: the words before the operator, with a space between them. */
  method JoinWords(text: array<char>, args: seq<string>, pos: nat)
    requires 1 <= pos <= |args| && Clean(args) && |Join(args[1..pos], ' ')| < text.Length
    modifies text
    ensures Holds(text[..], Join(args[1..pos], ' '))
  {
    StrCpy(text, "");
    var i := 1;
    while i < pos
      invariant 1 <= i <= pos && Holds(text[..], Join(args[1..i], ' '))
    {
      JoinGrows(args, i, pos);
      ghost var done := Join(args[1..i], ' ');
      if i > 1 {
        StrCat(text, " ", done);
        done := done + " ";
      }
      StrCat(text, args[i], done);
      i := i + 1;
    }
  }

  ghost predicate Clean(words: seq<string>) {
    forall i :: 0 <= i < |words| ==> '\0' !in words[i]
  }

  /** The text with one more word, which is no longer than the text with all of them. */
  lemma {:induction false} JoinGrows(args: seq<string>, i: nat, pos: nat)
    requires 1 <= i < pos <= |args|
    ensures Join(args[1..i + 1], ' ') == Join(args[1..i], ' ') + (if i > 1 then " " else "") + args[i]
    ensures |Join(args[1..i + 1], ' ')| <= |Join(args[1..pos], ' ')|
    decreases pos - i
  {
    assert args[1..i + 1] == args[1..i] + [args[i]];
    if i > 1 {
      JoinSnoc(args[1..i], args[i], ' ');
    }
    if i + 1 < pos {
      JoinGrows(args, i + 1, pos);
    }
  }

  method ParseCommand(cmd: array<char>, ghost line: string) returns (r: Line)
    requires Holds(cmd[..], line) && |line| < MAX_CMD_LEN
    ensures r == ParseLine(line)
  {
    var args := SplitLine(cmd, line);
    ArgsClean(line);
    if |args| == 0 { return Blank; }
    var pos := FindRedirect(args);
    if pos < |args| - 1 && args[0] == "echo" {
      TextFits(line, 1, pos);
      var text := RedirectText(args, pos);
      return FileCommand(if args[pos] == ">" then Echo(args[pos + 1], text) else EchoAppend(args[pos + 1], text));
    }
    r := Dispatch(args);
  }

  /** The commands, by their first word, once no text is redirected. */
  method Dispatch(args: seq<string>) returns (r: Line)
    requires args != [] && !(RedirectFrom(args, 1) < |args| - 1 && args[0] == "echo")
    ensures r == ParseArgs(args)
  {
    var pos := FindRedirect(args);
    if pos < |args| - 1 && args[0] == "cat" { return Other(args); }
    if args[0] == "cd" {
      return FileCommand(if |args| > 1 then Cd(args[1]) else Cd(""));
    }
    if args[0] == "touch" {
      return if |args| > 1 then FileCommand(Touch(args[1])) else Usage;
    }
    if args[0] == "mkdir" {
      return if |args| > 1 then FileCommand(Mkdir(args[1])) else Usage;
    }
    if args[0] == "rm" {
      var recursive, filename := false, "";
      if |args| > 1 {
        if args[1] == "-rf" {
          recursive := true;
          if |args| > 2 { filename := args[2]; } else { return Usage; }
        } else {
          filename := args[1];
        }
      } else {
        return Usage;
      }
      return FileCommand(Rm(filename, recursive));
    }
    return Other(args);
  }

  /** Copy the line, lower it, and cut it into words. */
  method SplitLine(cmd: array<char>, ghost line: string) returns (args: seq<string>)
    requires Holds(cmd[..], line) && |line| < MAX_CMD_LEN
    ensures args == Args(line)
  {
    var copy := new char[MAX_CMD_LEN];
    CopyBuffer(copy, cmd, line);
    LowerInPlace(copy, line);
    var offsets := Tokenize(copy, Lower(line));
    args := ReadArgs(copy, offsets, Args(line));
  }

  method RedirectText(args: seq<string>, pos: nat) returns (text: string)
    requires 1 <= pos <= |args| && Clean(args) && |Join(args[1..pos], ' ')| < MAX_CMD_LEN
    ensures text == Join(args[1..pos], ' ')
  {
    var buffer := new char[MAX_CMD_LEN];
    JoinWords(buffer, args, pos);
    var n := StrLen(buffer, Join(args[1..pos], ' '));
    text := buffer[..n];
  }

  lemma {:induction false} JoinClean(words: seq<string>)
    requires Clean(words)
    ensures '\0' !in Join(words, ' ')
    decreases |words|
  {
    if |words| > 1 {
      JoinClean(words[1..]);
    }
  }

  lemma {:induction false} SplitClean(s: string, c: char)
    requires '\0' !in s
    ensures Clean(Split(s, c))
    decreases |s|
  {
    var k := IndexOf(s, c);
    if k < |s| {
      SplitClean(s[k + 1..], c);
    }
  }

  lemma {:induction false} NonEmptyClean(parts: seq<string>)
    requires Clean(parts)
    ensures Clean(NonEmpty(parts))
    decreases |parts|
  {
    if parts != [] {
      NonEmptyClean(parts[1..]);
    }
  }

  /** The words of a line are C strings. */
  lemma ArgsClean(line: string)
    requires '\0' !in line
    ensures Clean(Args(line))
  {
    assert '\0' !in Lower(line);
    SplitClean(Lower(line), ' ');
    NonEmptyClean(Split(Lower(line), ' '));
  }

  /** A typed text is a C string shorter than the line, so only sizes of names and of appended files are left to check. */
  lemma TypedText(line: string)
    requires '\0' !in line && |line| < MAX_CMD_LEN
    ensures var r := ParseLine(line);
            && (r.FileCommand? && r.c.Echo? ==> '\0' !in r.c.text && |r.c.text| < MAX_CMD_LEN)
            && (r.FileCommand? && r.c.EchoAppend? ==> '\0' !in r.c.text && |r.c.text| < MAX_CMD_LEN)
  {
    var args := Args(line);
    if args != [] {
      var pos := RedirectFrom(args, 1);
      ArgsClean(line);
      TextFits(line, 1, pos);
      JoinClean(args[1..pos]);
    }
  }

  /** What a typed line still owes the kernel: names that fit, an empty directory to remove, room to append. */
  ghost predicate LineFits(t: Tree, line: string) {
    var r := ParseLine(line);
    r.FileCommand? ==>
      match r.c
      case Echo(name, _) => NameFits(name)
      case EchoAppend(name, text) =>
        NameFits(name) && (Lookup(t, name).Some? && Lookup(t, name).value.File? ==>
                             |Appended(Lookup(t, name).value.content, text)| < MAX_FILE_SIZE)
      case c => Fits(t, c)
  }

  /** A typed line does to the tree what its file command does; any other line leaves the tables alone. */
  method ExecuteLine(fs: BkFs, cmd: array<char>, ghost line: string) returns (r: Line, reply: Reply)
    requires Ready(fs) && Holds(cmd[..], line) && |line| < MAX_CMD_LEN
    requires LineFits(Abs(fs.State()), line)
    modifies fs, fs.files, fs.inodes, fs.blocks, fs.blockUsed
    ensures r == ParseLine(line) && Ready(fs)
    ensures r.FileCommand? ==> (Abs(fs.State()), reply) == Step(old(Abs(fs.State())), r.c)
    ensures !r.FileCommand? ==> fs.State() == old(fs.State())
  {
    r := ParseCommand(cmd, line);
    reply := Done;
    if r.FileCommand? {
      TypedText(line);
      reply := ExecuteCommand(fs, r.c);
    }
  }
}
