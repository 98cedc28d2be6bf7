/** What a command line means: its words, its redirection, and the file command it asks for. */
module CommandLine {
  import opened Limits
  import opened FileNames
  import opened Strings
  import opened TreeModel

  const MAX_ARGS := 9

  function LowerChar(c: char): char {
    if 'A' <= c <= 'Z' then c + 32 as char else c
  }

  function Lower(s: string): (r: string)
    ensures |r| == |s|
    ensures forall i :: 0 <= i < |s| ==> r[i] == LowerChar(s[i])
  {
    seq(|s|, i requires 0 <= i < |s| => LowerChar(s[i]))
  }

  function Words(s: string): seq<string> { Pieces(s, ' ') }

  function FirstNine(words: seq<string>): (r: seq<string>)
    ensures |r| <= MAX_ARGS && r <= words
  {
    if |words| <= MAX_ARGS then words else words[..MAX_ARGS]
  }

  /** The arguments: at most nine words of the lower-cased line. */
  function Args(line: string): seq<string> {
    FirstNine(Words(Lower(line)))
  }

  function RedirectFrom(args: seq<string>, i: nat): (r: nat)
    requires i <= |args|
    ensures i <= r <= |args|
    ensures r < |args| ==> args[r] == ">" || args[r] == ">>"
    ensures forall j :: i <= j < r ==> args[j] != ">" && args[j] != ">>"
    decreases |args| - i
  {
    if i == |args| || args[i] == ">" || args[i] == ">>" then i else RedirectFrom(args, i + 1)
  }

  datatype Line =
    | Blank
    | FileCommand(c: Command)
    | Usage
    | Other(args: seq<string>)

  /** The dispatch of `execute_command`, for the commands that change files. */
  function ParseArgs(args: seq<string>): Line {
    if args == [] then Blank
    else
      var pos := RedirectFrom(args, 1);
      if pos < |args| - 1 && args[0] == "echo" then
        var text := Join(args[1..pos], ' ');
        FileCommand(if args[pos] == ">" then Echo(args[pos + 1], text) else EchoAppend(args[pos + 1], text))
      else if pos < |args| - 1 && args[0] == "cat" then Other(args)
      else if args[0] == "cd" then FileCommand(Cd(if |args| > 1 then args[1] else ""))
      else if args[0] == "touch" then (if |args| > 1 then FileCommand(Touch(args[1])) else Usage)
      else if args[0] == "mkdir" then (if |args| > 1 then FileCommand(Mkdir(args[1])) else Usage)
      else if args[0] == "rm" then
        if |args| > 1 && args[1] != "-rf" then FileCommand(Rm(args[1], false))
        else if |args| > 2 then FileCommand(Rm(args[2], true))
        else Usage
      else Other(args)
  }

  function ParseLine(line: string): Line { ParseArgs(Args(line)) }

  // ---------- words ----------

  /** Words are not empty and have no space. */
  ghost predicate AreWords(words: seq<string>) {
    forall i :: 0 <= i < |words| ==> words[i] != "" && ' ' !in words[i]
  }

  lemma {:induction false} NonEmptyWords(parts: seq<string>)
    requires FreeOf(parts, ' ')
    ensures AreWords(NonEmpty(parts))
    decreases |parts|
  {
    if parts != [] {
      NonEmptyWords(parts[1..]);
    }
  }

  lemma {:induction false} SplitFree(s: string, c: char)
    ensures FreeOf(Split(s, c), c)
    decreases |s|
  {
    var k := IndexOf(s, c);
    if k < |s| {
      SplitFree(s[k + 1..], c);
    }
  }

  lemma WordsAreWords(s: string)
    ensures AreWords(Words(s))
  {
    SplitFree(s, ' ');
    NonEmptyWords(Split(s, ' '));
  }

  /** Leading spaces do not count. */
  lemma WordsSkip(s: string)
    requires s != "" && s[0] == ' '
    ensures Words(s) == Words(s[1..])
  {
    SplitPrefix("", s[1..], ' ');
    assert "" + [' '] + s[1..] == s;
    assert Split(s, ' ')[1..] == Split(s[1..], ' ');
  }

  /** A run of other characters up to a space or the end is the first word. */
  lemma WordsTake(s: string, k: nat)
    requires 0 < k <= |s| && ' ' !in s[..k] && (k < |s| ==> s[k] == ' ')
    ensures Words(s) == [s[..k]] + (if k < |s| then Words(s[k + 1..]) else [])
  {
    if k < |s| {
      SplitPrefix(s[..k], s[k + 1..], ' ');
      assert s[..k] + [' '] + s[k + 1..] == s;
      assert Split(s, ' ')[1..] == Split(s[k + 1..], ' ');
    } else {
      assert s[..k] == s;
      SplitNone(s, ' ');
      assert NonEmpty([s]) == [s] by {
        assert [s][1..] == [];
      }
    }
  }

  /** Spaces only separate: the words of a line are those on both sides of any space in it. */
  lemma WordsApart(a: string, b: string)
    ensures Words(a + " " + b) == Words(a) + Words(b)
    ensures Words("") == [] && (a != "" && ' ' !in a ==> Words(a) == [a])
  {
    SplitConcat(a, b, ' ');
    NonEmptyAppend(Split(a, ' '), Split(b, ' '));
    SplitNone("", ' ');
    assert [""][1..] == [];
    if a != "" && ' ' !in a {
      SplitNone(a, ' ');
      assert [a][1..] == [];
    }
  }

  /** Words joined by single spaces are read back as the same words. */
  lemma WordsJoin(words: seq<string>)
    requires AreWords(words)
    ensures Words(Join(words, ' ')) == words
  {
    if words == [] {
      assert Split("", ' ') == [""];
    } else {
      SplitJoin(words, ' ');
      NonEmptyAll(words);
    }
  }

  function TotalLength(parts: seq<string>): nat {
    if parts == [] then 0 else |parts[0]| + TotalLength(parts[1..])
  }

  lemma {:induction false} JoinLength(parts: seq<string>, c: char)
    ensures |Join(parts, c)| == TotalLength(parts) + if parts == [] then 0 else |parts| - 1
    decreases |parts|
  {
    if |parts| > 1 {
      JoinLength(parts[1..], c);
    }
  }

  lemma {:induction false} SplitLength(s: string, c: char)
    ensures TotalLength(Split(s, c)) + |Split(s, c)| - 1 == |s|
    decreases |s|
  {
    var k := IndexOf(s, c);
    if k < |s| {
      SplitLength(s[k + 1..], c);
      assert Split(s, c)[1..] == Split(s[k + 1..], c);
    }
  }

  lemma {:induction false} NonEmptyLength(parts: seq<string>)
    ensures TotalLength(NonEmpty(parts)) == TotalLength(parts) && |NonEmpty(parts)| <= |parts|
    decreases |parts|
  {
    if parts != [] {
      NonEmptyLength(parts[1..]);
      var rest := NonEmpty(parts[1..]);
      assert [] + rest == rest && ([parts[0]] + rest)[1..] == rest;
    }
  }

  lemma SliceTail(parts: seq<string>, i: nat, j: nat)
    requires 1 <= i <= j <= |parts|
    ensures parts[1..][i - 1..j - 1] == parts[i..j]
  {
    forall k | 0 <= k < j - i
      ensures parts[1..][i - 1..j - 1][k] == parts[i..j][k]
    {
      assert parts[1..][i - 1 + k] == parts[i + k];
    }
  }

  lemma {:induction false} SliceLength(parts: seq<string>, i: nat, j: nat)
    requires i <= j <= |parts|
    ensures TotalLength(parts[i..j]) <= TotalLength(parts)
    decreases |parts|
  {
    if parts != [] && j > 0 {
      var tail := parts[1..];
      if i > 0 {
        SliceLength(tail, i - 1, j - 1);
        SliceTail(parts, i, j);
      } else {
        SliceLength(tail, 0, j - 1);
        assert parts[0..j] == [parts[0]] + tail[0..j - 1];
        assert ([parts[0]] + tail[0..j - 1])[1..] == tail[0..j - 1];
      }
    }
  }

  /** Any stretch of the arguments, joined by spaces, is no longer than the line: it fits a buffer that the line fits. */
  lemma TextFits(line: string, i: nat, j: nat)
    requires i <= j <= |Args(line)|
    ensures |Join(Args(line)[i..j], ' ')| <= |line|
  {
    var low := Lower(line);
    var words := Words(low);
    SplitLength(low, ' ');
    NonEmptyLength(Split(low, ' '));
    assert Args(line)[i..j] == words[i..j];
    SliceLength(words, i, j);
    JoinLength(words[i..j], ' ');
  }

  /** The redirected text reads back as the words it was made of. */
  lemma RedirectTextWords(line: string)
    requires Args(line) != []
    ensures var pos := RedirectFrom(Args(line), 1);
            Words(Join(Args(line)[1..pos], ' ')) == Args(line)[1..pos]
  {
    WordsAreWords(Lower(line));
    WordsJoin(Args(line)[1..RedirectFrom(Args(line), 1)]);
  }

  // ---------- what a typed redirection does ----------

  /** `echo w1 ... wn > name`, or with the other operator, as typed. */
  function EchoLine(words: seq<string>, op: string, name: string): string {
    Join(["echo"] + words + [op, name], ' ')
  }

  predicate IsOperator(op: string) { op == ">" || op == ">>" }

  /** The file command that the operator stands for. */
  function Redirection(op: string, name: string, text: string): Command {
    if op == ">" then Echo(name, text) else EchoAppend(name, text)
  }

  ghost predicate Plain(words: seq<string>) {
    AreWords(words) && forall i :: 0 <= i < |words| ==> Lower(words[i]) == words[i] && words[i] != ">" && words[i] != ">>"
  }

  lemma {:induction false} LowerJoin(words: seq<string>)
    requires forall i :: 0 <= i < |words| ==> Lower(words[i]) == words[i]
    ensures Lower(Join(words, ' ')) == Join(words, ' ')
    decreases |words|
  {
    if |words| > 1 {
      LowerJoin(words[1..]);
      LowerAppend(words[0] + " ", Join(words[1..], ' '));
      LowerAppend(words[0], " ");
    }
  }

  lemma LowerAppend(a: string, b: string)
    ensures Lower(a + b) == Lower(a) + Lower(b)
  {
  }

  lemma EchoArgs(words: seq<string>, op: string, name: string)
    requires Plain(words + [name]) && IsOperator(op)
    ensures Args(EchoLine(words, op, name)) == FirstNine(["echo"] + words + [op, name])
  {
    var all := ["echo"] + words + [op, name];
    var given := words + [name];
    forall i | 0 <= i < |all|
      ensures all[i] != "" && ' ' !in all[i] && Lower(all[i]) == all[i]
    {
      if 1 <= i <= |words| {
        assert all[i] == given[i - 1];
      } else if i == |words| + 2 {
        assert all[i] == given[|words|];
      }
    }
    LowerJoin(all);
    WordsJoin(all);
  }

  lemma RedirectIs(args: seq<string>, r: nat)
    requires 1 <= r <= |args| && (r < |args| ==> args[r] == ">" || args[r] == ">>")
    requires forall j :: 1 <= j < r ==> args[j] != ">" && args[j] != ">>"
    ensures RedirectFrom(args, 1) == r
  {
  }

  lemma ShortEcho(words: seq<string>, op: string, name: string)
    requires Plain(words + [name]) && IsOperator(op) && |words| <= 6
    ensures ParseArgs(FirstNine(["echo"] + words + [op, name])) == FileCommand(Redirection(op, name, Join(words, ' ')))
  {
    var args := ["echo"] + words + [op, name];
    assert forall i :: 0 <= i < |words| ==> words[i] == (words + [name])[i];
    RedirectIs(args, |words| + 1);
    assert args[1..|words| + 1] == words;
  }

  lemma LongEcho(words: seq<string>, op: string, name: string)
    requires Plain(words + [name]) && IsOperator(op) && |words| > 6
    ensures ParseArgs(FirstNine(["echo"] + words + [op, name])).Other?
  {
    var args := (["echo"] + words + [op, name])[..MAX_ARGS];
    assert forall i :: 0 <= i < |words| ==> words[i] == (words + [name])[i];
    assert forall i :: 1 <= i < 8 ==> args[i] == words[i - 1];
    if |words| == 7 {
      RedirectIs(args, 8);
    } else {
      assert args[8] == words[7];
      RedirectIs(args, 9);
    }
  }

  /**
   A typed redirection writes or appends its words to the file if and only if there are at most six of them:
   only nine words of a line are looked at, and the operator and the name must be among them.
   */
  lemma EchoLineIff(words: seq<string>, op: string, name: string)
    requires Plain(words + [name]) && IsOperator(op)
    ensures ParseLine(EchoLine(words, op, name)) == FileCommand(Redirection(op, name, Join(words, ' '))) <==> |words| <= 6
  {
    EchoArgs(words, op, name);
    if |words| <= 6 {
      ShortEcho(words, op, name);
    } else {
      LongEcho(words, op, name);
    }
  }
}
