/** What to type for each file command, and that such lines, and no others, are read as that command. */
module TypedCommands {
  import opened Limits
  import opened Strings
  import opened TreeModel
  import opened CommandLine

  /** A word that lower-casing leaves alone. */
  ghost predicate PlainWord(word: string) {
    word != "" && forall i :: 0 <= i < |word| ==> word[i] != ' ' && !('A' <= word[i] <= 'Z')
  }

  ghost predicate PlainWords(words: seq<string>) {
    forall i :: 0 <= i < |words| ==> PlainWord(words[i])
  }

  /** The words that ask for a command. */
  function Typed(c: Command): seq<string> {
    match c
    case Touch(name) => ["touch", name]
    case Mkdir(name) => ["mkdir", name]
    case Cd(name) => if name == "" then ["cd"] else ["cd", name]
    case Rm(name, recursive) => if recursive then ["rm", "-rf", name] else ["rm", name]
    case Echo(name, text) => ["echo"] + Words(text) + [">", name]
    case EchoAppend(name, text) => ["echo"] + Words(text) + [">>", name]
  }

  /** A text that a line can redirect: at most six words, none an operator, with single spaces. */
  ghost predicate TypableText(text: string) {
    && |Words(text)| <= 6 && text == Join(Words(text), ' ') && PlainWords(Words(text))
    && forall i :: 0 <= i < |Words(text)| ==> Words(text)[i] != ">" && Words(text)[i] != ">>"
  }

  /** Names are words; "-rf" is no name for `rm`, which takes it as its option. */
  ghost predicate Typable(c: Command) {
    match c
    case Touch(name) => PlainWord(name)
    case Mkdir(name) => PlainWord(name)
    case Cd(name) => name == "" || PlainWord(name)
    case Rm(name, recursive) => PlainWord(name) && (recursive || name != "-rf")
    case Echo(name, text) => PlainWord(name) && TypableText(text)
    case EchoAppend(name, text) => PlainWord(name) && TypableText(text)
  }

  // ---------- a line that starts with the words of a command is read as it ----------

  lemma EchoAt(args: seq<string>, r: nat)
    requires 1 <= r && r + 1 < |args| && args[0] == "echo" && IsOperator(args[r])
    requires forall j :: 1 <= j < r ==> args[j] != ">" && args[j] != ">>"
    ensures ParseArgs(args) == FileCommand(Redirection(args[r], args[r + 1], Join(args[1..r], ' ')))
  {
    RedirectIs(args, r);
  }

  lemma EchoPrefix(args: seq<string>, words: seq<string>, op: string, name: string)
    requires ["echo"] + words + [op, name] <= args
    ensures |args| >= |words| + 3 && args[0] == "echo" && args[1..|words| + 1] == words
    ensures args[|words| + 1] == op && args[|words| + 2] == name
  {
    var typed := ["echo"] + words + [op, name];
    assert args[..|typed|] == typed;
    assert args[1..|words| + 1] == typed[1..|words| + 1];
  }

  lemma EchoIsRead(args: seq<string>, words: seq<string>, op: string, name: string)
    requires ["echo"] + words + [op, name] <= args && IsOperator(op)
    requires forall i :: 0 <= i < |words| ==> words[i] != ">" && words[i] != ">>"
    ensures ParseArgs(args) == FileCommand(Redirection(op, name, Join(words, ' ')))
  {
    EchoPrefix(args, words, op, name);
    forall j | 1 <= j < |words| + 1
      ensures args[j] != ">" && args[j] != ">>"
    {
      assert args[j] == words[j - 1];
    }
    EchoAt(args, |words| + 1);
  }

  lemma PrefixIsRead(args: seq<string>, c: Command)
    requires Typable(c) && Typed(c) <= args && (c == Cd("") ==> |args| == 1)
    ensures ParseArgs(args) == FileCommand(c)
  {
    match c
    case Echo(name, text) => EchoIsRead(args, Words(text), ">", name);
    case EchoAppend(name, text) => EchoIsRead(args, Words(text), ">>", name);
    case _ =>
      var typed := Typed(c);
      assert forall i :: 0 <= i < |typed| ==> args[i] == typed[i];
  }

  // ---------- and no other line is ----------

  /** The arguments of a line are plain words: none has a capital letter left. */
  lemma ArgsArePlain(line: string)
    ensures PlainWords(Args(line))
  {
    WordsAreWords(Lower(line));
    LowerWords(Lower(line));
    assert forall i :: 0 <= i < |Args(line)| ==> Args(line)[i] == Words(Lower(line))[i];
  }

  ghost predicate NoCapitals(s: string) {
    forall i :: 0 <= i < |s| ==> !('A' <= s[i] <= 'Z')
  }

  lemma {:induction false} SplitNoCapitals(s: string, c: char)
    requires NoCapitals(s)
    ensures forall i :: 0 <= i < |Split(s, c)| ==> NoCapitals(Split(s, c)[i])
    decreases |s|
  {
    var k := IndexOf(s, c);
    if k < |s| {
      SplitNoCapitals(s[k + 1..], c);
    }
  }

  lemma {:induction false} NonEmptyNoCapitals(parts: seq<string>)
    requires forall i :: 0 <= i < |parts| ==> NoCapitals(parts[i])
    ensures forall i :: 0 <= i < |NonEmpty(parts)| ==> NoCapitals(NonEmpty(parts)[i])
    decreases |parts|
  {
    if parts != [] {
      NonEmptyNoCapitals(parts[1..]);
    }
  }

  lemma LowerWords(s: string)
    requires NoCapitals(s)
    ensures forall i :: 0 <= i < |Words(s)| ==> NoCapitals(Words(s)[i])
  {
    SplitNoCapitals(s, ' ');
    NonEmptyNoCapitals(Split(s, ' '));
  }

  lemma EchoStart(args: seq<string>, pos: nat)
    requires 1 <= pos && pos + 1 < |args| && args[0] == "echo"
    ensures ["echo"] + args[1..pos] + [args[pos], args[pos + 1]] <= args
  {
    assert args[..pos + 2] == ["echo"] + args[1..pos] + [args[pos], args[pos + 1]];
  }

  lemma PlainText(words: seq<string>)
    requires PlainWords(words) && |words| <= 6 && forall i :: 0 <= i < |words| ==> words[i] != ">" && words[i] != ">>"
    ensures Words(Join(words, ' ')) == words && TypableText(Join(words, ' '))
  {
    assert AreWords(words);
    WordsJoin(words);
  }

  /** The redirected words of a line: at most six, because the operator and the name are among nine. */
  lemma ReadEcho(args: seq<string>, c: Command)
    requires PlainWords(args) && |args| <= 9 && ParseArgs(args) == FileCommand(c) && (c.Echo? || c.EchoAppend?)
    ensures Typable(c) && Typed(c) <= args
  {
    var pos := RedirectFrom(args, 1);
    assert pos + 1 < |args| && args[0] == "echo" && c == Redirection(args[pos], args[pos + 1], Join(args[1..pos], ' '));
    PlainText(args[1..pos]);
    EchoStart(args, pos);
  }

  lemma ReadOther(args: seq<string>, c: Command)
    requires PlainWords(args) && ParseArgs(args) == FileCommand(c) && !c.Echo? && !c.EchoAppend?
    ensures Typable(c) && Typed(c) <= args && (c == Cd("") ==> |args| == 1)
  {
    assert args[..|Typed(c)|] == Typed(c);
  }

  /**
   A line is read as a command if and only if it starts with the words that ask for it;
   `cd` to the root has none, so the line has nothing else.
   */
  lemma ReadIff(line: string, c: Command)
    requires Typable(c)
    ensures ParseLine(line) == FileCommand(c) <==> Typed(c) <= Args(line) && (c == Cd("") ==> |Args(line)| == 1)
  {
    ArgsArePlain(line);
    if Typed(c) <= Args(line) && (c == Cd("") ==> |Args(line)| == 1) {
      PrefixIsRead(Args(line), c);
    }
    if ParseLine(line) == FileCommand(c) {
      OnlyTypable(line, c);
    }
  }

  /** Every file command that a line is read as can be typed, and its words are what the line starts with. */
  lemma OnlyTypable(line: string, c: Command)
    requires ParseLine(line) == FileCommand(c)
    ensures Typable(c) && Typed(c) <= Args(line) && (c == Cd("") ==> |Args(line)| == 1)
  {
    ArgsArePlain(line);
    if c.Echo? || c.EchoAppend? {
      ReadEcho(Args(line), c);
    } else {
      ReadOther(Args(line), c);
    }
  }

  /** Typing the words of a command, with single spaces, asks for exactly that command. */
  lemma TypedIsRead(c: Command)
    requires Typable(c)
    ensures ParseLine(Join(Typed(c), ' ')) == FileCommand(c)
  {
    TypedIsPlain(c);
    PlainLine(Typed(c));
    ReadIff(Join(Typed(c), ' '), c);
  }

  lemma Keywords()
    ensures PlainWords(["touch"]) && PlainWords(["mkdir"]) && PlainWords(["cd"]) && PlainWords(["rm"])
    ensures PlainWords(["rm", "-rf"]) && PlainWords(["echo"]) && PlainWords([">"]) && PlainWords([">>"])
  {
  }

  lemma PlainConcat(a: seq<string>, b: seq<string>)
    requires PlainWords(a) && PlainWords(b)
    ensures PlainWords(a + b)
  {
  }

  lemma EchoIsPlain(words: seq<string>, op: string, name: string)
    requires PlainWords(words) && PlainWords([op]) && PlainWord(name)
    ensures PlainWords(["echo"] + words + [op, name])
  {
    Keywords();
    PlainConcat(["echo"], words);
    PlainConcat([op], [name]);
    assert [op] + [name] == [op, name];
    PlainConcat(["echo"] + words, [op, name]);
  }

  lemma TypedIsPlain(c: Command)
    requires Typable(c)
    ensures PlainWords(Typed(c)) && 1 <= |Typed(c)| <= 9 && (c == Cd("") ==> |Typed(c)| == 1)
  {
    Keywords();
    match c
    case Echo(name, text) => EchoIsPlain(Words(text), ">", name);
    case EchoAppend(name, text) => EchoIsPlain(Words(text), ">>", name);
    case Rm(name, recursive) => PlainConcat(if recursive then ["rm", "-rf"] else ["rm"], [name]);
    case Touch(name) => PlainConcat(["touch"], [name]);
    case Mkdir(name) => PlainConcat(["mkdir"], [name]);
    case Cd(name) => if name != "" { PlainConcat(["cd"], [name]); }
  }

  /** Plain words joined by spaces are the arguments, if there are at most nine. */
  lemma PlainLine(words: seq<string>)
    requires PlainWords(words) && |words| <= 9
    ensures Args(Join(words, ' ')) == words
  {
    assert AreWords(words);
    forall i | 0 <= i < |words|
      ensures Lower(words[i]) == words[i]
    {
      assert PlainWord(words[i]);
    }
    LowerJoin(words);
    WordsJoin(words);
  }

  /** Every other line: no words, a command without its name, or a first word that is no file command. */
  lemma OtherLines(line: string)
    ensures ParseLine(line) == Blank <==> Args(line) == []
    ensures ParseLine(line).Usage? <==> LacksName(Args(line))
    ensures ParseLine(line).FileCommand? ==> Args(line) != [] && IsFileWord(Args(line)[0])
  {
  }

  predicate IsFileWord(word: string) {
    word == "touch" || word == "mkdir" || word == "cd" || word == "rm" || word == "echo"
  }

  predicate LacksName(args: seq<string>) {
    || (|args| == 1 && (args[0] == "touch" || args[0] == "mkdir" || args[0] == "rm"))
    || (|args| == 2 && args[0] == "rm" && args[1] == "-rf")
  }

  // ---------- upper and lower case ----------

  function Upper(s: string): (r: string)
    ensures |r| == |s|
    ensures forall i :: 0 <= i < |s| ==> r[i] == if 'a' <= s[i] <= 'z' then s[i] - 32 as char else s[i]
  {
    seq(|s|, i requires 0 <= i < |s| => if 'a' <= s[i] <= 'z' then s[i] - 32 as char else s[i])
  }

  /** A line typed in capitals has the same arguments. */
  lemma CaseIgnored(line: string)
    ensures Args(Upper(line)) == Args(line)
  {
    assert Lower(Upper(line)) == Lower(line);
  }
}
