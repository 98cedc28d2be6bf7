/** The tokenizer of `execute_command`, which lower-cases and cuts up a copy of the line in place. */
module Tokenizer {
  import opened Limits
  import opened FileNames
  import opened CBuffers
  import opened Strings
  import opened TreeModel
  import opened CommandLine

  /** A terminated word at an offset. */
  ghost predicate TokenAt(buf: seq<char>, off: nat, word: string) {
    && off + |word| < |buf| && buf[off..off + |word|] == word
    && buf[off + |word|] == '\0' && '\0' !in word
  }

  lemma {:induction false} HeldCString(buf: seq<char>, line: string)
    requires Holds(buf, line)
    ensures CString(buf) == line
    decreases |line|
  {
    if line != [] {
      assert buf[0] == line[0] && line[0] in line;
      assert buf[1..][..|line| - 1] == line[1..];
      HeldCString(buf[1..], line[1..]);
    }
  }

  lemma TokenCString(buf: seq<char>, off: nat, word: string)
    requires TokenAt(buf, off, word)
    ensures CString(buf[off..]) == word
  {
    assert buf[off..][..|word|] == word;
    HeldCString(buf[off..], word);
  }

  method LowerInPlace(buf: array<char>, ghost line: string)
    requires Holds(buf[..], line)
    modifies buf
    ensures Holds(buf[..], Lower(line))
  {
    var p := 0;
    assert forall i :: 0 <= i < |line| ==> line[i] in line;
    while buf[p] != '\0'
      invariant 0 <= p <= |line| < buf.Length && buf[|line|] == '\0'
      invariant forall i :: 0 <= i < p ==> buf[i] == LowerChar(line[i])
      invariant forall i :: p <= i < |line| ==> buf[i] == line[i] != '\0'
      decreases |line| - p
    {
      if 'A' <= buf[p] <= 'Z' {
        buf[p] := buf[p] + 32 as char;
      }
      p := p + 1;
    }
    assert buf[..|line|] == Lower(line);
  }

  /** What the scan has found: the first words are cut out, the rest of the line is untouched. */
  ghost predicate Scanned(buf: seq<char>, line: string, args: seq<nat>, token: nat) {
    && token <= |line| < |buf|
    && buf[token..|line|] == line[token..] && buf[|line|] == '\0'
    && |args| <= |Words(line)|
    && Words(line) == Words(line)[..|args|] + Words(line[token..])
    && (forall k :: 0 <= k < |args| ==> TokenAt(buf, args[k], Words(line)[k]))
    && (forall k :: 0 <= k < |args| ==> args[k] + |Words(line)[k]| < token || token == |line|)
  }

  lemma ScanSkips(buf: seq<char>, line: string, args: seq<nat>, token: nat)
    requires Scanned(buf, line, args, token) && token < |line| && line[token] == ' '
    ensures Scanned(buf, line, args, token + 1)
  {
    WordsSkip(line[token..]);
    assert line[token..][1..] == line[token + 1..];
    assert buf[token + 1..|line|] == buf[token..|line|][1..];
  }

  /** One more word: the rest of the line's words follow it. */
  lemma WordsAdvance(line: string, count: nat, token: nat, q: nat)
    requires token < q <= |line| && count <= |Words(line)|
    requires Words(line) == Words(line)[..count] + Words(line[token..])
    requires ' ' !in line[token..q] && (q < |line| ==> line[q] == ' ')
    ensures count < |Words(line)| && Words(line)[count] == line[token..q]
    ensures var next := if q < |line| then q + 1 else q;
            Words(line) == Words(line)[..count + 1] + Words(line[next..])
  {
    var words, rest := Words(line), line[token..];
    WordsTake(rest, q - token);
    assert rest[..q - token] == line[token..q];
    if q < |line| {
      assert rest[q - token + 1..] == line[q + 1..];
      WordsTail(words, count, line[token..q], Words(line[q + 1..]));
    } else {
      assert line[q..] == "" && Words("") == [] by { assert Split("", ' ') == [""]; }
      WordsTail(words, count, line[token..q], []);
    }
  }

  lemma WordsTail(words: seq<string>, count: nat, word: string, rest: seq<string>)
    requires count <= |words| && words == words[..count] + ([word] + rest)
    ensures count < |words| && words[count] == word && words == words[..count + 1] + rest
  {
    assert words[count..] == [word] + rest;
    assert words[count + 1..] == words[count..][1..] == rest;
  }

  /** A cut at or after the scan position leaves the words before it alone. */
  lemma TokenStays(buf: seq<char>, off: nat, word: string, q: nat)
    requires TokenAt(buf, off, word) && off + |word| < q < |buf|
    ensures TokenAt(buf[q := '\0'], off, word)
  {
    assert buf[q := '\0'][off..off + |word|] == buf[off..off + |word|];
  }

  /** Cutting at `q`, the space after a word. */
  lemma ScanCuts(buf: seq<char>, line: string, args: seq<nat>, token: nat, q: nat)
    requires Scanned(buf, line, args, token) && '\0' !in line
    requires token < q < |line| && ' ' !in line[token..q] && line[q] == ' '
    ensures Scanned(buf[q := '\0'], line, args + [token], q + 1)
  {
    var buf' := buf[q := '\0'];
    WordsAdvance(line, |args|, token, q);
    assert buf'[token..q] == buf[token..|line|][..q - token] == line[token..q];
    assert buf'[q + 1..|line|] == buf[token..|line|][q + 1 - token..] == line[q + 1..];
    forall k | 0 <= k < |args|
      ensures TokenAt(buf', args[k], Words(line)[k])
    {
      TokenStays(buf, args[k], Words(line)[k], q);
    }
    assert TokenAt(buf', token, line[token..q]);
  }

  /** The last word ends with the line. */
  lemma ScanEnds(buf: seq<char>, line: string, args: seq<nat>, token: nat)
    requires Scanned(buf, line, args, token) && '\0' !in line
    requires token < |line| && ' ' !in line[token..]
    ensures Scanned(buf, line, args + [token], |line|)
  {
    assert line[token..|line|] == line[token..];
    WordsAdvance(line, |args|, token, |line|);
    assert TokenAt(buf, token, line[token..]);
    assert buf[|line|..|line|] == line[|line|..];
  }

  lemma TokenEnd(buf: seq<char>, line: string, start: nat, token: nat)
    requires start < |line| < |buf| && start <= token <= |line| && '\0' !in line
    requires buf[start..|line|] == line[start..] && buf[|line|] == '\0'
    requires buf[start] != ' ' && (buf[token] == '\0' || buf[token] == ' ')
    ensures start < token
    ensures token < |line| ==> line[token] == ' ' && buf[token] == ' '
  {
    assert buf[start] == buf[start..|line|][0] == line[start] && line[start] in line;
    if token < |line| {
      assert buf[token] == buf[start..|line|][token - start] == line[token] && line[token] in line;
    }
  }

  method SkipSpaces(buf: array<char>, ghost line: string, ghost args: seq<nat>, from: nat) returns (token: nat)
    requires Scanned(buf[..], line, args, from)
    ensures Scanned(buf[..], line, args, token) && buf[token] != ' ' && from <= token
  {
    token := from;
    while buf[token] == ' '
      invariant Scanned(buf[..], line, args, token) && from <= token
      decreases |line| - token
    {
      assert token < |line| ==> line[token] == buf[..][token..|line|][0];
      ScanSkips(buf[..], line, args, token);
      token := token + 1;
    }
  }

  method EndOfToken(buf: array<char>, ghost line: string, start: nat) returns (q: nat)
    requires start < |line| < buf.Length && '\0' !in line
    requires buf[start..|line|] == line[start..] && buf[|line|] == '\0' && buf[start] != ' '
    ensures start < q <= |line| && ' ' !in line[start..q]
    ensures q < |line| ==> line[q] == ' '
    ensures buf[q] != '\0' <==> q < |line|
  {
    q := start;
    while buf[q] != '\0' && buf[q] != ' '
      invariant start <= q <= |line| && ' ' !in line[start..q]
      decreases |line| - q
    {
      assert buf[q] == buf[start..|line|][q - start] == line[q];
      q := q + 1;
      assert line[start..q] == line[start..q - 1] + [line[q - 1]];
    }
    TokenEnd(buf[..], line, start, q);
  }

  lemma ScanDone(buf: seq<char>, line: string, args: seq<nat>, token: nat)
    requires Scanned(buf, line, args, token) && '\0' !in line && |args| <= MAX_ARGS
    requires buf[token] == '\0' || |args| == MAX_ARGS
    ensures |args| == |FirstNine(Words(line))|
    ensures forall k :: 0 <= k < |args| ==> Words(line)[k] == FirstNine(Words(line))[k]
  {
    if token < |line| {
      assert buf[token] == buf[token..|line|][0] == line[token] && line[token] in line;
    } else {
      assert line[token..] == "" && Words("") == [] by { assert Split("", ' ') == [""]; }
    }
  }

  /** Find the end of the word at `start` and terminate it there. */
  method CutToken(buf: array<char>, ghost line: string, ghost args: seq<nat>, start: nat) returns (next: nat)
    requires Scanned(buf[..], line, args, start) && '\0' !in line && start < |line| && buf[start] != ' '
    modifies buf
    ensures Scanned(buf[..], line, args + [start], next) && start < next
  {
    assert buf[start..|line|] == buf[..][start..|line|];
    next := EndOfToken(buf, line, start);
    if buf[next] != '\0' {
      ScanCuts(buf[..], line, args, start, next);
      buf[next] := '\0';
      next := next + 1;
    } else {
      assert line[start..next] == line[start..];
      ScanEnds(buf[..], line, args, start);
    }
  }

  /** Returns the offsets of the words; the buffer then holds each of them, terminated. */
  method Tokenize(buf: array<char>, ghost line: string) returns (args: seq<nat>)
    requires Holds(buf[..], line)
    modifies buf
    ensures |args| == |FirstNine(Words(line))|
    ensures forall k :: 0 <= k < |args| ==> TokenAt(buf[..], args[k], FirstNine(Words(line))[k])
  {
    args := [];
    var token := 0;
    ScanStarts(buf[..], line);
    while buf[token] != '\0' && |args| < MAX_ARGS
      invariant Scanned(buf[..], line, args, token) && |args| <= MAX_ARGS
      decreases |line| - token
    {
      var start := SkipSpaces(buf, line, args, token);
      if buf[start] == '\0' {
        token := start;
        break;
      }
      token := CutToken(buf, line, args, start);
      args := args + [start];
    }
    ScanDone(buf[..], line, args, token);
  }

  lemma ScanStarts(buf: seq<char>, line: string)
    requires Holds(buf, line)
    ensures Scanned(buf, line, [], 0)
  {
    assert line[0..] == line && Words(line)[..0] == [] && [] + Words(line) == Words(line);
  }
}
