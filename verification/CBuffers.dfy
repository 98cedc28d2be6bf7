/** C strings in fixed buffers: `strlen`, `strcpy` and `strcat` as loops that stop at the NUL. */
module CBuffers {
  /** The buffer holds the text, a C string, and its terminator. */
  ghost predicate Holds(buffer: seq<char>, text: string) {
    |text| < |buffer| && buffer[..|text|] == text && buffer[|text|] == '\0' && '\0' !in text
  }

  method StrLen(buffer: array<char>, ghost text: string) returns (n: nat)
    requires Holds(buffer[..], text)
    ensures n == |text|
  {
    n := 0;
    assert forall k :: 0 <= k < |text| ==> buffer[k] == buffer[..|text|][k] == text[k];
    while buffer[n] != '\0'
      invariant n <= |text|
      decreases |text| - n
    {
      n := n + 1;
    }
  }

  /** `strcpy` of a string that is not in a buffer of the model: a literal, an argument or a name. */
  method StrCpy(buffer: array<char>, src: string)
    requires |src| < buffer.Length && '\0' !in src
    modifies buffer
    ensures Holds(buffer[..], src)
  {
    PutAt(buffer, 0, src);
  }

  /** `strcat` of such a string. */
  method StrCat(buffer: array<char>, src: string, ghost text: string)
    requires Holds(buffer[..], text) && '\0' !in src && |text| + |src| < buffer.Length
    modifies buffer
    ensures Holds(buffer[..], text + src)
  {
    var n := StrLen(buffer, text);
    PutAt(buffer, n, src);
    assert buffer[..|text + src|] == buffer[..n] + buffer[n..n + |src|];
  }

  method PutAt(buffer: array<char>, at: nat, src: string)
    requires at + |src| < buffer.Length
    modifies buffer
    ensures buffer[..at] == old(buffer[..at]) && buffer[at..at + |src|] == src && buffer[at + |src|] == '\0'
  {
    for i := 0 to |src|
      invariant buffer[..at] == old(buffer[..at]) && buffer[at..at + i] == src[..i]
    {
      buffer[at + i] := src[i];
      assert buffer[at..at + i + 1] == buffer[at..at + i] + [src[i]];
    }
    buffer[at + |src|] := '\0';
  }

  /** `strcpy` from another buffer, up to its first NUL. */
  method CopyBuffer(buffer: array<char>, src: array<char>, ghost text: string)
    requires buffer != src && Holds(src[..], text) && |text| < buffer.Length
    modifies buffer
    ensures Holds(buffer[..], text)
  {
    AppendAt(buffer, 0, src, text);
  }

  /** `strcat` from another buffer. */
  method CatBuffer(buffer: array<char>, src: array<char>, ghost text: string, ghost more: string)
    requires buffer != src && Holds(buffer[..], text)
    requires Holds(src[..], more) && |text| + |more| < buffer.Length
    modifies buffer
    ensures Holds(buffer[..], text + more)
  {
    var n := StrLen(buffer, text);
    AppendAt(buffer, n, src, more);
    assert buffer[..|text + more|] == buffer[..n] + buffer[n..n + |more|];
  }

  method AppendAt(buffer: array<char>, at: nat, src: array<char>, ghost text: string)
    requires buffer != src && Holds(src[..], text) && at + |text| < buffer.Length
    modifies buffer
    ensures buffer[..at] == old(buffer[..at]) && buffer[at..at + |text|] == text && buffer[at + |text|] == '\0'
  {
    var i := 0;
    assert forall k :: 0 <= k < |text| ==> src[k] == src[..|text|][k] == text[k];
    while src[i] != '\0'
      invariant i <= |text| && buffer[..at] == old(buffer[..at]) && buffer[at..at + i] == text[..i]
      decreases |text| - i
    {
      assert i < |text|;
      buffer[at + i] := src[i];
      assert buffer[at..at + i + 1] == buffer[at..at + i] + [text[i]];
      i := i + 1;
    }
    assert i == |text|;
    buffer[at + i] := '\0';
  }
}
