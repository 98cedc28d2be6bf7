/** Splitting strings at a separator and joining them again. */
module Strings {
  function IndexOf(s: string, c: char): (r: nat)
    ensures r <= |s|
    ensures r < |s| ==> s[r] == c
    ensures forall i :: 0 <= i < r ==> s[i] != c
  {
    if s == [] || s[0] == c then 0 else 1 + IndexOf(s[1..], c)
  }

  /** The pieces between separators; there is always one more than there are separators. */
  function Split(s: string, c: char): (r: seq<string>)
    ensures |r| >= 1
    decreases |s|
  {
    var k := IndexOf(s, c);
    if k == |s| then [s] else [s[..k]] + Split(s[k + 1..], c)
  }

  function Join(parts: seq<string>, c: char): string {
    if parts == [] then ""
    else if |parts| == 1 then parts[0]
    else parts[0] + [c] + Join(parts[1..], c)
  }

  function NonEmpty(parts: seq<string>): seq<string> {
    if parts == [] then []
    else (if parts[0] == "" then [] else [parts[0]]) + NonEmpty(parts[1..])
  }

  /** The maximal runs of characters other than the separator. */
  function Pieces(s: string, c: char): seq<string> {
    NonEmpty(Split(s, c))
  }

  ghost predicate FreeOf(parts: seq<string>, c: char) {
    forall i :: 0 <= i < |parts| ==> c !in parts[i]
  }

  lemma IndexAfterPrefix(a: string, b: string, c: char)
    requires c !in a
    ensures IndexOf(a + [c] + b, c) == |a|
  {
    var s := a + [c] + b;
    assert s[|a|] == c;
    assert forall i :: 0 <= i < |a| ==> s[i] == a[i];
  }

  lemma SplitPrefix(a: string, b: string, c: char)
    requires c !in a
    ensures Split(a + [c] + b, c) == [a] + Split(b, c)
  {
    IndexAfterPrefix(a, b, c);
    var s := a + [c] + b;
    assert s[..|a|] == a && s[|a| + 1..] == b;
  }

  lemma SplitNone(a: string, c: char)
    requires c !in a
    ensures Split(a, c) == [a]
  {
  }

  /** Joining pieces free of the separator and splitting gives them back. */
  lemma {:induction false} SplitJoin(parts: seq<string>, c: char)
    requires parts != [] && FreeOf(parts, c)
    ensures Split(Join(parts, c), c) == parts
    decreases |parts|
  {
    if |parts| == 1 {
      SplitNone(parts[0], c);
    } else {
      SplitJoin(parts[1..], c);
      SplitPrefix(parts[0], Join(parts[1..], c), c);
    }
  }

  lemma {:induction false} NonEmptyAppend(a: seq<string>, b: seq<string>)
    ensures NonEmpty(a + b) == NonEmpty(a) + NonEmpty(b)
    decreases |a|
  {
    if a == [] {
      assert a + b == b;
    } else {
      assert (a + b)[0] == a[0] && (a + b)[1..] == a[1..] + b;
      NonEmptyAppend(a[1..], b);
    }
  }

  lemma {:induction false} NonEmptyAll(parts: seq<string>)
    requires forall i :: 0 <= i < |parts| ==> parts[i] != ""
    ensures NonEmpty(parts) == parts
    decreases |parts|
  {
    if parts != [] {
      NonEmptyAll(parts[1..]);
    }
  }

  lemma {:induction false} JoinSnoc(parts: seq<string>, last: string, c: char)
    requires parts != []
    ensures Join(parts + [last], c) == Join(parts, c) + [c] + last
    decreases |parts|
  {
    if |parts| > 1 {
      assert (parts + [last])[1..] == parts[1..] + [last];
      JoinSnoc(parts[1..], last, c);
    }
  }

  lemma CutApart(s: string, k: nat, c: char)
    requires k < |s| && s[k] == c
    ensures s == s[..k] + [c] + s[k + 1..]
  {
  }

  lemma Regroup(first: string, rest: string, b: string, c: char)
    ensures first + [c] + rest + [c] + b == first + [c] + (rest + [c] + b)
  {
  }

  lemma PiecesRegroup(first: string, rest: seq<string>, more: seq<string>)
    ensures [first] + rest + more == [first] + (rest + more)
  {
  }

  /** Splitting at a separator in the middle splits both sides. */
  lemma {:induction false} SplitConcat(a: string, b: string, c: char)
    ensures Split(a + [c] + b, c) == Split(a, c) + Split(b, c)
    decreases |a|
  {
    var k := IndexOf(a, c);
    if k == |a| {
      SplitPrefix(a, b, c);
      SplitNone(a, c);
    } else {
      SplitStep(a[..k], a[k + 1..], b, c);
      CutApart(a, k, c);
      SplitConcat(a[k + 1..], b, c);
      PiecesRegroup(a[..k], Split(a[k + 1..], c), Split(b, c));
    }
  }

  lemma SplitStep(first: string, rest: string, b: string, c: char)
    requires c !in first
    ensures Split(first + [c] + rest + [c] + b, c) == [first] + Split(rest + [c] + b, c)
  {
    Regroup(first, rest, b, c);
    SplitPrefix(first, rest + [c] + b, c);
  }

  /** The last piece is empty only if nothing follows the last separator. */
  lemma {:induction false} LastPiece(s: string, c: char)
    ensures Split(s, c)[|Split(s, c)| - 1] == "" <==> s == "" || s[|s| - 1] == c
    decreases |s|
  {
    var k := IndexOf(s, c);
    if k == |s| {
      SplitNone(s, c);
    } else {
      var rest := s[k + 1..];
      LastPiece(rest, c);
      assert rest != "" ==> rest[|rest| - 1] == s[|s| - 1];
      assert Split(s, c) == [s[..k]] + Split(rest, c);
    }
  }

  lemma {:induction false} NonEmptySnoc(parts: seq<string>, last: string)
    ensures NonEmpty(parts + [last]) == NonEmpty(parts) + if last == "" then [] else [last]
  {
    NonEmptyAppend(parts, [last]);
    assert [last][1..] == [];
  }
}
