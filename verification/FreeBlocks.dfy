/** Facts about the list of unused blocks that the lowest-first allocator walks. */
module FreeBlocks {
  import opened Limits
  import opened BkfsState

  ghost predicate Increasing(list: seq<nat>) {
    forall i, j :: 0 <= i < j < |list| ==> list[i] < list[j]
  }

  lemma {:induction false} FreeFromFacts(used: seq<bool>, i: nat)
    requires i <= |used|
    ensures Increasing(FreeFrom(used, i))
    ensures forall b :: i <= b < |used| && !used[b] ==> b in FreeFrom(used, i)
    decreases |used| - i
  {
    if i < |used| {
      FreeFromFacts(used, i + 1);
    }
  }

  lemma {:induction false} FreeFromLocal(u: seq<bool>, v: seq<bool>, i: nat)
    requires i <= |u| == |v|
    requires forall j :: i <= j < |u| ==> u[j] == v[j]
    ensures FreeFrom(u, i) == FreeFrom(v, i)
    decreases |u| - i
  {
    if i < |u| {
      FreeFromLocal(u, v, i + 1);
    }
  }

  /** Taking the lowest unused block leaves the rest of the list. */
  lemma {:induction false} TakeLowest(used: seq<bool>, i: nat, b: nat)
    requires i <= b < |used| && !used[b]
    requires forall j :: i <= j < b ==> used[j]
    ensures FreeFrom(used, i) == [b] + FreeFrom(used[b := true], i)
    decreases b - i
  {
    if i == b {
      FreeFromLocal(used, used[b := true], i + 1);
    } else {
      TakeLowest(used, i + 1, b);
    }
  }

  /** Allocating one block at a time, lowest first, takes a prefix of the list. */
  lemma {:induction false} TakePrefix(used: seq<bool>, n: nat)
    requires n <= |FreeList(used)|
    ensures FreeList(Mark(used, FreeList(used)[..n])) == FreeList(used)[n..]
    decreases n
  {
    if n == 0 {
      assert Mark(used, []) == used;
    } else {
      TakePrefix(used, n - 1);
      var before := Mark(used, FreeList(used)[..n - 1]);
      var b := FreeList(used)[n - 1];
      FirstFree(before, b);
      assert before[b := true] == Mark(used, FreeList(used)[..n]) by {
        assert FreeList(used)[..n] == FreeList(used)[..n - 1] + [b];
      }
    }
  }

  lemma FirstFree(used: seq<bool>, b: nat)
    requires FreeList(used) != [] && FreeList(used)[0] == b
    ensures FreeList(used) == [b] + FreeList(used[b := true])
  {
    FreeFromFacts(used, 0);
    TakeLowest(used, 0, b);
  }

  lemma {:induction false} ClearOne(used: seq<bool>, i: nat, b: nat)
    requires i <= b < |used| && used[b]
    ensures |FreeFrom(used[b := false], i)| == |FreeFrom(used, i)| + 1
    decreases b - i
  {
    if i == b {
      FreeFromLocal(used, used[b := false], i + 1);
    } else {
      ClearOne(used, i + 1, b);
    }
  }

  lemma ReleaseSnoc(used: seq<bool>, front: seq<nat>, b: nat)
    requires b < |used|
    ensures b != 0 ==> Release(used, front + [b]) == Release(used, front)[b := false]
    ensures b == 0 ==> Release(used, front + [b]) == Release(used, front)
  {
    assert forall c :: c in front + [b] <==> c in front || c == b;
  }

  /** The counter of `fs_free_block` agrees with the table when the freed blocks are distinct and in use. */
  lemma {:induction false} ReleaseCounts(used: seq<bool>, list: seq<nat>)
    requires Increasing(list)
    requires forall i :: 0 <= i < |list| ==> list[i] < |used| && used[list[i]]
    ensures |FreeList(Release(used, list))| == |FreeList(used)| + CountNonZero(list)
    decreases |list|
  {
    if list == [] {
      assert Release(used, list) == used;
    } else {
      var front, b := list[..|list| - 1], list[|list| - 1];
      ReleaseCounts(used, front);
      ReleaseSnoc(used, front, b);
      assert list == front + [b];
      if b != 0 {
        assert Release(used, front)[b];
        ClearOne(Release(used, front), 0, b);
      }
    }
  }

  // ---------- counting by sets ----------

  ghost function UsedSet(used: seq<bool>): set<nat> {
    set b: nat | b < |used| && used[b]
  }

  ghost function UsedFrom(used: seq<bool>, i: nat): set<nat> {
    set b: nat | i <= b < |used| && used[b]
  }

  lemma {:induction false} FreePlusUsedFrom(used: seq<bool>, i: nat)
    requires i <= |used|
    ensures |FreeFrom(used, i)| + |UsedFrom(used, i)| == |used| - i
    decreases |used| - i
  {
    if i < |used| {
      FreePlusUsedFrom(used, i + 1);
      if used[i] {
        assert UsedFrom(used, i) == {i} + UsedFrom(used, i + 1);
      } else {
        assert UsedFrom(used, i) == UsedFrom(used, i + 1);
      }
    }
  }

  lemma FreePlusUsed(used: seq<bool>)
    ensures |FreeList(used)| + |UsedSet(used)| == |used|
  {
    FreePlusUsedFrom(used, 0);
    assert UsedFrom(used, 0) == UsedSet(used);
  }

  lemma {:induction false} Members(list: seq<nat>) returns (s: set<nat>)
    requires Increasing(list)
    ensures s == (set b | b in list) && |s| == |list|
    decreases |list|
  {
    if list == [] {
      s := {};
    } else {
      var front := Members(list[..|list| - 1]);
      s := front + {list[|list| - 1]};
      assert list == list[..|list| - 1] + [list[|list| - 1]];
    }
  }
}
