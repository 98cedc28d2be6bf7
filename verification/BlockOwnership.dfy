/** Block ownership: which inode owns which block, and the counter of unused blocks. */
module BlockOwnership {
  import opened Limits
  import opened BkfsState
  import opened FreeBlocks

  ghost predicate Owns(inodes: seq<Inode>, k: nat, b: nat)
    requires InodesShaped(inodes) && k < MAX_INODES
  {
    b in Owned(inodes[k])
  }

  ghost predicate HasOwner(inodes: seq<Inode>, b: nat)
    requires InodesShaped(inodes)
  {
    exists k :: 0 <= k < MAX_INODES && Owns(inodes, k, b)
  }

  ghost predicate OwnedAreUsed(inodes: seq<Inode>, used: seq<bool>)
    requires InodesShaped(inodes) && |used| == MAX_BLOCKS
  {
    forall k, b: nat :: 0 <= k < MAX_INODES && Owns(inodes, k, b) ==> b < MAX_BLOCKS && used[b]
  }

  ghost predicate OneOwner(inodes: seq<Inode>)
    requires InodesShaped(inodes)
  {
    forall k, l, b: nat :: 0 <= k < MAX_INODES && 0 <= l < MAX_INODES && Owns(inodes, k, b) && Owns(inodes, l, b) ==> k == l
  }

  /** Block 0 is the one block that may be in use without an owner. */
  ghost predicate UsedAreOwned(inodes: seq<Inode>, used: seq<bool>)
    requires InodesShaped(inodes) && |used| == MAX_BLOCKS
  {
    forall b: nat :: 0 < b < MAX_BLOCKS && used[b] ==> HasOwner(inodes, b)
  }

  ghost predicate BlocksInv(inodes: seq<Inode>, used: seq<bool>, freeBlocks: int)
    requires InodesShaped(inodes)
  {
    && |used| == MAX_BLOCKS
    && freeBlocks == |FreeList(used)|
    && OwnedAreUsed(inodes, used)
    && OneOwner(inodes)
    && UsedAreOwned(inodes, used)
  }

  ghost predicate SameOwners(inodes: seq<Inode>, inodes': seq<Inode>)
    requires InodesShaped(inodes) && InodesShaped(inodes')
  {
    forall k :: 0 <= k < MAX_INODES ==> Owned(inodes[k]) == Owned(inodes'[k])
  }

  lemma SameOwnersKeep(inodes: seq<Inode>, inodes': seq<Inode>, used: seq<bool>, freeBlocks: int)
    requires InodesShaped(inodes) && InodesShaped(inodes') && SameOwners(inodes, inodes')
    requires BlocksInv(inodes, used, freeBlocks)
    ensures BlocksInv(inodes', used, freeBlocks)
  {
    assert forall k, b: nat :: 0 <= k < MAX_INODES ==> Owns(inodes', k, b) == Owns(inodes, k, b);
    forall b: nat | 0 < b < MAX_BLOCKS && used[b]
      ensures HasOwner(inodes', b)
    {
      assert HasOwner(inodes, b);
    }
  }

  lemma OwnedInUse(inodes: seq<Inode>, used: seq<bool>, k: nat)
    requires InodesShaped(inodes) && |used| == MAX_BLOCKS && OwnedAreUsed(inodes, used) && k < MAX_INODES
    ensures Increasing(Owned(inodes[k]))
    ensures forall i :: 0 <= i < |Owned(inodes[k])| ==> Owned(inodes[k])[i] < |used| && used[Owned(inodes[k])[i]]
  {
    var list := Owned(inodes[k]);
    assert InodeShaped(inodes[k]);
    forall i | 0 <= i < |list|
      ensures list[i] < |used| && used[list[i]]
    {
      assert Owns(inodes, k, list[i]);
    }
  }

  /** Giving back the blocks of one inode. */
  lemma ReleaseKeeps(inodes: seq<Inode>, used: seq<bool>, freeBlocks: int, k: nat, empty: Inode)
    requires InodesShaped(inodes) && BlocksInv(inodes, used, freeBlocks)
    requires k < MAX_INODES && InodeShaped(empty) && empty.blocks == 0
    ensures BlocksInv(inodes[k := empty], Release(used, Owned(inodes[k])), freeBlocks + CountNonZero(Owned(inodes[k])))
  {
    OwnedInUse(inodes, used, k);
    ReleaseCounts(used, Owned(inodes[k]));
    var inodes', used' := inodes[k := empty], Release(used, Owned(inodes[k]));
    assert forall l, b: nat :: 0 <= l < MAX_INODES ==> Owns(inodes', l, b) == (l != k && Owns(inodes, l, b));
    forall l, b: nat | 0 <= l < MAX_INODES && Owns(inodes', l, b)
      ensures b < MAX_BLOCKS && used'[b]
    {
      assert Owns(inodes, l, b) && !Owns(inodes, k, b);
    }
    forall b: nat | 0 < b < MAX_BLOCKS && used'[b]
      ensures HasOwner(inodes', b)
    {
      assert used[b] && !Owns(inodes, k, b);
      assert HasOwner(inodes, b);
      var l :| 0 <= l < MAX_INODES && Owns(inodes, l, b);
      assert Owns(inodes', l, b);
    }
  }

  /** Giving the lowest unused blocks to an inode that has none. */
  lemma TakeKeeps(inodes: seq<Inode>, used: seq<bool>, freeBlocks: int, k: nat, n: Inode)
    requires InodesShaped(inodes) && BlocksInv(inodes, used, freeBlocks)
    requires k < MAX_INODES && inodes[k].blocks == 0 && InodeShaped(n)
    requires n.blocks <= |FreeList(used)| && Owned(n) == FreeList(used)[..n.blocks]
    ensures BlocksInv(inodes[k := n], Mark(used, Owned(n)), freeBlocks - n.blocks)
  {
    TakePrefix(used, n.blocks);
    var inodes', used' := inodes[k := n], Mark(used, Owned(n));
    assert forall l, b: nat :: 0 <= l < MAX_INODES ==> Owns(inodes', l, b) == if l == k then b in Owned(n) else Owns(inodes, l, b);
    forall b: nat | b in Owned(n)
      ensures b < MAX_BLOCKS && !used[b]
    {
      assert b in FreeList(used);
    }
    forall b: nat | 0 < b < MAX_BLOCKS && used'[b]
      ensures HasOwner(inodes', b)
    {
      TakenHasOwner(inodes, used, k, n, b);
    }
  }

  lemma TakenHasOwner(inodes: seq<Inode>, used: seq<bool>, k: nat, n: Inode, b: nat)
    requires InodesShaped(inodes) && |used| == MAX_BLOCKS && UsedAreOwned(inodes, used)
    requires k < MAX_INODES && inodes[k].blocks == 0 && InodeShaped(n)
    requires 0 < b < MAX_BLOCKS && (used[b] || b in Owned(n))
    ensures HasOwner(inodes[k := n], b)
  {
    if b in Owned(n) {
      assert Owns(inodes[k := n], k, b);
    } else {
      assert HasOwner(inodes, b);
      var l :| 0 <= l < MAX_INODES && Owns(inodes, l, b);
      assert Owns(inodes[k := n], l, b);
    }
  }
}
