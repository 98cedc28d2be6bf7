/** Conservation of blocks, and why bounded writes always find room. */
module BkfsCapacity {
  import opened Limits
  import opened BkfsState
  import opened FreeBlocks
  import opened FileTable
  import opened BlockOwnership
  import opened BkfsInvariant

  const MAX_TEXT := 8 * BLOCK_SIZE

  ghost function OwnedSet(n: Inode): set<nat>
    requires InodeShaped(n)
  {
    set b | b in Owned(n)
  }

  ghost function BlocksOwned(inodes: seq<Inode>, n: nat): set<nat>
    requires InodesShaped(inodes) && n <= MAX_INODES
  {
    if n == 0 then {} else BlocksOwned(inodes, n - 1) + OwnedSet(inodes[n - 1])
  }

  ghost function SumBlocks(inodes: seq<Inode>, n: nat): nat
    requires n <= |inodes|
  {
    if n == 0 then 0 else SumBlocks(inodes, n - 1) + inodes[n - 1].blocks
  }

  lemma {:induction false} OwnedIffOwner(inodes: seq<Inode>, n: nat, b: nat)
    requires InodesShaped(inodes) && n <= MAX_INODES
    ensures b in BlocksOwned(inodes, n) <==> exists k :: 0 <= k < n && Owns(inodes, k, b)
    decreases n
  {
    if n > 0 {
      OwnedIffOwner(inodes, n - 1, b);
      assert Owns(inodes, n - 1, b) <==> b in OwnedSet(inodes[n - 1]);
    }
  }

  lemma OwnedSize(n: Inode)
    requires InodeShaped(n)
    ensures |OwnedSet(n)| == n.blocks
  {
    var members := Members(Owned(n));
    assert OwnedSet(n) == members;
  }

  lemma LaterBlocksAreNew(inodes: seq<Inode>, n: nat, b: nat)
    requires InodesShaped(inodes) && n < MAX_INODES && OneOwner(inodes)
    requires b in BlocksOwned(inodes, n)
    ensures b !in OwnedSet(inodes[n])
  {
    OwnedIffOwner(inodes, n, b);
    var k :| 0 <= k < n && Owns(inodes, k, b);
    assert !Owns(inodes, n, b);
  }

  lemma DisjointUnion(a: set<nat>, b: set<nat>)
    requires forall x :: x in a ==> x !in b
    ensures |a + b| == |a| + |b|
  {
    assert a !! b;
  }

  /** No block is counted twice. */
  lemma {:induction false} SumIsCardinality(inodes: seq<Inode>, n: nat)
    requires InodesShaped(inodes) && n <= MAX_INODES && OneOwner(inodes)
    ensures |BlocksOwned(inodes, n)| == SumBlocks(inodes, n)
    decreases n
  {
    if n > 0 {
      SumIsCardinality(inodes, n - 1);
      OwnedSize(inodes[n - 1]);
      var earlier := BlocksOwned(inodes, n - 1);
      forall b | b in earlier
        ensures b !in OwnedSet(inodes[n - 1])
      {
        LaterBlocksAreNew(inodes, n - 1, b);
      }
      DisjointUnion(earlier, OwnedSet(inodes[n - 1]));
    }
  }

  ghost predicate Leaked(s: Fs)
    requires Inv(s)
  {
    s.used[0] && !HasOwner(s.inodes, 0)
  }

  lemma UsedSplit(s: Fs)
    requires Inv(s)
    ensures UsedSet(s.used) == BlocksOwned(s.inodes, MAX_INODES) + if Leaked(s) then {0} else {}
    ensures Leaked(s) ==> 0 !in BlocksOwned(s.inodes, MAX_INODES)
  {
    forall b: nat
      ensures b in UsedSet(s.used) <==> b in BlocksOwned(s.inodes, MAX_INODES) || (b == 0 && Leaked(s))
      ensures b in BlocksOwned(s.inodes, MAX_INODES) <==> HasOwner(s.inodes, b)
    {
      UsedIffOwned(s, b);
      OwnedIffOwner(s.inodes, MAX_INODES, b);
    }
  }

  /** Unused blocks, owned blocks and at most the one leaked block 0 make up the disk. */
  lemma BlockConservation(s: Fs)
    requires Inv(s)
    ensures s.freeBlocks + SumBlocks(s.inodes, MAX_INODES) + (if Leaked(s) then 1 else 0) == MAX_BLOCKS
  {
    FreePlusUsed(s.used);
    SumIsCardinality(s.inodes, MAX_INODES);
    UsedSplit(s);
  }

  lemma UsedIffOwned(s: Fs, b: nat)
    requires Inv(s)
    ensures b in UsedSet(s.used) <==> HasOwner(s.inodes, b) || (b == 0 && Leaked(s))
  {
    if HasOwner(s.inodes, b) {
      var k :| 0 <= k < MAX_INODES && Owns(s.inodes, k, b);
    }
  }

  /** Entries and free inodes add up, and neither "no files left" panic can be reached. */
  lemma EntryConservation(s: Fs)
    requires Inv(s)
    ensures |s.files| + s.freeInodes == 133 && |s.files| > GHOST_ENTRIES
    ensures forall k: nat :: k < MAX_INODES ==>
                               (s.inodes[k].mode != 0 <==>
                                exists i :: GHOST_ENTRIES <= i < |s.files| && s.files[i].inode == k + 1)
  {
    forall k: nat | k < MAX_INODES
      ensures s.inodes[k].mode != 0 <==>
              exists i :: GHOST_ENTRIES <= i < |s.files| && s.files[i].inode == k + 1
    {
      assert SlotOk(s.files, s.inodes, k);
    }
  }

  // ---------- capacity ----------

  ghost predicate SmallFiles(inodes: seq<Inode>) {
    forall k :: 0 <= k < |inodes| ==> inodes[k].size <= MAX_TEXT
  }

  ghost predicate NumbersInRange(files: seq<Entry>) {
    forall i :: GHOST_ENTRIES <= i < |files| ==> 1 <= files[i].inode <= MAX_INODES
  }

  ghost function BlocksOfEntries(files: seq<Entry>, inodes: seq<Inode>, n: nat): set<nat>
    requires InodesShaped(inodes) && n <= |files| && NumbersInRange(files)
  {
    if n <= GHOST_ENTRIES then {}
    else BlocksOfEntries(files, inodes, n - 1) + OwnedSet(inodes[files[n - 1].inode - 1])
  }

  lemma SmallOwned(n: Inode)
    requires InodeShaped(n) && n.size <= MAX_TEXT
    ensures |OwnedSet(n)| <= 8
  {
    OwnedSize(n);
  }

  lemma {:induction false} EntriesOwnFew(files: seq<Entry>, inodes: seq<Inode>, n: nat)
    requires InodesShaped(inodes) && GHOST_ENTRIES <= n <= |files| && NumbersInRange(files) && SmallFiles(inodes)
    ensures |BlocksOfEntries(files, inodes, n)| <= 8 * (n - GHOST_ENTRIES)
    decreases n
  {
    if n > GHOST_ENTRIES {
      EntriesOwnFew(files, inodes, n - 1);
      SmallOwned(inodes[files[n - 1].inode - 1]);
    }
  }

  lemma {:induction false} EntryOwns(files: seq<Entry>, inodes: seq<Inode>, n: nat, i: nat, b: nat)
    requires InodesShaped(inodes) && n <= |files| && NumbersInRange(files)
    requires GHOST_ENTRIES <= i < n && b in Owned(inodes[files[i].inode - 1])
    ensures b in BlocksOfEntries(files, inodes, n)
    decreases n
  {
    if i < n - 1 {
      EntryOwns(files, inodes, n - 1, i, b);
    }
  }

  lemma UsedBelongsToEntry(s: Fs, b: nat)
    requires Inv(s) && NumbersInRange(s.files) && b in UsedSet(s.used)
    ensures b in BlocksOfEntries(s.files, s.inodes, |s.files|) + {0}
  {
    if b != 0 {
      assert HasOwner(s.inodes, b);
      var k: nat :| k < MAX_INODES && Owns(s.inodes, k, b);
      assert SlotOk(s.files, s.inodes, k);
      EntryOwns(s.files, s.inodes, |s.files|, First(s.files, ByInode(k + 1)), b);
    }
  }

  lemma EntriesInRange(s: Fs)
    requires Inv(s)
    ensures NumbersInRange(s.files)
  {
    assert forall i :: GHOST_ENTRIES <= i < |s.files| ==> LiveEntry(s.files[i]);
  }

  /** At most 123 entries of at most 8 blocks each, and block 0, are in use. */
  lemma RoomLeft(s: Fs)
    requires Inv(s) && SmallFiles(s.inodes)
    ensures s.freeBlocks >= 8
  {
    EntriesInRange(s);
    EntriesOwnFew(s.files, s.inodes, |s.files|);
    forall b | b in UsedSet(s.used)
      ensures b in BlocksOfEntries(s.files, s.inodes, |s.files|) + {0}
    {
      UsedBelongsToEntry(s, b);
    }
    SubsetCardinality(UsedSet(s.used), BlocksOfEntries(s.files, s.inodes, |s.files|) + {0});
    FreePlusUsed(s.used);
  }

  lemma {:induction false} SubsetCardinality(a: set<nat>, b: set<nat>)
    requires a <= b
    ensures |a| <= |b|
    decreases a
  {
    if a != {} {
      var x :| x in a;
      SubsetCardinality(a - {x}, b - {x});
    }
  }

  /** The capacity bound: a write of at most 8192 bytes to a live inode always succeeds and keeps the bound. */
  lemma BoundedWriteSucceeds(s: Fs, ino: nat, data: seq<char>)
    requires Inv(s) && SmallFiles(s.inodes)
    requires 1 <= ino <= MAX_INODES && |data| <= MAX_TEXT
    ensures WriteFile(s, ino, data).1 && SmallFiles(WriteFile(s, ino, data).0.inodes)
  {
    RoomLeft(s);
    OwnedInUse(s.inodes, s.used, ino - 1);
    ReleaseCounts(s.used, Owned(s.inodes[ino - 1]));
  }
}
