/** What holds in every state that a run of commands can reach from a good state, such as the one boot leaves. */
module Reachable {
  import opened Limits
  import opened FileNames
  import opened BkfsState
  import opened FreeBlocks
  import opened FileTable
  import opened BlockOwnership
  import opened BkfsInvariant
  import opened BkfsContents
  import opened BkfsCapacity
  import opened Paths
  import opened TreeModel
  import opened Abstraction
  import opened Simulation
  import opened BootState
  import opened Boot

  /** Some run of commands that keep to the contract leads from a good state to `s`. */
  ghost predicate Reached(start: Fs, s: Fs)
    requires Good(start)
  {
    exists cs :: RunFits(Abs(start), cs) && ExecuteAll(start, cs).0 == s
  }

  lemma ReachedIsGood(start: Fs, s: Fs)
    requires Good(start) && Reached(start, s)
    ensures Good(s)
  {
  }

  /** The state that boot leaves is a good one to start from. */
  lemma BootStarts()
    ensures Good(BootFs(NAMES)) && Reached(BootFs(NAMES), BootFs(NAMES))
  {
    BootIsGood();
    EmptyRun(BootFs(NAMES));
  }

  lemma EmptyRun(start: Fs)
    requires Good(start)
    ensures Reached(start, start)
  {
    var none: seq<Command> := [];
    assert RunFits(Abs(start), none) && ExecuteAll(start, none).0 == start;
  }

  /** Unused blocks, owned blocks and the leaked block 0 add up to the disk; entries and free inodes to 133. */
  lemma Conservation(start: Fs, s: Fs)
    requires Good(start) && Reached(start, s)
    ensures Inv(s)
    ensures s.freeBlocks + SumBlocks(s.inodes, MAX_INODES) + (if Leaked(s) then 1 else 0) == 1024
    ensures |s.files| + s.freeInodes == 133 && |s.files| > GHOST_ENTRIES
  {
    ReachedIsGood(start, s);
    BlockConservation(s);
    EntryConservation(s);
  }

  /** The inode of an entry has the mode of its kind. */
  lemma Modes(start: Fs, s: Fs, i: nat)
    requires Good(start) && Reached(start, s) && ROOT_INDEX <= i < |s.files|
    ensures 1 <= s.files[i].inode <= |s.inodes| == 128
    ensures s.inodes[s.files[i].inode - 1].mode == if s.files[i].kind == Directory then 0x4000 else 0x8000
  {
    ReachedIsGood(start, s);
    FirstOfInode(s.files, i);
    assert LiveEntry(s.files[i]) && SlotOk(s.files, s.inodes, s.files[i].inode - 1);
  }

  /** Lowest-first allocation leaves every block list increasing, so block 0 can only be first in a list. */
  lemma ListsIncrease(start: Fs, s: Fs, k: nat)
    requires Good(start) && Reached(start, s) && k < MAX_INODES
    ensures InodeShaped(s.inodes[k]) && Increasing(Owned(s.inodes[k]))
    ensures forall i :: 0 <= i < |Owned(s.inodes[k])| && Owned(s.inodes[k])[i] == 0 ==> i == 0
  {
    ReachedIsGood(start, s);
    ListIncreases(s.inodes[k]);
  }

  lemma ListIncreases(n: Inode)
    requires InodeShaped(n)
    ensures Increasing(Owned(n))
    ensures forall i :: 0 <= i < |Owned(n)| && Owned(n)[i] == 0 ==> i == 0
  {
    var list := Owned(n);
    assert forall i :: 0 < i < |list| ==> list[0] < list[i];
  }

  /** Every block a file lists is its own, in range and in use; every block in use but block 0 is some file's. */
  lemma Ownership(start: Fs, s: Fs, b: nat)
    requires Good(start) && Reached(start, s) && b < MAX_BLOCKS
    ensures InodesShaped(s.inodes) && |s.used| == MAX_BLOCKS
    ensures b > 0 ==> (s.used[b] <==> HasOwner(s.inodes, b))
    ensures forall k, l :: 0 <= k < MAX_INODES && 0 <= l < MAX_INODES && Owns(s.inodes, k, b) && Owns(s.inodes, l, b) ==> k == l
  {
    ReachedIsGood(start, s);
  }

  /** Entries other than the root have an earlier directory as parent, and the current inode is a directory. */
  lemma ParentsEarlier(start: Fs, s: Fs, i: nat)
    requires Good(start) && Reached(start, s) && ROOT_INDEX < i < |s.files|
    ensures exists p :: ROOT_INDEX <= p < i && s.files[p].inode == s.files[i].parent && s.files[p].kind == Directory
    ensures exists c :: ROOT_INDEX <= c < |s.files| && s.files[c].inode == s.cur && s.files[c].kind == Directory
  {
    ReachedIsGood(start, s);
    assert ParentEarlier(s.files, i);
    assert IsDirectory(s.files, s.cur);
  }

  /** In no reachable state does a write of at most 8192 bytes to a live file fail. */
  lemma WritesSucceed(start: Fs, s: Fs, i: nat, data: seq<char>)
    requires Good(start) && Reached(start, s) && ROOT_INDEX <= i < |s.files| && |data| <= MAX_TEXT
    ensures Shaped(s) && WriteFile(s, s.files[i].inode, data).1
  {
    ReachedIsGood(start, s);
    assert LiveEntry(s.files[i]);
    BoundedWriteSucceeds(s, s.files[i].inode, data);
  }
}
