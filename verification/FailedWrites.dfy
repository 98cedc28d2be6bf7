/** What a write that runs out of blocks does to block ownership. */
module FailedWrites {
  import opened Limits
  import opened BkfsState
  import opened FreeBlocks
  import opened FileTable
  import opened BlockOwnership
  import opened BkfsInvariant
  import opened BkfsContents

  /** A file without blocks owns none before and after, whatever its stale list says. */
  lemma EmptyFileKeeps(s: Fs, ino: nat, data: seq<char>)
    requires Inv(s) && 1 <= ino <= MAX_INODES && Found(s.files, ByInode(ino))
    requires BlocksFor(|data|) <= INODE_DIRECT_BLOCKS && !WriteFile(s, ino, data).1
    requires s.inodes[ino - 1].blocks == 0
    ensures Inv(WriteFile(s, ino, data).0)
  {
    var n, avail := s.inodes[ino - 1], FreeAfterRelease(s, ino);
    assert InodeShaped(n) && Owned(n) == [];
    assert Release(s.used, Owned(n)) == s.used;
    WriteKeepsInodes(s.files, s.inodes, s.freeInodes, ino - 1, WithList(n, avail));
    SameOwnersKeep(s.inodes, s.inodes[ino - 1 := WithList(n, avail)], s.used, s.freeBlocks);
  }

  lemma ReleaseNothing(used: seq<bool>, list: seq<nat>)
    requires forall i :: 0 <= i < |list| ==> list[i] == 0
    ensures Release(used, list) == used && CountNonZero(list) == 0
  {
    if list != [] {
      ReleaseNothing(used, list[..|list| - 1]);
    }
  }

  /** Otherwise the file still lists, first, a block that is now unused. */
  lemma StaleListBreaks(s: Fs, ino: nat, data: seq<char>)
    requires Inv(s) && 1 <= ino <= MAX_INODES
    requires BlocksFor(|data|) <= INODE_DIRECT_BLOCKS && !WriteFile(s, ino, data).1
    requires s.inodes[ino - 1].blocks > 0 && FreeAfterRelease(s, ino) != []
    ensures !Inv(WriteFile(s, ino, data).0)
  {
    var t := WriteFile(s, ino, data).0;
    var m := t.inodes[ino - 1];
    var b := FreeAfterRelease(s, ino)[0];
    assert m.block[0] == b && !t.used[b];
    if Inv(t) {
      assert b == Owned(m)[0];
      assert Owns(t.inodes, ino - 1, b);
    }
  }

  /** Nothing is free after the release exactly if nothing was before it, and only block 0 to give back. */
  lemma NothingFree(s: Fs, ino: nat)
    requires Inv(s) && 1 <= ino <= MAX_INODES && s.inodes[ino - 1].blocks > 0
    ensures FreeAfterRelease(s, ino) == [] <==> s.freeBlocks == 0 && Owned(s.inodes[ino - 1]) == [0]
  {
    var own := Owned(s.inodes[ino - 1]);
    ReleasedCount(s, ino);
    assert InodeShaped(s.inodes[ino - 1]);
    NonZeroBlocks(own);
    assert 0 in own && |own| == 1 ==> own == [0];
  }

  /** With no block free even after the release, the file had block 0 alone, and nothing changes. */
  lemma FullDiskKeeps(s: Fs, ino: nat, data: seq<char>)
    requires Inv(s) && 1 <= ino <= MAX_INODES && s.inodes[ino - 1].blocks > 0
    requires BlocksFor(|data|) <= INODE_DIRECT_BLOCKS && !WriteFile(s, ino, data).1
    requires FreeAfterRelease(s, ino) == []
    ensures WriteFile(s, ino, data).0 == s
  {
    var n := s.inodes[ino - 1];
    NothingFree(s, ino);
    ReleaseNothing(s.used, Owned(n));
    assert WithList(n, []) == n;
    assert WriteFailed(s, ino, []).inodes == s.inodes;
  }

  /**
   A write that runs out of blocks keeps the invariant if and only if the file had no blocks, or no block
   was unused and the file had none but block 0; otherwise the file is left listing blocks it does not own.
   */
  lemma FailedWriteKeepsIff(s: Fs, ino: nat, data: seq<char>)
    requires Inv(s) && 1 <= ino <= MAX_INODES && Found(s.files, ByInode(ino))
    requires BlocksFor(|data|) <= INODE_DIRECT_BLOCKS && !WriteFile(s, ino, data).1
    ensures Inv(WriteFile(s, ino, data).0) <==>
            || s.inodes[ino - 1].blocks == 0
            || (s.freeBlocks == 0 && Owned(s.inodes[ino - 1]) == [0])
  {
    if s.inodes[ino - 1].blocks == 0 {
      EmptyFileKeeps(s, ino, data);
    } else {
      NothingFree(s, ino);
      if FreeAfterRelease(s, ino) == [] {
        FullDiskKeeps(s, ino, data);
      } else {
        StaleListBreaks(s, ino, data);
      }
    }
  }
}
