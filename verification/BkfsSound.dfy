/**
 What the tables keep under any calls at all: whatever the arguments, and also after a write that failed.
 The counter of unused blocks may then count too many, but never too few.
 */
module BkfsSound {
  import opened Limits
  import opened FileNames
  import opened BkfsState
  import opened FreeBlocks
  import opened FileTable
  import opened BlockOwnership
  import opened BkfsInvariant

  ghost predicate Sound(s: Fs) {
    Shaped(s) && s.freeBlocks >= |FreeList(s.used)|
  }

  lemma InvIsSound(s: Fs)
    requires Inv(s)
    ensures Sound(s)
  {
  }

  lemma CreateSound(s: Fs, name: string, parent: nat, kind: Kind)
    requires Sound(s)
    ensures Sound(CreateFile(s, name, parent, kind).0)
  {
  }

  /** Freeing listed blocks counts each of them, also one listed twice or not in use. */
  lemma {:induction false} ReleaseAtMost(used: seq<bool>, list: seq<nat>)
    requires forall i :: 0 <= i < |list| ==> list[i] < |used|
    ensures |FreeList(Release(used, list))| <= |FreeList(used)| + CountNonZero(list)
    decreases |list|
  {
    if list == [] {
      assert Release(used, list) == used;
    } else {
      var front, b := list[..|list| - 1], list[|list| - 1];
      ReleaseAtMost(used, front);
      ReleaseSnoc(used, front, b);
      assert list == front + [b];
      if b != 0 {
        if Release(used, front)[b] {
          ClearOne(Release(used, front), 0, b);
        } else {
          assert Release(used, front)[b := false] == Release(used, front);
        }
      }
    }
  }

  lemma ReleaseSound(s: Fs, ino: nat)
    requires Sound(s) && 1 <= ino <= MAX_INODES
    ensures s.freeBlocks + CountNonZero(Owned(s.inodes[ino - 1])) >= |FreeAfterRelease(s, ino)|
  {
    assert InodeListed(s.inodes[ino - 1]);
    ReleaseAtMost(s.used, Owned(s.inodes[ino - 1]));
  }

  /** No call ever removes a ghost entry. */
  lemma RemoveKeepsGhosts(files: seq<Entry>, ino: nat)
    requires GhostsLead(files) && ino >= 1
    ensures GhostsLead(RemoveAt(files, First(files, ByInode(ino))))
  {
    var d := First(files, ByInode(ino));
    assert d >= GHOST_ENTRIES || d == |files|;
    if d < |files| {
      RemovedAt(files, d);
    }
  }

  lemma DeleteSound(s: Fs, ino: nat)
    requires Sound(s)
    ensures Sound(DeleteFile(s, ino).0)
  {
    if 1 <= ino <= MAX_INODES {
      RemoveKeepsGhosts(s.files, ino);
      ReleaseSound(s, ino);
      assert InodeListed(ZERO_INODE);
    }
  }

  lemma FailedWriteSound(s: Fs, ino: nat)
    requires Sound(s) && 1 <= ino <= MAX_INODES && |FreeAfterRelease(s, ino)| <= INODE_DIRECT_BLOCKS
    ensures Sound(WriteFailed(s, ino, FreeAfterRelease(s, ino)))
  {
    ReleaseSound(s, ino);
    assert InodeListed(s.inodes[ino - 1]);
    assert InodeListed(WithList(s.inodes[ino - 1], FreeAfterRelease(s, ino)));
  }

  lemma WriteDoneSound(s: Fs, ino: nat, data: seq<char>)
    requires Sound(s) && 1 <= ino <= MAX_INODES
    requires BlocksFor(|data|) <= INODE_DIRECT_BLOCKS && BlocksFor(|data|) <= |FreeAfterRelease(s, ino)|
    ensures Sound(WriteFile(s, ino, data).0)
  {
    var n := s.inodes[ino - 1];
    var list := FreeAfterRelease(s, ino)[..BlocksFor(|data|)];
    ReleaseSound(s, ino);
    assert InodeListed(n);
    TakePrefix(Release(s.used, Owned(n)), |list|);
    assert InodeListed(Inode(n.mode, |data|, |list|, WithList(n, list).block));
  }

  /** A write keeps the tables sound, whether it succeeds or fails, and also on an inode with a stale list. */
  lemma WriteSound(s: Fs, ino: nat, data: seq<char>)
    requires Sound(s)
    ensures Sound(WriteFile(s, ino, data).0)
  {
    if 1 <= ino <= MAX_INODES && BlocksFor(|data|) <= INODE_DIRECT_BLOCKS {
      if |FreeAfterRelease(s, ino)| < BlocksFor(|data|) {
        FailedWriteSound(s, ino);
      } else {
        WriteDoneSound(s, ino, data);
      }
    }
  }
}
