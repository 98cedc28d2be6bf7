/** What a write leaves readable, in the written inode and in every other one. */
module BkfsContents {
  import opened Limits
  import opened BkfsState
  import opened FreeBlocks
  import opened FileTable
  import opened BlockOwnership
  import opened BkfsInvariant

  ghost predicate Storable(blocks: seq<seq<char>>, list: seq<nat>, data: seq<char>, n: nat) {
    && BlocksShaped(blocks) && n <= |list| && n <= BlocksFor(|data|)
    && BlockNumbers(list)
  }

  lemma {:induction false} StoreElsewhere(blocks: seq<seq<char>>, list: seq<nat>, data: seq<char>, n: nat, b: nat)
    requires Storable(blocks, list, data, n) && b < MAX_BLOCKS
    requires forall i :: 0 <= i < n ==> list[i] != b
    ensures Store(blocks, list, data, n)[b] == blocks[b]
    decreases n
  {
    if n > 0 {
      StoreElsewhere(blocks, list, data, n - 1, b);
    }
  }

  /** Storing the chunks in distinct blocks leaves chunk `q` at the front of block `list[q]`. */
  lemma {:induction false} StoredChunk(blocks: seq<seq<char>>, list: seq<nat>, data: seq<char>, n: nat, q: nat)
    requires Storable(blocks, list, data, n) && Increasing(list) && q < n
    ensures Store(blocks, list, data, n)[list[q]] == Overlay(blocks[list[q]], Chunk(data, q))
    decreases n
  {
    if q < n - 1 {
      StoredChunk(blocks, list, data, n - 1, q);
    } else {
      StoreElsewhere(blocks, list, data, n - 1, list[q]);
    }
  }

  lemma StoredContent(blocks: seq<seq<char>>, n: Inode, data: seq<char>)
    requires BlocksShaped(blocks) && InodeShaped(n) && n.size == |data|
    ensures Content(n, Store(blocks, Owned(n), data, n.blocks)) == data
  {
    var list := Owned(n);
    var after := Store(blocks, list, data, n.blocks);
    forall i | 0 <= i < |data|
      ensures Content(n, after)[i] == data[i]
    {
      StoredChunk(blocks, list, data, n.blocks, i / BLOCK_SIZE);
      ChunkByte(blocks[list[i / BLOCK_SIZE]], data, i);
    }
  }

  lemma ChunkByte(block: seq<char>, data: seq<char>, i: nat)
    requires |block| == BLOCK_SIZE && i < |data|
    ensures Overlay(block, Chunk(data, i / BLOCK_SIZE))[i % BLOCK_SIZE] == data[i]
  {
    var q := i / BLOCK_SIZE;
    assert Chunk(data, q)[i % BLOCK_SIZE] == data[q * BLOCK_SIZE + i % BLOCK_SIZE];
  }

  /** A file none of whose blocks are in the list reads as before. */
  lemma StoreFrame(blocks: seq<seq<char>>, list: seq<nat>, data: seq<char>, n: Inode)
    requires Storable(blocks, list, data, |list|) && InodeShaped(n)
    requires forall b :: b in Owned(n) ==> b !in list
    ensures Content(n, Store(blocks, list, data, |list|)) == Content(n, blocks)
  {
    forall i | 0 <= i < n.size
      ensures Content(n, Store(blocks, list, data, |list|))[i] == Content(n, blocks)[i]
    {
      assert Owned(n)[i / BLOCK_SIZE] in Owned(n);
      StoreElsewhere(blocks, list, data, |list|, n.block[i / BLOCK_SIZE]);
    }
  }

  /** What block `i` of the list holds of the file. */
  lemma ContentChunk(n: Inode, blocks: seq<seq<char>>, i: nat, count: nat)
    requires InodeListed(n) && BlocksShaped(blocks) && count <= BLOCK_SIZE
    requires i < n.blocks && i * BLOCK_SIZE + count <= n.size
    ensures Content(n, blocks)[i * BLOCK_SIZE..i * BLOCK_SIZE + count] == blocks[n.block[i]][..count]
  {
    forall j | 0 <= j < count
      ensures Content(n, blocks)[i * BLOCK_SIZE + j] == blocks[n.block[i]][j]
    {
      assert (i * BLOCK_SIZE + j) / BLOCK_SIZE == i && (i * BLOCK_SIZE + j) % BLOCK_SIZE == j;
    }
  }

  lemma NotYetTaken(s: Fs, ino: nat, l: nat)
    requires Inv(s) && 1 <= ino <= MAX_INODES && l < MAX_INODES && l != ino - 1
    ensures forall b :: b in Owned(s.inodes[l]) ==> b !in FreeAfterRelease(s, ino)
  {
    forall b | b in Owned(s.inodes[l])
      ensures b !in FreeAfterRelease(s, ino)
    {
      assert Owns(s.inodes, l, b) && !Owns(s.inodes, ino - 1, b);
    }
  }

  /** After a successful write the file reads back as the data, and every other file as before. */
  lemma WriteThenContent(s: Fs, ino: nat, data: seq<char>)
    requires Inv(s) && 1 <= ino <= MAX_INODES && WriteFile(s, ino, data).1
    ensures Shaped(WriteFile(s, ino, data).0)
    ensures var t := WriteFile(s, ino, data).0; Content(t.inodes[ino - 1], t.blocks) == data
    ensures var t := WriteFile(s, ino, data).0;
            forall l :: 0 <= l < MAX_INODES && l != ino - 1 ==>
                          t.inodes[l] == s.inodes[l] && Content(t.inodes[l], t.blocks) == Content(s.inodes[l], s.blocks)
  {
    var t := WriteFile(s, ino, data).0;
    var n := WrittenInode(s, ino, data);
    var list := FreeAfterRelease(s, ino)[..n.blocks];
    FreeFromFacts(Release(s.used, Owned(s.inodes[ino - 1])), 0);
    assert InodesShaped(t.inodes);
    StoredContent(s.blocks, n, data);
    forall l | 0 <= l < MAX_INODES && l != ino - 1
      ensures t.inodes[l] == s.inodes[l] && Content(t.inodes[l], t.blocks) == Content(s.inodes[l], s.blocks)
    {
      NotYetTaken(s, ino, l);
      StoreFrame(s.blocks, list, data, s.inodes[l]);
    }
  }

  /** The write/read round trip: reading `m` bytes delivers the first min(m, size) bytes written. */
  lemma WriteThenRead(s: Fs, ino: nat, data: seq<char>, other: nat, m: nat)
    requires Inv(s) && 1 <= ino <= MAX_INODES && WriteFile(s, ino, data).1
    ensures Shaped(WriteFile(s, ino, data).0)
    ensures ReadFile(WriteFile(s, ino, data).0, ino, m) == data[..Min(m, |data|)]
    ensures other != ino ==> ReadFile(WriteFile(s, ino, data).0, other, m) == ReadFile(s, other, m)
  {
    WriteThenContent(s, ino, data);
  }

  // ---------- when a write fails ----------

  /** More than twelve blocks of 1024 bytes are refused without a change, and so is a number outside the table. */
  lemma WriteTooLong(s: Fs, ino: nat, data: seq<char>)
    requires Shaped(s)
    ensures ino == 0 || ino > 128 || |data| > 12288 ==> WriteFile(s, ino, data) == (s, false)
    ensures 1 <= ino <= 128 && |data| <= 12288 && |FreeAfterRelease(s, ino)| >= 12 ==> WriteFile(s, ino, data).1
  {
  }

  /** After the release the counter still tells the number of unused blocks. */
  lemma ReleasedCount(s: Fs, ino: nat)
    requires Inv(s) && 1 <= ino <= MAX_INODES
    ensures s.freeBlocks + CountNonZero(Owned(s.inodes[ino - 1])) == |FreeAfterRelease(s, ino)|
  {
    OwnedInUse(s.inodes, s.used, ino - 1);
    ReleaseCounts(s.used, Owned(s.inodes[ino - 1]));
  }

  /** All blocks of an inode but block 0 are given back. */
  lemma {:induction false} NonZeroBlocks(list: seq<nat>)
    requires Increasing(list)
    ensures CountNonZero(list) == if 0 in list then |list| - 1 else |list|
    decreases |list|
  {
    if list != [] {
      var front := list[..|list| - 1];
      NonZeroBlocks(front);
      assert list == front + [list[|list| - 1]];
    }
  }

  /**
   A write of at most 12 blocks fails exactly when it needs more blocks than are free
   together with the inode's own blocks other than block 0.
   */
  lemma WriteFailsIff(s: Fs, ino: nat, data: seq<char>)
    requires Inv(s) && 1 <= ino <= MAX_INODES && BlocksFor(|data|) <= INODE_DIRECT_BLOCKS
    ensures var own := Owned(s.inodes[ino - 1]);
            !WriteFile(s, ino, data).1 <==>
            BlocksFor(|data|) > s.freeBlocks + |own| - (if 0 in own then 1 else 0)
  {
    OwnedInUse(s.inodes, s.used, ino - 1);
    ReleaseCounts(s.used, Owned(s.inodes[ino - 1]));
    NonZeroBlocks(Owned(s.inodes[ino - 1]));
  }

  /** What a failed write still keeps: the counter, the sizes, and every other file. */
  lemma FailedWriteKeeps(s: Fs, ino: nat, data: seq<char>)
    requires Inv(s) && 1 <= ino <= MAX_INODES && BlocksFor(|data|) <= INODE_DIRECT_BLOCKS
    requires !WriteFile(s, ino, data).1
    ensures var t := WriteFile(s, ino, data).0;
            var own := Owned(s.inodes[ino - 1]);
            && t.freeBlocks == |FreeList(t.used)|
            && t.freeBlocks == s.freeBlocks + |own| - (if 0 in own then 1 else 0)
            && t.files == s.files && t.cur == s.cur && t.blocks == s.blocks && t.freeInodes == s.freeInodes
            && t.inodes[ino - 1].size == s.inodes[ino - 1].size
            && (forall l :: 0 <= l < MAX_INODES && l != ino - 1 ==> t.inodes[l] == s.inodes[l])
  {
    OwnedInUse(s.inodes, s.used, ino - 1);
    ReleaseCounts(s.used, Owned(s.inodes[ino - 1]));
    NonZeroBlocks(Owned(s.inodes[ino - 1]));
  }
}
