/**
 bkFS as the kernel keeps it: global tables that the calls change in place (src/fs/bkfs.h).
 Each method's postcondition names the function of `BkfsState` that gives the new tables.
 */
module Bkfs {
  import opened Limits
  import opened FileNames
  import opened BkfsState
  import opened FreeBlocks
  import opened FileTable
  import opened BlockOwnership
  import opened BkfsInvariant
  import opened BkfsSound
  import opened BkfsContents

  class BkFs {
    const files: array<Entry>
    const inodes: array<Inode>
    const blocks: array2<char>
    const blockUsed: array<bool>
    var fileCount: int
    var currentInode: nat
    var freeBlocks: int
    var freeInodes: int

    ghost predicate Sized()
      reads this
    {
      && files.Length == MAX_FILES && inodes.Length == MAX_INODES && blockUsed.Length == MAX_BLOCKS
      && blocks.Length0 == MAX_BLOCKS && blocks.Length1 == BLOCK_SIZE
      && GHOST_ENTRIES <= fileCount <= MAX_FILES
    }

    ghost function BlockTable(): (r: seq<seq<char>>)
      requires blocks.Length0 == MAX_BLOCKS && blocks.Length1 == BLOCK_SIZE
      reads blocks
      ensures BlocksShaped(r)
      ensures forall b, j :: 0 <= b < MAX_BLOCKS && 0 <= j < BLOCK_SIZE ==> r[b][j] == blocks[b, j]
    {
      seq(MAX_BLOCKS, b requires 0 <= b < MAX_BLOCKS && blocks.Length0 == MAX_BLOCKS && blocks.Length1 == BLOCK_SIZE reads blocks =>
        seq(BLOCK_SIZE, j requires 0 <= j < BLOCK_SIZE && blocks.Length0 == MAX_BLOCKS && blocks.Length1 == BLOCK_SIZE reads blocks => blocks[b, j]))
    }

    /** The tables as one value. */
    ghost function State(): Fs
      requires Sized()
      reads this, files, inodes, blocks, blockUsed
    {
      Fs(files[..fileCount], currentInode, inodes[..], freeInodes, blockUsed[..], freeBlocks, BlockTable())
    }

    /** The tables are well formed, which is all that any call needs. */
    ghost predicate Tidy()
      reads this, files, inodes, blocks, blockUsed
    {
      Sized() && Sound(State())
    }

    /** The file-system invariant, which holds as long as no write has failed. */
    ghost predicate Valid()
      reads this, files, inodes, blocks, blockUsed
    {
      Sized() && Inv(State())
    }

    /** The statically initialised globals: five zero entries are already counted. */
    constructor ()
      ensures Sized() && currentInode == ROOT_INODE
      ensures fresh(files) && fresh(inodes) && fresh(blocks) && fresh(blockUsed)
      ensures freeBlocks == MAX_BLOCKS && freeInodes == MAX_INODES
      ensures files[..fileCount] == [GHOST, GHOST, GHOST, GHOST, GHOST]
      ensures forall b, j :: 0 <= b < MAX_BLOCKS && 0 <= j < BLOCK_SIZE ==> blocks[b, j] == '\0'
    {
      files := new Entry[MAX_FILES](_ => GHOST);
      inodes := new Inode[MAX_INODES](_ => ZERO_INODE);
      blocks := new char[MAX_BLOCKS, BLOCK_SIZE]((_, _) => '\0');
      blockUsed := new bool[MAX_BLOCKS](_ => false);
      fileCount, currentInode, freeBlocks, freeInodes := GHOST_ENTRIES, ROOT_INODE, MAX_BLOCKS, MAX_INODES;
    }

    /** The start of `kernel_main`: clear the inode table and the block flags, reset the counters. */
    method ClearTables()
      requires Sized()
      modifies `freeBlocks, `freeInodes, inodes, blockUsed
      ensures Sized()
      ensures freeBlocks == MAX_BLOCKS && freeInodes == MAX_INODES
      ensures inodes[..] == seq(MAX_INODES, _ => ZERO_INODE)
      ensures blockUsed[..] == seq(MAX_BLOCKS, _ => false)
    {
      for k := 0 to MAX_INODES
        invariant forall l :: 0 <= l < k ==> inodes[l] == ZERO_INODE
      {
        inodes[k] := ZERO_INODE;
      }
      for b := 0 to MAX_BLOCKS
        invariant forall l :: 0 <= l < MAX_INODES ==> inodes[l] == ZERO_INODE
        invariant forall c :: 0 <= c < b ==> !blockUsed[c]
      {
        blockUsed[b] := false;
      }
      freeBlocks, freeInodes := MAX_BLOCKS, MAX_INODES;
    }

    // ---------- the allocators ----------

    method FsAllocInode() returns (r: int)
      requires Sized()
      modifies `freeInodes, inodes
      ensures var k := LowestFreeInode(old(inodes[..]));
              if old(freeInodes) == 0 || k == MAX_INODES
              then r == -1 && inodes[..] == old(inodes[..]) && freeInodes == old(freeInodes)
              else r == k + 1 && inodes[..] == old(inodes[..])[k := Inode(1, 0, 0, ZERO_LIST)]
                   && freeInodes == old(freeInodes) - 1
    {
      if freeInodes == 0 { return -1; }
      for i := 0 to MAX_INODES
        invariant inodes[..] == old(inodes[..]) && freeInodes == old(freeInodes)
        invariant LowestFreeInode(old(inodes[..])) == FreeInodeFrom(old(inodes[..]), i)
      {
        if inodes[i].mode == 0 {
          inodes[i] := ZERO_INODE;
          inodes[i] := inodes[i].(mode := 1);
          freeInodes := freeInodes - 1;
          return i + 1;
        }
      }
      return -1;
    }

    method FsFreeInode(inodeNum: nat)
      requires Sized()
      modifies `freeInodes, inodes
      ensures if inodeNum == 0 || inodeNum > MAX_INODES
              then inodes[..] == old(inodes[..]) && freeInodes == old(freeInodes)
              else inodes[..] == old(inodes[..])[inodeNum - 1 := ZERO_INODE] && freeInodes == old(freeInodes) + 1
    {
      if inodeNum == 0 || inodeNum > MAX_INODES { return; }
      inodes[inodeNum - 1] := ZERO_INODE;
      freeInodes := freeInodes + 1;
    }

    method FsAllocBlock() returns (r: int)
      requires Sized()
      modifies `freeBlocks, blockUsed
      ensures var list := FreeList(old(blockUsed[..]));
              if old(freeBlocks) == 0 || list == []
              then r == -1 && blockUsed[..] == old(blockUsed[..]) && freeBlocks == old(freeBlocks)
              else r == list[0] && blockUsed[..] == old(blockUsed[..])[list[0] := true] && freeBlocks == old(freeBlocks) - 1
    {
      if freeBlocks == 0 { return -1; }
      for i := 0 to MAX_BLOCKS
        invariant blockUsed[..] == old(blockUsed[..]) && freeBlocks == old(freeBlocks)
        invariant FreeList(old(blockUsed[..])) == FreeFrom(old(blockUsed[..]), i)
      {
        if !blockUsed[i] {
          blockUsed[i] := true;
          freeBlocks := freeBlocks - 1;
          return i;
        }
      }
      return -1;
    }

    method FsFreeBlock(blockNum: nat)
      requires Sized()
      modifies `freeBlocks, blockUsed
      ensures if blockNum >= MAX_BLOCKS
              then blockUsed[..] == old(blockUsed[..]) && freeBlocks == old(freeBlocks)
              else blockUsed[..] == old(blockUsed[..])[blockNum := false] && freeBlocks == old(freeBlocks) + 1
    {
      if blockNum >= MAX_BLOCKS { return; }
      blockUsed[blockNum] := false;
      freeBlocks := freeBlocks + 1;
    }

    // ---------- searches ----------

    /** The kernel's loops over `files` that stop at the first entry passing a test. */
    method FindEntry(q: Query) returns (r: nat)
      requires Sized()
      ensures r == First(files[..fileCount], q)
    {
      var i := 0;
      while i < fileCount
        invariant 0 <= i <= fileCount
        invariant First(files[..fileCount], q) == FirstFrom(files[..fileCount], q, i)
      {
        if Matches(q, files[i]) { return i; }
        i := i + 1;
      }
      return i;
    }

    method IsValidFilename(name: string) returns (ok: bool)
      ensures ok <==> IsValidName(name)
    {
      if |name| == 0 { return false; }
      for c := 0 to |name|
        invariant forall i :: 0 <= i < c ==> name[i] !in FORBIDDEN && name[i] != '\0'
      {
        if name[c] == '\0' { return false; }
        for k := 0 to |FORBIDDEN|
          invariant name[c] !in FORBIDDEN[..k]
        {
          if FORBIDDEN[k] == name[c] { return false; }
          assert FORBIDDEN[..k + 1] == FORBIDDEN[..k] + [FORBIDDEN[k]];
        }
        assert FORBIDDEN[..|FORBIDDEN|] == FORBIDDEN;
      }
      return true;
    }

    method FileExistsInCurrentDir(name: string) returns (found: bool)
      requires Sized()
      ensures found <==> Found(files[..fileCount], ByName(currentInode, name))
    {
      var i := FindEntry(ByName(currentInode, name));
      return i < fileCount;
    }

    // ---------- fs_create_file ----------

    method FsCreateFile(name: string, parentInode: nat, kind: Kind) returns (ok: bool, complaint: Complaint)
      requires Tidy()
      requires IsValidName(name) ==> |name| <= MAX_NAME
      modifies this, files, inodes
      ensures Tidy() && (State(), ok) == CreateFile(old(State()), name, parentInode, kind)
      ensures complaint == ComplaintAbout(name, Found(old(State()).files, ByName(old(State()).cur, name)))
    {
      complaint := NoComplaint;
      var valid := IsValidFilename(name);
      if !valid { return false, BadName; }
      var taken := FileExistsInCurrentDir(name);
      if taken { return false, TakenName; }
      if fileCount >= MAX_FILES { return false, NoComplaint; }
      var inodeNum := FsAllocInode();
      if inodeNum == -1 {
        return false, NoComplaint;
      }
      FillEntry(Entry(name, inodeNum, parentInode, kind));
      ok := true;
      assert State().inodes == CreateFile(old(State()), name, parentInode, kind).0.inodes;
    }

    /** Fill in the new entry and its inode. */
    method FillEntry(e: Entry)
      requires Sized() && fileCount < MAX_FILES && 1 <= e.inode <= MAX_INODES
      modifies `fileCount, files, inodes
      ensures Sized() && fileCount == old(fileCount) + 1 && files[..fileCount] == old(files[..fileCount]) + [e]
      ensures inodes[..] == old(inodes[..])[e.inode - 1 := Inode(ModeOf(e.kind), 0, 0, old(inodes[e.inode - 1]).block)]
    {
      files[fileCount] := e;
      inodes[e.inode - 1] := inodes[e.inode - 1].(mode := ModeOf(e.kind), size := 0, blocks := 0);
      fileCount := fileCount + 1;
      if fileCount == 0 {
        assert false;  // the panic "no files left" cannot be reached
      }
    }

    // ---------- fs_delete_file ----------

    /** Give back the blocks of an inode other than block 0: the first loop of delete and of write. */
    method ReleaseBlocks(inodeNum: nat)
      requires Sized() && InodesListed(inodes[..]) && 1 <= inodeNum <= MAX_INODES
      modifies `freeBlocks, blockUsed
      ensures var owned := Owned(inodes[inodeNum - 1]);
              && blockUsed[..] == Release(old(blockUsed[..]), owned)
              && freeBlocks == old(freeBlocks) + CountNonZero(owned)
    {
      var inode := inodes[inodeNum - 1];
      ghost var owned := Owned(inode);
      assert InodeListed(inodes[..][inodeNum - 1]);
      var i := 0;
      while i < inode.blocks
        invariant 0 <= i <= inode.blocks
        invariant blockUsed[..] == Release(old(blockUsed[..]), owned[..i])
        invariant freeBlocks == old(freeBlocks) + CountNonZero(owned[..i])
      {
        if inode.block[i] != 0 {
          FsFreeBlock(inode.block[i]);
        }
        ReleaseSnoc(old(blockUsed[..]), owned[..i], inode.block[i]);
        assert owned[..i + 1] == owned[..i] + [inode.block[i]];
        assert owned[..i + 1][..i] == owned[..i];
        i := i + 1;
      }
      assert owned[..i] == owned;
    }

    /** Shift the entries after `d` down by one. */
    method CloseGap(d: nat)
      requires Sized() && d < fileCount && fileCount > GHOST_ENTRIES
      modifies `fileCount, files
      ensures Sized() && fileCount == old(fileCount) - 1
      ensures files[..fileCount] == RemoveAt(old(files[..fileCount]), d)
      ensures forall i :: fileCount <= i < MAX_FILES ==> files[i] == old(files[i])
    {
      var j := d;
      while j < fileCount - 1
        invariant d <= j <= fileCount - 1 && fileCount == old(fileCount)
        invariant forall i :: 0 <= i < d ==> files[i] == old(files[i])
        invariant forall i :: d <= i < j ==> files[i] == old(files[i + 1])
        invariant forall i :: j <= i < MAX_FILES ==> files[i] == old(files[i])
      {
        files[j] := files[j + 1];
        j := j + 1;
      }
      fileCount := fileCount - 1;
    }

    /** For any number; a slot past the new end of the table keeps what it held. */
    method FsDeleteFile(inodeNum: nat) returns (ok: bool)
      requires Tidy()
      modifies this, files, inodes, blockUsed
      ensures Tidy() && (State(), ok) == DeleteFile(old(State()), inodeNum)
      ensures forall i :: fileCount <= i < MAX_FILES ==> files[i] == old(files[i])
      ensures old(Valid() && Deletable(State(), inodeNum)) ==> Valid()
    {
      ghost var before := State();
      if inodeNum == 0 || inodeNum > MAX_INODES { return false; }
      DeleteSound(before, inodeNum);
      if Inv(before) && Deletable(before, inodeNum) {
        DeleteKeeps(before, inodeNum);
      }
      RemoveEverywhere(inodeNum);
      ok := true;
    }

    /** The body of `fs_delete_file` for a number in the table. */
    method RemoveEverywhere(inodeNum: nat)
      requires Sized() && Shaped(State()) && 1 <= inodeNum <= MAX_INODES
      modifies this, files, inodes, blockUsed
      ensures Sized() && State() == DeleteFile(old(State()), inodeNum).0
      ensures forall i :: fileCount <= i < MAX_FILES ==> files[i] == old(files[i])
    {
      ghost var before := State();
      RemoveKeepsGhosts(before.files, inodeNum);
      ReleaseBlocks(inodeNum);
      var i := FindEntry(ByInode(inodeNum));
      if i < fileCount {
        CloseGap(i);
      }
      if fileCount == 0 {
        assert false;  // the panic "all files deleted" cannot be reached
      }
      FsFreeInode(inodeNum);
      assert State().inodes == before.inodes[inodeNum - 1 := ZERO_INODE];
    }

    // ---------- fs_write_file ----------

    /** Take the lowest unused blocks for an inode, or take them all and give them back. */
    method TakeBlocks(inodeNum: nat, needed: nat) returns (ok: bool)
      requires Sized() && 1 <= inodeNum <= MAX_INODES && needed <= INODE_DIRECT_BLOCKS
      requires |inodes[inodeNum - 1].block| == INODE_DIRECT_BLOCKS
      requires freeBlocks >= |FreeList(blockUsed[..])|
      modifies `freeBlocks, blockUsed, inodes
      ensures ok <==> needed <= |FreeList(old(blockUsed[..]))|
      ensures var avail := FreeList(old(blockUsed[..]));
              var n := old(inodes[inodeNum - 1]);
              if ok
              then && blockUsed[..] == Mark(old(blockUsed[..]), avail[..needed])
                   && freeBlocks == old(freeBlocks) - needed
                   && inodes[..] == old(inodes[..])[inodeNum - 1 := WithList(n, avail[..needed])]
              else && blockUsed[..] == old(blockUsed[..]) && freeBlocks == old(freeBlocks)
                   && inodes[..] == old(inodes[..])[inodeNum - 1 := WithList(n, avail)]
    {
      ghost var used, avail, n := blockUsed[..], FreeList(blockUsed[..]), inodes[inodeNum - 1];
      assert Mark(used, avail[..0]) == used;
      assert WithList(n, avail[..0]) == n;
      var i := 0;
      while i < needed
        invariant 0 <= i <= needed && i <= |avail|
        invariant blockUsed[..] == Mark(used, avail[..i])
        invariant freeBlocks == old(freeBlocks) - i
        invariant inodes[..] == old(inodes[..])[inodeNum - 1 := WithList(n, avail[..i])]
      {
        var blockNum := TakeNext(used, avail, i);
        if blockNum == -1 {
          assert avail[..i] == avail;
          GiveBack(inodeNum, i, used, avail);
          return false;
        }
        RecordBlock(inodeNum, i, blockNum, n, avail);
        i := i + 1;
      }
      return true;
    }

    /** `fs_alloc_block` after the first `i` unused blocks have been taken. */
    method TakeNext(ghost used: seq<bool>, ghost avail: seq<nat>, ghost i: nat) returns (blockNum: int)
      requires Sized() && avail == FreeList(used) && i <= |avail|
      requires blockUsed[..] == Mark(used, avail[..i]) && freeBlocks >= |avail| - i
      modifies `freeBlocks, blockUsed
      ensures blockNum == -1 <==> i == |avail|
      ensures blockNum == -1 ==> blockUsed[..] == old(blockUsed[..]) && freeBlocks == old(freeBlocks)
      ensures blockNum != -1 ==>
                blockNum == avail[i] && blockUsed[..] == Mark(used, avail[..i + 1]) && freeBlocks == old(freeBlocks) - 1
    {
      TakePrefix(used, i);
      blockNum := FsAllocBlock();
      if blockNum != -1 {
        assert avail[..i + 1] == avail[..i] + [blockNum];
        assert blockUsed[..] == Mark(used, avail[..i + 1]);
      }
    }

    method RecordBlock(inodeNum: nat, i: nat, blockNum: nat, ghost n: Inode, ghost avail: seq<nat>)
      requires Sized() && 1 <= inodeNum <= MAX_INODES && i < |avail| && i < |n.block| && blockNum == avail[i]
      requires inodes[inodeNum - 1] == WithList(n, avail[..i])
      modifies inodes
      ensures inodes[..] == old(inodes[..])[inodeNum - 1 := WithList(n, avail[..i + 1])]
    {
      ExtendList(n, avail, i);
      var inode := inodes[inodeNum - 1];
      inodes[inodeNum - 1] := inode.(block := inode.block[i := blockNum]);
    }

    lemma ExtendList(n: Inode, avail: seq<nat>, i: nat)
      requires i < |avail| && i < |n.block|
      ensures var m := WithList(n, avail[..i]);
              m.(block := m.block[i := avail[i]]) == WithList(n, avail[..i + 1])
    {
      assert avail[..i + 1] == avail[..i] + [avail[i]];
    }

    /** Free the blocks that a failed write had taken. */
    method GiveBack(inodeNum: nat, count: nat, ghost used: seq<bool>, ghost taken: seq<nat>)
      requires Sized() && 1 <= inodeNum <= MAX_INODES
      requires count == |taken| <= |inodes[inodeNum - 1].block| && inodes[inodeNum - 1].block[..count] == taken
      requires |used| == MAX_BLOCKS && taken == FreeList(used)
      requires blockUsed[..] == Mark(used, taken)
      modifies `freeBlocks, blockUsed
      ensures blockUsed[..] == used && freeBlocks == old(freeBlocks) + count
    {
      FreeFromFacts(used, 0);
      var j := 0;
      while j < count
        invariant 0 <= j <= count
        invariant blockUsed[..] == Mark(used, taken[j..])
        invariant freeBlocks == old(freeBlocks) + j
      {
        assert inodes[inodeNum - 1].block[j] == taken[j];
        FsFreeBlock(inodes[inodeNum - 1].block[j]);
        UnmarkFirst(used, taken, j);
        j := j + 1;
      }
      assert Mark(used, taken[j..]) == used;
    }

    lemma UnmarkFirst(used: seq<bool>, taken: seq<nat>, j: nat)
      requires Increasing(taken) && j < |taken|
      requires forall q :: 0 <= q < |taken| ==> taken[q] < |used| && !used[taken[q]]
      ensures Mark(used, taken[j..])[taken[j] := false] == Mark(used, taken[j + 1..])
    {
      assert taken[j..] == [taken[j]] + taken[j + 1..];
    }

    /** `memcpy` into the front of a block. */
    method CopyToBlock(b: nat, data: seq<char>, from: nat, n: nat)
      requires Sized() && b < MAX_BLOCKS && n <= BLOCK_SIZE && from + n <= |data|
      modifies blocks
      ensures BlockTable() == old(BlockTable())[b := Overlay(old(BlockTable())[b], data[from..from + n])]
    {
      for i := 0 to n
        invariant forall j :: 0 <= j < i ==> blocks[b, j] == data[from + j]
        invariant forall c, j :: 0 <= c < MAX_BLOCKS && 0 <= j < BLOCK_SIZE && (c != b || i <= j) ==> blocks[c, j] == old(blocks[c, j])
      {
        blocks[b, i] := data[from + i];
      }
      ghost var was := old(BlockTable());
      forall c | 0 <= c < MAX_BLOCKS
        ensures BlockTable()[c] == if c == b then Overlay(was[b], data[from..from + n]) else was[c]
      {
        assert forall j :: 0 <= j < BLOCK_SIZE ==> BlockTable()[c][j] == blocks[c, j] && was[c][j] == old(blocks[c, j]);
      }
    }

    /** Copy the data chunk by chunk into the listed blocks. */
    method StoreChunks(list: seq<nat>, data: seq<char>)
      requires Sized() && |list| == BlocksFor(|data|)
      requires BlockNumbers(list)
      modifies blocks
      ensures BlockTable() == Store(old(BlockTable()), list, data, |list|)
    {
      var remaining := |data|;
      for i := 0 to |list|
        invariant remaining == if i * BLOCK_SIZE <= |data| then |data| - i * BLOCK_SIZE else 0
        invariant BlockTable() == Store(old(BlockTable()), list, data, i)
      {
        var toCopy := if remaining > BLOCK_SIZE then BLOCK_SIZE else remaining;
        assert data[i * BLOCK_SIZE..i * BLOCK_SIZE + toCopy] == Chunk(data, i);
        CopyToBlock(list[i], data, i * BLOCK_SIZE, toCopy);
        remaining := remaining - toCopy;
      }
    }

    /** Record the new size and copy the data into the blocks that the inode now lists. */
    method StoreData(inodeNum: nat, data: seq<char>)
      requires Sized() && 1 <= inodeNum <= MAX_INODES && BlocksFor(|data|) <= |inodes[inodeNum - 1].block|
      requires BlockNumbers(inodes[inodeNum - 1].block[..BlocksFor(|data|)])
      modifies inodes, blocks
      ensures var n := old(inodes[inodeNum - 1]);
              && inodes[..] == old(inodes[..])[inodeNum - 1 := Inode(n.mode, |data|, BlocksFor(|data|), n.block)]
              && BlockTable() == Store(old(BlockTable()), n.block[..BlocksFor(|data|)], data, BlocksFor(|data|))
    {
      inodes[inodeNum - 1] := inodes[inodeNum - 1].(blocks := BlocksFor(|data|), size := |data|);
      StoreChunks(inodes[inodeNum - 1].block[..BlocksFor(|data|)], data);
    }

    /** The body of `fs_write_file` once the size is known to fit the block list. */
    method WriteBlocks(inodeNum: nat, data: seq<char>) returns (ok: bool)
      requires Sized() && Shaped(State()) && 1 <= inodeNum <= MAX_INODES && BlocksFor(|data|) <= INODE_DIRECT_BLOCKS
      requires State().freeBlocks + CountNonZero(Owned(State().inodes[inodeNum - 1])) >= |FreeAfterRelease(State(), inodeNum)|
      modifies this, inodes, blocks, blockUsed
      ensures Sized() && (ok <==> BlocksFor(|data|) <= |FreeAfterRelease(old(State()), inodeNum)|)
      ensures ok ==> State() == WriteDone(old(State()), inodeNum, data, FreeAfterRelease(old(State()), inodeNum)[..BlocksFor(|data|)])
      ensures !ok ==> State() == WriteFailed(old(State()), inodeNum, FreeAfterRelease(old(State()), inodeNum))
    {
      ghost var before := State();
      ghost var n, avail := before.inodes[inodeNum - 1], FreeAfterRelease(before, inodeNum);
      var blocksNeeded := BlocksFor(|data|);
      ReleaseBlocks(inodeNum);
      ok := TakeBlocks(inodeNum, blocksNeeded);
      if ok {
        ghost var list := avail[..blocksNeeded];
        assert WithList(n, list).block[..blocksNeeded] == list;
        StoreData(inodeNum, data);
        assert State().inodes == WriteDone(before, inodeNum, data, list).inodes;
      } else {
        assert State().inodes == WriteFailed(before, inodeNum, avail).inodes;
      }
    }

    method FsWriteFile(inodeNum: nat, data: seq<char>) returns (ok: bool)
      requires Tidy()
      requires |data| + BLOCK_SIZE - 1 < 0x1_0000_0000
      modifies this, inodes, blocks, blockUsed
      ensures Tidy() && (State(), ok) == WriteFile(old(State()), inodeNum, data)
    {
      WriteSound(State(), inodeNum, data);
      if inodeNum == 0 || inodeNum > MAX_INODES { return false; }
      if BlocksFor(|data|) > INODE_DIRECT_BLOCKS { return false; }
      ReleaseSound(State(), inodeNum);
      ok := WriteBlocks(inodeNum, data);
    }

    // ---------- fs_read_file ----------

    /** `memcpy` out of the front of a block. */
    method CopyFromBlock(b: nat, buffer: array<char>, to: nat, n: nat)
      requires Sized() && b < MAX_BLOCKS && n <= BLOCK_SIZE && to + n <= buffer.Length
      modifies buffer
      ensures BlockTable() == old(BlockTable())
      ensures buffer[..] == old(buffer[..])[..to] + BlockTable()[b][..n] + old(buffer[..])[to + n..]
    {
      for i := 0 to n
        invariant forall j :: 0 <= j < i ==> buffer[to + j] == blocks[b, j]
        invariant forall j :: 0 <= j < buffer.Length && !(to <= j < to + i) ==> buffer[j] == old(buffer[j])
      {
        buffer[to + i] := blocks[b, i];
      }
      assert buffer[to..to + n] == BlockTable()[b][..n];
      assert buffer[..] == buffer[..to] + buffer[to..to + n] + buffer[to + n..];
      assert buffer[..to] == old(buffer[..to]) && buffer[to + n..] == old(buffer[to + n..]);
    }

    /** Returns the number of bytes delivered; for a number outside the table it returns `FS_ERROR`, which is 1. */
    method FsReadFile(inodeNum: nat, buffer: array<char>, size: nat) returns (r: nat)
      requires Tidy() && |ReadFile(State(), inodeNum, size)| <= buffer.Length
      modifies buffer
      ensures State() == old(State())
      ensures var data := ReadFile(old(State()), inodeNum, size);
              && r == (if 1 <= inodeNum <= MAX_INODES then |data| else 1)
              && buffer[..] == data + old(buffer[|data|..])
    {
      if inodeNum == 0 || inodeNum > MAX_INODES {
        assert buffer[..] == [] + buffer[0..];
        return 1;
      }
      var inode := inodes[inodeNum - 1];
      assert InodeListed(inodes[..][inodeNum - 1]);
      r := size;
      if r > inode.size { r := inode.size; }
      ghost var content := Content(inode, BlockTable());
      CopyOut(inode, buffer, r);
    }

    /** The copying loop: whole blocks until fewer than a block's bytes remain. */
    method CopyOut(inode: Inode, buffer: array<char>, size: nat)
      requires Sized() && InodeListed(inode) && size <= inode.size && size <= buffer.Length
      modifies buffer
      ensures BlockTable() == old(BlockTable())
      ensures buffer[..] == Content(inode, BlockTable())[..size] + old(buffer[size..])
    {
      ghost var table := BlockTable();
      ghost var content, was, done := Content(inode, table), buffer[..], 0;
      var remaining, i := size, 0;
      assert buffer[..] == content[..0] + was[0..];
      while i < inode.blocks && remaining > 0
        invariant 0 <= i <= inode.blocks && 0 <= remaining && done == size - remaining
        invariant done == if i * BLOCK_SIZE <= size then i * BLOCK_SIZE else size
        invariant BlockTable() == table
        invariant buffer[..] == content[..done] + was[done..]
      {
        var toCopy := if remaining > BLOCK_SIZE then BLOCK_SIZE else remaining;
        ContentChunk(inode, table, i, toCopy);
        ghost var now := buffer[..];
        CopyFromBlock(inode.block[i], buffer, i * BLOCK_SIZE, toCopy);
        CopyStep(content, was, now, buffer[..], done, toCopy, table[inode.block[i]][..toCopy]);
        done := done + toCopy;
        remaining := remaining - toCopy;
        i := i + 1;
      }
    }

    lemma CopyStep(content: seq<char>, was: seq<char>, now: seq<char>, after: seq<char>, done: nat, more: nat, chunk: seq<char>)
      requires done + more <= |content| && done + more <= |was|
      requires chunk == content[done..done + more]
      requires now == content[..done] + was[done..]
      requires after == now[..done] + chunk + now[done + more..]
      ensures after == content[..done + more] + was[done + more..]
    {
      assert now[..done] == content[..done] && now[done + more..] == was[done + more..];
    }
  }
}
