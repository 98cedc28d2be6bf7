/**
 The bkFS tables as one value, and each file-system call as a function on that value.
 `Bkfs.dfy` has the same calls as methods over arrays; their postconditions name these functions.
 */
module BkfsState {
  import opened Limits
  import opened FileNames

  datatype Kind = Regular | Directory

  // `File` of src/lib/prdio.h; its `size` field is written once with zero and never read.
  datatype Entry = Entry(name: string, inode: nat, parent: nat, kind: Kind)

  // `Inode` without owner ids and time stamps.
  datatype Inode = Inode(mode: nat, size: nat, blocks: nat, block: seq<nat>)

  datatype Fs = Fs(
    files: seq<Entry>,
    cur: nat,
    inodes: seq<Inode>,
    freeInodes: int,
    used: seq<bool>,
    freeBlocks: int,
    blocks: seq<seq<char>>)

  const GHOST := Entry("", 0, 0, Regular)
  const ZERO_LIST: seq<nat> := [0, 0, 0, 0, 0, 0, 0, 0, 0, 0, 0, 0]
  const ZERO_INODE := Inode(0, 0, 0, ZERO_LIST)

  function ModeOf(kind: Kind): nat {
    if kind == Directory then 0x4000 else 0x8000
  }

  function BlocksFor(size: nat): nat {
    (size + BLOCK_SIZE - 1) / BLOCK_SIZE
  }

  function Min(a: int, b: int): int { if a < b then a else b }

  // ---------- shape: what makes the calls below well defined ----------

  predicate InodeListed(n: Inode) {
    && |n.block| == INODE_DIRECT_BLOCKS
    && n.blocks <= INODE_DIRECT_BLOCKS
    && n.blocks == BlocksFor(n.size)
    && (forall i :: 0 <= i < n.blocks ==> n.block[i] < MAX_BLOCKS)
  }

  predicate InodesListed(inodes: seq<Inode>) {
    |inodes| == MAX_INODES && forall k :: 0 <= k < MAX_INODES ==> InodeListed(inodes[k])
  }

  /** As long as no write has failed, block lists are increasing as well. */
  predicate InodeShaped(n: Inode) {
    && InodeListed(n)
    && (forall i, j :: 0 <= i < j < n.blocks ==> n.block[i] < n.block[j])
  }

  predicate BlocksShaped(blocks: seq<seq<char>>) {
    |blocks| == MAX_BLOCKS && forall b :: 0 <= b < MAX_BLOCKS ==> |blocks[b]| == BLOCK_SIZE
  }

  predicate InodesShaped(inodes: seq<Inode>) {
    |inodes| == MAX_INODES && forall k :: 0 <= k < MAX_INODES ==> InodeShaped(inodes[k])
  }

  predicate GhostsLead(files: seq<Entry>) {
    |files| >= GHOST_ENTRIES && forall i :: 0 <= i < GHOST_ENTRIES ==> files[i] == GHOST
  }

  /** What every call keeps, whatever its arguments and whatever has failed before. */
  predicate Shaped(s: Fs) {
    && GhostsLead(s.files) && |s.files| <= MAX_FILES
    && InodesListed(s.inodes)
    && |s.used| == MAX_BLOCKS
    && BlocksShaped(s.blocks)
  }

  // ---------- searches over the file table ----------

  /** The tests that the kernel's linear searches apply to an entry. */
  datatype Query =
    | ByInode(inode: nat)
    | ByName(dir: nat, name: string)
    | ByKind(dir: nat, name: string, kind: Kind)
    | Named(name: string)

  predicate Matches(q: Query, e: Entry) {
    match q
    case ByInode(inode) => e.inode == inode
    case ByName(dir, name) => e.parent == dir && e.name == name
    case ByKind(dir, name, kind) => e.parent == dir && e.name == name && e.kind == kind
    case Named(name) => e.name == name
  }

  function FirstFrom(files: seq<Entry>, q: Query, i: nat): (r: nat)
    requires i <= |files|
    ensures i <= r <= |files|
    ensures r < |files| ==> Matches(q, files[r])
    ensures forall j :: i <= j < r ==> !Matches(q, files[j])
    decreases |files| - i
  {
    if i == |files| || Matches(q, files[i]) then i else FirstFrom(files, q, i + 1)
  }

  /** The index of the first entry that matches, or the number of entries. */
  function First(files: seq<Entry>, q: Query): (r: nat)
    ensures r <= |files|
    ensures r < |files| ==> Matches(q, files[r])
    ensures forall j :: 0 <= j < r ==> !Matches(q, files[j])
  {
    FirstFrom(files, q, 0)
  }

  predicate Found(files: seq<Entry>, q: Query) { First(files, q) < |files| }

  // ---------- the two allocators ----------

  function FreeInodeFrom(inodes: seq<Inode>, k: nat): (r: nat)
    requires k <= |inodes|
    ensures k <= r <= |inodes|
    ensures r < |inodes| ==> inodes[r].mode == 0
    ensures forall l :: k <= l < r ==> inodes[l].mode != 0
    decreases |inodes| - k
  {
    if k == |inodes| || inodes[k].mode == 0 then k else FreeInodeFrom(inodes, k + 1)
  }

  /** Lowest inode slot of mode zero, or `MAX_INODES`. */
  function LowestFreeInode(inodes: seq<Inode>): nat {
    FreeInodeFrom(inodes, 0)
  }

  /** The unused block numbers from `i` on, in increasing order. */
  function FreeFrom(used: seq<bool>, i: nat): (r: seq<nat>)
    requires i <= |used|
    ensures forall q :: 0 <= q < |r| ==> i <= r[q] < |used| && !used[r[q]]
    decreases |used| - i
  {
    if i == |used| then [] else if used[i] then FreeFrom(used, i + 1) else [i] + FreeFrom(used, i + 1)
  }

  function FreeList(used: seq<bool>): seq<nat> { FreeFrom(used, 0) }

  /** Set the flags of the listed blocks. */
  function Mark(used: seq<bool>, list: seq<nat>): (r: seq<bool>)
    ensures |r| == |used|
    ensures forall b :: 0 <= b < |used| ==> r[b] == (used[b] || b in list)
  {
    seq(|used|, b requires 0 <= b < |used| => used[b] || b in list)
  }

  /** Clear the flags of the listed blocks, except block 0: callers never free it. */
  function Release(used: seq<bool>, list: seq<nat>): (r: seq<bool>)
    ensures |r| == |used|
    ensures forall b :: 0 <= b < |used| ==> r[b] == (used[b] && !(b != 0 && b in list))
  {
    seq(|used|, b requires 0 <= b < |used| => used[b] && !(b != 0 && b in list))
  }

  function CountNonZero(list: seq<nat>): nat {
    if list == [] then 0
    else CountNonZero(list[..|list| - 1]) + if list[|list| - 1] != 0 then 1 else 0
  }

  // ---------- the readable contents of an inode ----------

  function Owned(n: Inode): seq<nat>
    requires n.blocks <= |n.block|
  {
    n.block[..n.blocks]
  }

  /** Byte `i` of a file lives in its block number `i / 1024`, at offset `i % 1024`. */
  function Content(n: Inode, blocks: seq<seq<char>>): (r: seq<char>)
    requires InodeListed(n) && BlocksShaped(blocks)
    ensures |r| == n.size
  {
    seq(n.size, i requires 0 <= i < n.size => blocks[n.block[i / BLOCK_SIZE]][i % BLOCK_SIZE])
  }

  // ---------- fs_create_file ----------

  function CreateFile(s: Fs, name: string, parent: nat, kind: Kind): (r: (Fs, bool))
    requires Shaped(s)
  {
    var k := LowestFreeInode(s.inodes);
    if !IsValidName(name) || Found(s.files, ByName(s.cur, name)) || |s.files| >= MAX_FILES
       || s.freeInodes == 0 || k >= MAX_INODES
    then (s, false)
    else (Fs(s.files + [Entry(name, k + 1, parent, kind)], s.cur,
             s.inodes[k := Inode(ModeOf(kind), 0, 0, ZERO_LIST)], s.freeInodes - 1,
             s.used, s.freeBlocks, s.blocks), true)
  }

  // ---------- fs_delete_file ----------

  function RemoveAt(files: seq<Entry>, d: nat): (r: seq<Entry>)
    ensures |r| == if d < |files| then |files| - 1 else |files|
  {
    if d < |files| then files[..d] + files[d + 1..] else files
  }

  function DeleteFile(s: Fs, ino: nat): (r: (Fs, bool))
    requires Shaped(s)
  {
    if ino == 0 || ino > MAX_INODES then (s, false)
    else
      var owned := Owned(s.inodes[ino - 1]);
      (Fs(RemoveAt(s.files, First(s.files, ByInode(ino))), s.cur,
          s.inodes[ino - 1 := ZERO_INODE], s.freeInodes + 1,
          Release(s.used, owned), s.freeBlocks + CountNonZero(owned), s.blocks), true)
  }

  // ---------- fs_write_file ----------

  /** Bytes `1024*q` up to `1024*(q+1)` of the data, fewer at its end. */
  function Chunk(data: seq<char>, q: nat): (r: seq<char>)
    requires q * BLOCK_SIZE <= |data|
    ensures |r| <= BLOCK_SIZE
  {
    data[q * BLOCK_SIZE..Min(|data|, (q + 1) * BLOCK_SIZE)]
  }

  /** `memcpy` of a chunk over the front of a block. */
  function Overlay(previous: seq<char>, chunk: seq<char>): (r: seq<char>)
    requires |chunk| <= |previous|
    ensures |r| == |previous|
  {
    chunk + previous[|chunk|..]
  }

  predicate BlockNumbers(list: seq<nat>) {
    forall i :: 0 <= i < |list| ==> list[i] < MAX_BLOCKS
  }

  function Store(blocks: seq<seq<char>>, list: seq<nat>, data: seq<char>, n: nat): (r: seq<seq<char>>)
    requires BlocksShaped(blocks)
    requires n <= |list| && n <= BlocksFor(|data|)
    requires BlockNumbers(list)
    ensures BlocksShaped(r)
  {
    if n == 0 then blocks
    else
      var done := Store(blocks, list, data, n - 1);
      done[list[n - 1] := Overlay(done[list[n - 1]], Chunk(data, n - 1))]
  }

  /** The free blocks once the inode's old blocks have been given back. */
  function FreeAfterRelease(s: Fs, ino: nat): seq<nat>
    requires Shaped(s) && 1 <= ino <= MAX_INODES
  {
    FreeList(Release(s.used, Owned(s.inodes[ino - 1])))
  }

  /** The inode with the front of its block list overwritten. */
  function WithList(n: Inode, taken: seq<nat>): Inode
    requires |taken| <= |n.block|
  {
    Inode(n.mode, n.size, n.blocks, taken + n.block[|taken|..])
  }

  /**
   A write that finds too few blocks has already released the old ones and
   overwritten the front of the block list with the numbers it got and gave back.
   */
  function WriteFailed(s: Fs, ino: nat, avail: seq<nat>): Fs
    requires Shaped(s) && 1 <= ino <= MAX_INODES && |avail| <= INODE_DIRECT_BLOCKS
  {
    var n := s.inodes[ino - 1];
    Fs(s.files, s.cur,
       s.inodes[ino - 1 := WithList(n, avail)], s.freeInodes,
       Release(s.used, Owned(n)), s.freeBlocks + CountNonZero(Owned(n)), s.blocks)
  }

  function WriteDone(s: Fs, ino: nat, data: seq<char>, list: seq<nat>): Fs
    requires Shaped(s) && 1 <= ino <= MAX_INODES
    requires |list| == BlocksFor(|data|) <= INODE_DIRECT_BLOCKS
    requires BlockNumbers(list)
  {
    var n := s.inodes[ino - 1];
    Fs(s.files, s.cur,
       s.inodes[ino - 1 := Inode(n.mode, |data|, |list|, WithList(n, list).block)], s.freeInodes,
       Mark(Release(s.used, Owned(n)), list), s.freeBlocks + CountNonZero(Owned(n)) - |list|,
       Store(s.blocks, list, data, |list|))
  }

  function WriteFile(s: Fs, ino: nat, data: seq<char>): (r: (Fs, bool))
    requires Shaped(s)
  {
    if ino == 0 || ino > MAX_INODES || BlocksFor(|data|) > INODE_DIRECT_BLOCKS then (s, false)
    else if |FreeAfterRelease(s, ino)| < BlocksFor(|data|) then (WriteFailed(s, ino, FreeAfterRelease(s, ino)), false)
    else (WriteDone(s, ino, data, FreeAfterRelease(s, ino)[..BlocksFor(|data|)]), true)
  }

  // ---------- fs_read_file ----------

  /** The bytes delivered; a number outside the table yields `FS_ERROR`, which is 1, and no bytes. */
  function ReadFile(s: Fs, ino: nat, size: nat): (r: seq<char>)
    requires Shaped(s)
  {
    if ino == 0 || ino > MAX_INODES then []
    else
      var content := Content(s.inodes[ino - 1], s.blocks);
      content[..Min(size, |content|)]
  }
}
