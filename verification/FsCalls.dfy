/** Runs of file-system calls made directly, with writes of any size that the block list can hold. */
module FsCalls {
  import opened Limits
  import opened FileNames
  import opened BkfsState
  import opened FreeBlocks
  import opened FileTable
  import opened BlockOwnership
  import opened BkfsInvariant
  import opened BkfsSound
  import opened BkfsCapacity

  datatype Call =
    | Create(name: string, parent: nat, kind: Kind)
    | Delete(ino: nat)
    | Write(ino: nat, data: seq<char>)
    | Enter(dir: nat)

  /** `fs_change_dir`. */
  function EnterDir(s: Fs, dir: nat): (Fs, bool) {
    if exists i :: 0 <= i < |s.files| && s.files[i].inode == dir && s.files[i].kind == Directory
    then (Fs(s.files, dir, s.inodes, s.freeInodes, s.used, s.freeBlocks, s.blocks), true)
    else (s, false)
  }

  /** One call; the tables stay sound whatever its arguments and whatever has failed before. */
  function Perform(s: Fs, c: Call): (r: (Fs, bool))
    requires Sound(s)
    ensures Sound(r.0)
  {
    match c
    case Create(name, parent, kind) => CreateSound(s, name, parent, kind); CreateFile(s, name, parent, kind)
    case Delete(ino) => DeleteSound(s, ino); DeleteFile(s, ino)
    case Write(ino, data) => WriteSound(s, ino, data); WriteFile(s, ino, data)
    case Enter(dir) => EnterDir(s, dir)
  }

  function PerformAll(s: Fs, cs: seq<Call>): (r: Fs)
    requires Sound(s)
    ensures Sound(r)
    decreases |cs|
  {
    if cs == [] then s else Perform(PerformAll(s, cs[..|cs| - 1]), cs[|cs| - 1]).0
  }

  /**
   What keeps the file system in order: new entries go below directories under names new there, only
   childless entries other than the root and the current directory are deleted, only files that exist are
   written, and no write runs out of blocks.
   */
  ghost predicate CallFits(s: Fs, c: Call)
    requires Sound(s)
  {
    match c
    case Create(name, parent, kind) =>
      Perform(s, c).1 ==> |name| <= MAX_NAME && IsDirectory(s.files, parent) && !Found(s.files, ByName(parent, name))
    case Delete(ino) => 1 <= ino <= MAX_INODES ==> Deletable(s, ino)
    case Write(ino, data) =>
      1 <= ino <= MAX_INODES && BlocksFor(|data|) <= INODE_DIRECT_BLOCKS ==> Found(s.files, ByInode(ino)) && Perform(s, c).1
    case Enter(_) => true
  }

  ghost predicate CallsFit(s: Fs, cs: seq<Call>)
    requires Sound(s)
    decreases |cs|
  {
    cs != [] ==> CallsFit(s, cs[..|cs| - 1]) && CallFits(PerformAll(s, cs[..|cs| - 1]), cs[|cs| - 1])
  }

  lemma EnterKeeps(s: Fs, dir: nat)
    requires Inv(s)
    ensures Inv(EnterDir(s, dir).0)
  {
    if EnterDir(s, dir).1 {
      var i :| 0 <= i < |s.files| && s.files[i].inode == dir && s.files[i].kind == Directory;
      assert i >= ROOT_INDEX;
      FirstOfInode(s.files, i);
    }
  }

  lemma CallKeeps(s: Fs, c: Call)
    requires Inv(s) && Sound(s) && CallFits(s, c)
    ensures Inv(Perform(s, c).0)
  {
    match c
    case Create(name, parent, kind) => if CreateFile(s, name, parent, kind).1 { CreateKeeps(s, name, parent, kind); }
    case Delete(ino) => if 1 <= ino <= MAX_INODES { DeleteKeeps(s, ino); }
    case Write(ino, data) => if WriteFile(s, ino, data).1 { WriteKeeps(s, ino, data); }
    case Enter(dir) => EnterKeeps(s, dir);
  }

  /**
   Every run of such calls keeps the invariant, and with it one owner per block, the sums of blocks and of
   entries and inodes, and increasing block lists.
   */
  lemma {:induction false} CallsKeep(s: Fs, cs: seq<Call>)
    requires Inv(s) && Sound(s) && CallsFit(s, cs)
    ensures var t := PerformAll(s, cs);
            && Inv(t) && OneOwner(t.inodes)
            && t.freeBlocks + SumBlocks(t.inodes, MAX_INODES) + (if Leaked(t) then 1 else 0) == MAX_BLOCKS
            && |t.files| + t.freeInodes == 133 && |t.files| > GHOST_ENTRIES
            && forall k :: 0 <= k < MAX_INODES ==> Increasing(Owned(t.inodes[k]))
    decreases |cs|
  {
    if cs != [] {
      CallsKeep(s, cs[..|cs| - 1]);
      CallKeeps(PerformAll(s, cs[..|cs| - 1]), cs[|cs| - 1]);
    }
    BlockConservation(PerformAll(s, cs));
    EntryConservation(PerformAll(s, cs));
    ListsIncrease(PerformAll(s, cs));
  }

  lemma ListsIncrease(t: Fs)
    requires Inv(t)
    ensures forall k :: 0 <= k < MAX_INODES ==> Increasing(Owned(t.inodes[k]))
  {
    forall k | 0 <= k < MAX_INODES
      ensures Increasing(Owned(t.inodes[k]))
    {
      assert InodeShaped(t.inodes[k]);
    }
  }

  // ---------- calls with bounded writes ----------

  /** What `CallFits` asks for but success: in its place, writes of at most 8192 bytes. */
  ghost predicate SmallCall(s: Fs, c: Call)
    requires Sound(s)
  {
    if c.Write? then |c.data| <= MAX_TEXT && (1 <= c.ino <= MAX_INODES ==> Found(s.files, ByInode(c.ino)))
    else CallFits(s, c)
  }

  ghost predicate SmallCalls(s: Fs, cs: seq<Call>)
    requires Sound(s)
    decreases |cs|
  {
    cs != [] ==> SmallCalls(s, cs[..|cs| - 1]) && SmallCall(PerformAll(s, cs[..|cs| - 1]), cs[|cs| - 1])
  }

  lemma SmallCallFits(s: Fs, c: Call)
    requires Inv(s) && Sound(s) && SmallFiles(s.inodes) && SmallCall(s, c)
    ensures CallFits(s, c) && SmallFiles(Perform(s, c).0.inodes)
  {
    match c
    case Write(ino, data) => if 1 <= ino <= MAX_INODES { BoundedWriteSucceeds(s, ino, data); }
    case _ =>
  }

  /** So no write of such a run fails, however the calls are mixed. */
  lemma {:induction false} SmallCallsFit(s: Fs, cs: seq<Call>)
    requires Inv(s) && Sound(s) && SmallFiles(s.inodes) && SmallCalls(s, cs)
    ensures CallsFit(s, cs) && SmallFiles(PerformAll(s, cs).inodes)
    decreases |cs|
  {
    if cs != [] {
      SmallCallsFit(s, cs[..|cs| - 1]);
      CallsKeep(s, cs[..|cs| - 1]);
      SmallCallFits(PerformAll(s, cs[..|cs| - 1]), cs[|cs| - 1]);
    }
  }
}
