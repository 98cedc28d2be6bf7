/** A run of direct file-system calls that fills the disk until a write fails and breaks block ownership. */
module DiskFull {
  import opened Limits
  import opened FileNames
  import opened BkfsState
  import opened FreeBlocks
  import opened FileTable
  import opened BlockOwnership
  import opened BkfsInvariant
  import opened BkfsSound
  import opened BkfsContents
  import opened FailedWrites
  import opened TreeModel
  import opened Simulation
  import opened BootState
  import opened Boot
  import opened BootTable
  import opened FsCalls

  const BIG := INODE_DIRECT_BLOCKS * BLOCK_SIZE

  function Data(size: nat): (r: seq<char>)
    ensures |r| == size
  {
    seq(size, _ => 'x')
  }

  /** A hundred names of two letters. */
  function FileName(n: nat): (r: string)
    requires n < 100
    ensures |r| == 2
  {
    [('a' as int + n / 10) as char, ('a' as int + n % 10) as char]
  }

  lemma NamesDiffer(n: nat, m: nat)
    requires n < 100 && m < 100 && n != m
    ensures FileName(n) != FileName(m) && Alphanumeric(FileName(n))
  {
    assert FileName(n)[0] == ('a' as int + n / 10) as char && FileName(n)[1] == ('a' as int + n % 10) as char;
    assert FileName(m)[0] == ('a' as int + m / 10) as char && FileName(m)[1] == ('a' as int + m % 10) as char;
  }

  /** The disk after `n` files: so many entries, so many blocks left, and the names from `n` on unused. */
  ghost predicate Filled(s: Fs, n: nat, free: int) {
    && Inv(s) && s.cur == ROOT_INODE && |s.files| == 26 + n && s.freeBlocks == free
    && forall k :: n <= k < 100 ==> !Found(s.files, ByName(ROOT_INODE, FileName(k)))
  }

  /** One more file of a given size. */
  lemma OneMoreFile(s: Fs, n: nat, free: int, size: nat) returns (ino: nat)
    requires Filled(s, n, free) && Sound(s) && n < 100 && BlocksFor(size) <= INODE_DIRECT_BLOCKS && BlocksFor(size) <= free
    ensures ino == LowestFreeInode(s.inodes) + 1 <= MAX_INODES
    ensures var cs := [Create(FileName(n), ROOT_INODE, Regular), Write(ino, Data(size))];
            var t := Perform(Perform(s, cs[0]).0, cs[1]).0;
            && CallFits(s, cs[0]) && CallFits(Perform(s, cs[0]).0, cs[1])
            && Filled(t, n + 1, free - BlocksFor(size)) && Found(t.files, ByInode(ino))
            && t.inodes[ino - 1].blocks == BlocksFor(size)
  {
    var name := FileName(n);
    NamesDiffer(n, if n == 0 then 1 else 0);
    AlphanumericIsValid(name);
    CreateSucceeds(s, name, ROOT_INODE, Regular);
    ino := LowestFreeInode(s.inodes) + 1;
    CreateKeeps(s, name, ROOT_INODE, Regular);
    var t := CreateFile(s, name, ROOT_INODE, Regular).0;
    StillFresh(s, t, n, ino);
    FillFile(t, ino, size);
  }

  /** The names after `n` stay unused. */
  lemma StillFresh(s: Fs, t: Fs, n: nat, ino: nat)
    requires n < 100 && t.files == s.files + [Entry(FileName(n), ino, ROOT_INODE, Regular)]
    requires forall k :: n <= k < 100 ==> !Found(s.files, ByName(ROOT_INODE, FileName(k)))
    ensures forall k :: n + 1 <= k < 100 ==> !Found(t.files, ByName(ROOT_INODE, FileName(k)))
    ensures Found(t.files, ByInode(ino))
  {
    var e := Entry(FileName(n), ino, ROOT_INODE, Regular);
    forall k | n + 1 <= k < 100
      ensures !Found(t.files, ByName(ROOT_INODE, FileName(k)))
    {
      NamesDiffer(n, k);
      FirstAppend(s.files, e, ByName(ROOT_INODE, FileName(k)));
    }
    FirstAppend(s.files, e, ByInode(ino));
  }

  /** Writing a file that has no blocks yet takes exactly the blocks it needs. */
  lemma FillFile(t: Fs, ino: nat, size: nat)
    requires Inv(t) && 1 <= ino <= MAX_INODES && Found(t.files, ByInode(ino)) && t.inodes[ino - 1].blocks == 0
    requires BlocksFor(size) <= INODE_DIRECT_BLOCKS && BlocksFor(size) <= t.freeBlocks
    ensures var r := WriteFile(t, ino, Data(size));
            && r.1 && Inv(r.0) && r.0.files == t.files && r.0.cur == t.cur
            && r.0.freeBlocks == t.freeBlocks - BlocksFor(size) && r.0.inodes[ino - 1].blocks == BlocksFor(size)
  {
    assert Owned(t.inodes[ino - 1]) == [];
    WriteFailsIff(t, ino, Data(size));
    WriteKeeps(t, ino, Data(size));
  }

  lemma CallsSnoc(s: Fs, cs: seq<Call>, c: Call)
    requires Sound(s) && CallsFit(s, cs) && CallFits(PerformAll(s, cs), c)
    ensures CallsFit(s, cs + [c]) && PerformAll(s, cs + [c]) == Perform(PerformAll(s, cs), c).0
  {
    assert (cs + [c])[..|cs|] == cs;
  }

  /** `n` files of twelve blocks each. */
  lemma {:induction false} FillDisk(s: Fs, n: nat) returns (cs: seq<Call>)
    requires Filled(s, 0, MAX_BLOCKS) && Sound(s) && n <= 85
    ensures CallsFit(s, cs) && Filled(PerformAll(s, cs), n, MAX_BLOCKS - INODE_DIRECT_BLOCKS * n)
    decreases n
  {
    if n == 0 {
      cs := [];
    } else {
      cs := FillDisk(s, n - 1);
      cs := WithFile(s, cs, n - 1, MAX_BLOCKS - INODE_DIRECT_BLOCKS * (n - 1), BIG);
    }
  }

  lemma WithFile(s: Fs, before: seq<Call>, n: nat, free: int, size: nat) returns (cs: seq<Call>)
    requires Sound(s) && CallsFit(s, before) && Filled(PerformAll(s, before), n, free)
    requires n < 100 && BlocksFor(size) <= INODE_DIRECT_BLOCKS && BlocksFor(size) <= free
    ensures CallsFit(s, cs) && Filled(PerformAll(s, cs), n + 1, free - BlocksFor(size))
    ensures var ino := LowestFreeInode(PerformAll(s, before).inodes) + 1;
            && 1 <= ino <= MAX_INODES && Found(PerformAll(s, cs).files, ByInode(ino))
            && PerformAll(s, cs).inodes[ino - 1].blocks == BlocksFor(size)
  {
    var t := PerformAll(s, before);
    var ino := OneMoreFile(t, n, free, size);
    var create, write := Create(FileName(n), ROOT_INODE, Regular), Write(ino, Data(size));
    CallsSnoc(s, before, create);
    CallsSnoc(s, before + [create], write);
    cs := before + [create] + [write];
  }

  /** Boot writes nothing, so all blocks are free then. */
  lemma {:induction false} CreatingTakesNoBlocks(s: Fs, names: seq<string>, parent: nat, kind: Kind)
    requires Shaped(s)
    ensures CreateAll(s, names, parent, kind).freeBlocks == s.freeBlocks
    decreases |names|
  {
    if names != [] {
      CreatingTakesNoBlocks(s, names[..|names| - 1], parent, kind);
    }
  }

  lemma BootIsFilled(b: Names, s: Fs)
    requires NamesOk(b) && s == BootFs(b) && forall i :: 0 <= i < |RootNames(b)| ==> |RootNames(b)[i]| > 2
    ensures Filled(s, 0, MAX_BLOCKS) && Sound(s)
  {
    BootEntries(b, s);
    DevInode(b, s);
    BootBlocks(b);
    InvIsSound(s);
    forall k | 0 <= k < 100
      ensures !Found(s.files, ByName(ROOT_INODE, FileName(k)))
    {
      NotInRoot(b, s.files, FileName(k));
    }
  }

  lemma BootBlocks(b: Names)
    requires NamesOk(b)
    ensures BootFs(b).freeBlocks == MAX_BLOCKS
  {
    RootTable();
    BootIsBinRow(b);
    CreatingTakesNoBlocks(RootFs(), b.dirs, ROOT_INODE, Directory);
    CreatingTakesNoBlocks(CreateAll(RootFs(), b.dirs, ROOT_INODE, Directory), ["fetch"], ROOT_INODE, Regular);
    CreatingTakesNoBlocks(RootDirectory(b), b.dev, InodeNamed(RootDirectory(b), "dev"), Regular);
    CreatingTakesNoBlocks(DevFs(b), b.bin, DevFs(b).files[6].inode, Regular);
  }

  /** After the calls, a write of at most twelve blocks to a file fails and breaks the invariant. */
  ghost predicate Breaks(s: Fs, cs: seq<Call>, ino: nat, size: nat)
    requires Sound(s)
  {
    && CallsFit(s, cs)
    && (var t := PerformAll(s, cs);
        && Inv(t) && 1 <= ino <= MAX_INODES && Found(t.files, ByInode(ino)) && BlocksFor(size) <= INODE_DIRECT_BLOCKS
        && !WriteFile(t, ino, Data(size)).1 && !Inv(WriteFile(t, ino, Data(size)).0))
  }

  lemma FillUp(s: Fs) returns (cs: seq<Call>, ino: nat)
    requires Filled(s, 0, MAX_BLOCKS) && Sound(s)
    ensures Breaks(s, cs, ino, BIG)
  {
    var most := FillDisk(s, 85);
    ino := LowestFreeInode(PerformAll(s, most).inodes) + 1;
    cs := WithFile(s, most, 85, 4, 2 * BLOCK_SIZE);
    LastWriteFails(PerformAll(s, cs), ino);
  }

  lemma LastWriteFails(t: Fs, ino: nat)
    requires Inv(t) && 1 <= ino <= MAX_INODES && Found(t.files, ByInode(ino))
    requires t.freeBlocks == 2 && t.inodes[ino - 1].blocks == 2
    ensures !WriteFile(t, ino, Data(BIG)).1 && !Inv(WriteFile(t, ino, Data(BIG)).0)
  {
    assert InodeShaped(t.inodes[ino - 1]);
    WriteFailsIff(t, ino, Data(BIG));
    FailedWriteKeepsIff(t, ino, Data(BIG));
  }

  lemma FailureIsReachable(b: Names)
    requires NamesOk(b) && forall i :: 0 <= i < |RootNames(b)| ==> |RootNames(b)[i]| > 2
    ensures Sound(BootFs(b)) && exists cs, ino :: Breaks(BootFs(b), cs, ino, BIG)
  {
    BootIsFilled(b, BootFs(b));
    var cs, ino := FillUp(BootFs(b));
  }

  /**
   The failing write is reachable by direct calls after boot: 85 files of twelve blocks and one of two leave
   two blocks; writing twelve blocks to the last file then fails, and it lists blocks that are not its own.
   */
  lemma FailureAfterBoot()
    ensures Sound(BootFs(NAMES)) && exists cs, ino :: Breaks(BootFs(NAMES), cs, ino, BIG)
  {
    BootNamesOk();
    LongNames(RootNames(NAMES));
    FailureIsReachable(NAMES);
  }

  lemma LongNames(names: seq<string>)
    requires names == ["root", "bin", "etc", "home", "dev", "tmp", "sys", "fetch"]
    ensures forall i :: 0 <= i < |names| ==> |names[i]| > 2
  {
  }
}
