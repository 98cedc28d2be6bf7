/** The boot sequence of `kernel_main`, and whole runs of the shell after it. */
module Kernel {
  import opened Limits
  import opened FileNames
  import opened BkfsState
  import opened FileTable
  import opened FreeBlocks
  import opened BkfsInvariant
  import opened BkfsSound
  import opened TreeModel
  import opened Abstraction
  import opened ShellState
  import opened Simulation
  import opened BootState
  import opened Boot
  import opened Bkfs
  import opened Shell

  /** Consecutive `fs_create_file` calls whose results are ignored. */
  method CreateRow(fs: BkFs, names: seq<string>, parent: nat, kind: Kind)
    requires fs.Tidy() && forall i :: 0 <= i < |names| ==> |names[i]| <= MAX_NAME
    modifies fs, fs.files, fs.inodes
    ensures fs.Tidy() && fs.State() == CreateAll(old(fs.State()), names, parent, kind)
  {
    assert names[..0] == [];
    for i := 0 to |names|
      invariant fs.Tidy() && fs.State() == CreateAll(old(fs.State()), names[..i], parent, kind)
    {
      var ok, complaint := fs.FsCreateFile(names[i], parent, kind);
      assert names[..i + 1][..i] == names[..i];
    }
    assert names[..|names|] == names;
  }

  method FindNamed(fs: BkFs, name: string) returns (inode: nat)
    requires fs.Sized()
    ensures inode == InodeNamed(fs.State(), name)
  {
    var i := fs.FindEntry(Named(name));
    inode := if i < fs.fileCount then fs.files[i].inode else 0;
  }

  method CreateRowBelow(fs: BkFs, dir: string, names: seq<string>)
    requires fs.Tidy() && forall i :: 0 <= i < |names| ==> |names[i]| <= MAX_NAME
    modifies fs, fs.files, fs.inodes
    ensures fs.Tidy() && fs.State() == CreateBelow(old(fs.State()), dir, names)
  {
    var inode := FindNamed(fs, dir);
    if inode != 0 {
      CreateRow(fs, names, inode, Regular);
    }
  }

  lemma InitialBlocks(table: seq<seq<char>>)
    requires BlocksShaped(table)
    requires forall b, j :: 0 <= b < MAX_BLOCKS && 0 <= j < BLOCK_SIZE ==> table[b][j] == '\0'
    ensures table == Initial().blocks
  {
    forall b | 0 <= b < MAX_BLOCKS
      ensures table[b] == Initial().blocks[b]
    {
    }
  }

  /** A machine switched on: the static globals and the clearing at the start of `kernel_main`. */
  method PowerOn() returns (fs: BkFs)
    ensures fresh(fs) && fresh(fs.files) && fresh(fs.inodes) && fresh(fs.blocks) && fresh(fs.blockUsed)
    ensures fs.Sized() && fs.State() == Initial()
  {
    fs := new BkFs();
    fs.ClearTables();
    InitialBlocks(fs.BlockTable());
  }

  lemma BootSound()
    ensures Sound(Initial()) && Sound(RootFs())
  {
    InitialShaped();
    FreePlusUsed(Initial().used);
    CreateSound(Initial(), "root", ROOT_INODE, Directory);
  }

  method CreateRoot(fs: BkFs)
    requires fs.Sized() && fs.State() == Initial()
    modifies fs, fs.files, fs.inodes
    ensures fs.Tidy() && fs.State() == RootFs()
  {
    BootSound();
    var ok, complaint := fs.FsCreateFile("root", ROOT_INODE, Directory);
    RootTable();
    fs.currentInode := ROOT_INODE;
  }

  method BootWith(b: Names) returns (fs: BkFs)
    requires NamesOk(b)
    ensures fresh(fs) && fresh(fs.files) && fresh(fs.inodes) && fresh(fs.blocks) && fresh(fs.blockUsed)
    ensures Ready(fs) && fs.State() == BootFs(b) && Abs(fs.State()) == BootTree(b)
  {
    BootReaches(b);
    fs := PowerOn();
    CreateRoot(fs);
    MakeNames(fs, b);
  }

  /** `kernel_main` up to the login screen. */
  method KernelMain() returns (fs: BkFs)
    ensures fresh(fs) && fresh(fs.files) && fresh(fs.inodes) && fresh(fs.blocks) && fresh(fs.blockUsed)
    ensures Ready(fs) && fs.State() == BootFs(NAMES) && Abs(fs.State()) == BootTree(NAMES)
  {
    BootNamesOk();
    fs := BootWith(NAMES);
  }

  method MakeNames(fs: BkFs, b: Names)
    requires fs.Tidy() && NamesOk(b) && fs.State() == RootFs()
    modifies fs, fs.files, fs.inodes, fs.blocks, fs.blockUsed
    ensures fs.Sized() && fs.State() == BootFs(b)
  {
    ShortNames(b);
    CreateRow(fs, b.dirs, ROOT_INODE, Directory);
    CreateRow(fs, ["fetch"], ROOT_INODE, Regular);
    CreateRowBelow(fs, "dev", b.dev);
    CreateRowBelow(fs, "bin", b.bin + ["fetch"]);
    BinAfter(b);
    FillFetch(fs);
  }

  /** Write the content of "fetch" below "bin", if there were one. */
  method FillFetch(fs: BkFs)
    requires Ready(fs)
    modifies fs, fs.inodes, fs.blocks, fs.blockUsed
    ensures fs.Sized() && fs.State() == WriteFetch(old(fs.State()))
  {
    var bin := FindNamed(fs, "bin");
    if bin != 0 {
      var i := fs.FindEntry(ByName(bin, "fetch"));
      if i < fs.fileCount {
        var ok := fs.FsWriteFile(fs.files[i].inode, "priveeet\n");
      }
    }
  }

  lemma ShortNames(b: Names)
    requires NamesOk(b)
    ensures forall i :: 0 <= i < |b.dirs| ==> |b.dirs[i]| <= MAX_NAME
    ensures forall i :: 0 <= i < |b.dev| ==> |b.dev[i]| <= MAX_NAME
    ensures var bin := b.bin + ["fetch"]; forall i :: 0 <= i < |bin| ==> |bin[i]| <= MAX_NAME
  {
    assert forall i :: 0 <= i < 6 ==> b.dirs[i] == RootNames(b)[i + 1];
  }

  /** The tables are valid by the time boot looks for "fetch" below "bin". */
  lemma BinAfter(b: Names)
    requires NamesOk(b)
    ensures Good(CreateBelow(DevFs(b), "bin", b.bin + ["fetch"]))
  {
    BootReaches(b);
    var s := DevFs(b);
    BinRow(b, s);
    FetchRefused(b, s, CreateAll(s, b.bin, s.files[6].inode, Regular), s.files[6].inode);
  }

  method RunCommands(fs: BkFs, cs: seq<Command>) returns (replies: seq<Reply>)
    requires Ready(fs) && RunFits(Abs(fs.State()), cs)
    modifies fs, fs.files, fs.inodes, fs.blocks, fs.blockUsed
    ensures Ready(fs) && (Abs(fs.State()), replies) == Run(old(Abs(fs.State())), cs)
  {
    ghost var t := Abs(fs.State());
    replies := [];
    assert cs[..0] == [];
    for i := 0 to |cs|
      invariant Ready(fs) && (Abs(fs.State()), replies) == Run(t, cs[..i])
    {
      PrefixFits(t, cs, i + 1);
      assert cs[..i + 1][..i] == cs[..i];
      var reply := ExecuteCommand(fs, cs[i]);
      replies := replies + [reply];
    }
    assert cs[..|cs|] == cs;
  }

  /** A whole session from power-on: tables, tree and replies stay in step. */
  method Session(cs: seq<Command>) returns (fs: BkFs, replies: seq<Reply>)
    requires RunFits(BootTree(NAMES), cs)
    ensures fresh(fs) && Ready(fs)
    ensures (Abs(fs.State()), replies) == Run(BootTree(NAMES), cs)
  {
    fs := KernelMain();
    replies := RunCommands(fs, cs);
  }

  lemma {:induction false} PrefixFits(t: Tree, cs: seq<Command>, n: nat)
    requires RunFits(t, cs) && n <= |cs|
    ensures RunFits(t, cs[..n])
    decreases |cs| - n
  {
    if n == |cs| {
      assert cs[..n] == cs;
    } else {
      PrefixFits(t, cs, n + 1);
      assert cs[..n + 1][..n] == cs[..n];
    }
  }
}
