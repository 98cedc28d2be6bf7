/** The boot sequence reaches a good state that stands for the boot tree; so does every run from it. */
module Boot {
  import opened Limits
  import opened FileNames
  import opened BkfsState
  import opened FileTable
  import opened BkfsInvariant
  import opened BkfsCapacity
  import opened Paths
  import opened NodeMaps
  import opened TreeModel
  import opened Abstraction
  import opened Effects
  import opened ShellState
  import opened Simulation
  import opened BootState

  function RootNames(b: Names): seq<string> {
    ["root"] + b.dirs + ["fetch"]
  }

  ghost predicate GoodNames(names: seq<string>) {
    && (forall i :: 0 <= i < |names| ==> Alphanumeric(names[i]) && |names[i]| <= MAX_NAME)
    && (forall i, j :: 0 <= i < j < |names| ==> names[i] != names[j])
  }

  ghost predicate Apart(names: seq<string>, others: seq<string>) {
    forall i :: 0 <= i < |names| ==> names[i] !in others
  }

  /** What the proofs use of the names: they are good, apart, and "bin" and "dev" are where they are. */
  ghost predicate NamesOk(b: Names) {
    && |b.dirs| == 6 && |b.dev| == 9 && |b.bin| == 4
    && b.dirs[0] == "bin" && b.dirs[3] == "dev"
    && GoodNames(RootNames(b)) && GoodNames(b.dev) && GoodNames(b.bin)
    && Apart(b.dev, RootNames(b)) && Apart(b.bin, RootNames(b))
  }

  lemma DirsGood(names: seq<string>)
    requires names == ["root", "bin", "etc", "home", "dev", "tmp", "sys", "fetch"]
    ensures GoodNames(names)
  {
    assert forall i, j :: 0 <= i < j < |names| ==> names[i] != names[j];
  }

  lemma DevGood(names: seq<string>, root: seq<string>)
    requires names == ["sda", "sda1", "sdb1", "sdb", "vga", "vga1", "vga2", "null", "random"]
    requires root == ["root", "bin", "etc", "home", "dev", "tmp", "sys", "fetch"]
    ensures GoodNames(names) && Apart(names, root)
  {
    assert forall i, j :: 0 <= i < j < |names| ==> names[i] != names[j];
  }

  lemma BinGood(names: seq<string>, root: seq<string>)
    requires names == ["ush", "ls", "cat", "echo"]
    requires root == ["root", "bin", "etc", "home", "dev", "tmp", "sys", "fetch"]
    ensures GoodNames(names) && Apart(names, root)
  {
  }

  lemma BootNamesOk()
    ensures NamesOk(NAMES)
  {
    var root := RootNames(NAMES);
    assert root == ["root", "bin", "etc", "home", "dev", "tmp", "sys", "fetch"];
    DirsGood(root);
    DevGood(NAMES.dev, root);
    BinGood(NAMES.bin, root);
  }

  /** The first thirteen entries after the calls for the root directory. */
  ghost predicate RootListing(files: seq<Entry>, names: seq<string>) {
    && |files| >= 13 && |names| == 8
    && (forall i :: 5 <= i < 13 ==> files[i].name == names[i - 5] && files[i].parent == ROOT_INODE)
    && (forall i :: 5 <= i < 12 ==> files[i].kind == Directory) && files[12].kind == Regular
  }

  lemma RootRow(b: Names)
    requires NamesOk(b)
    ensures Good(RootFs()) && RootFs().cur == ROOT_INODE && IsDirectory(RootFs().files, ROOT_INODE)
    ensures DirPath(RootFs().files, ROOT_INODE) == []
    ensures RowMade(RootFs(), CreateAll(RootFs(), b.dirs, ROOT_INODE, Directory), b.dirs, ROOT_INODE, Directory)
    ensures Abs(CreateAll(RootFs(), b.dirs, ROOT_INODE, Directory)) == Tree(AddAll(map[[] := Dir], [], b.dirs, Dir), [])
  {
    RootGood();
    RootTable();
    var names := RootNames(b);
    assert forall i :: 0 <= i < 6 ==> b.dirs[i] == names[i + 1];
    assert names[0] == "root";
    RootPath(RootFs().files);
    CreateAllGood(RootFs(), b.dirs, ROOT_INODE, Directory);
  }

  lemma RootFetch(b: Names, s: Fs)
    requires NamesOk(b) && Good(RootFs()) && IsDirectory(RootFs().files, ROOT_INODE) && RootFs().cur == ROOT_INODE
    requires DirPath(RootFs().files, ROOT_INODE) == []
    requires RowMade(RootFs(), s, b.dirs, ROOT_INODE, Directory)
    ensures RowMade(s, CreateAll(s, ["fetch"], ROOT_INODE, Regular), ["fetch"], ROOT_INODE, Regular)
  {
    RootTable();
    var names := RootNames(b);
    assert forall i :: 0 <= i < 6 ==> b.dirs[i] == names[i + 1];
    assert names[7] == "fetch";
    NotFoundAfter(RootFs(), s, b.dirs, ROOT_INODE, Directory, ByName(ROOT_INODE, "fetch"));
    CreateAllGood(s, ["fetch"], ROOT_INODE, Regular);
  }

  lemma RootList(b: Names, s: Fs, t: Fs)
    requires NamesOk(b)
    requires Extends(RootFs(), s, b.dirs, ROOT_INODE, Directory)
    requires Extends(s, t, ["fetch"], ROOT_INODE, Regular)
    ensures RootListing(t.files, RootNames(b)) && |t.files| == 13
  {
    RootTable();
    forall i | 5 <= i < 12
      ensures t.files[i] == s.files[i]
      ensures s.files[i].name == RootNames(b)[i - 5] && s.files[i].parent == ROOT_INODE && s.files[i].kind == Directory
    {
      assert t.files[i] == t.files[..|s.files|][i];
      if i == 5 {
        assert s.files[5] == s.files[..6][5];
      }
    }
  }

  lemma RootReady(b: Names)
    requires NamesOk(b)
    ensures var s := RootDirectory(b);
            && Good(s) && s.cur == ROOT_INODE && |s.files| == 13 && RootListing(s.files, RootNames(b))
            && Abs(s) == Tree(RootNodes(b), [])
  {
    RootRow(b);
    var s := CreateAll(RootFs(), b.dirs, ROOT_INODE, Directory);
    RootFetch(b, s);
    RootList(b, s, RootDirectory(b));
  }

  // ---------- the rows below "dev" and "bin" ----------

  lemma ListedDirectory(s: Fs, names: seq<string>, i: nat)
    requires Good(s) && RootListing(s.files, names) && GoodNames(names) && 6 <= i < 12
    ensures InodeNamed(s, names[i - 5]) == s.files[i].inode > ROOT_INODE
    ensures IsDirectory(s.files, s.files[i].inode) && DirPath(s.files, s.files[i].inode) == [names[i - 5]]
  {
    forall j | 0 <= j < i
      ensures !Matches(Named(names[i - 5]), s.files[j])
    {
      assert j >= 5 ==> names[j - 5] != names[i - 5];
    }
    FirstUnique(s.files, Named(names[i - 5]), i);
    FirstOfInode(s.files, i);
    assert LiveEntry(s.files[i]);
    InodesDiffer(s.files, ROOT_INDEX, i);
    PathStep(s.files, i);
    RootPath(s.files);
  }

  /** Nothing is called like a new file, in the root directory or below `dir`, until the row is made. */
  lemma FreshBelow(s: Fs, root: seq<string>, names: seq<string>, dir: nat)
    requires Good(s) && RootListing(s.files, root) && s.cur == ROOT_INODE && dir > ROOT_INODE
    requires forall i :: 13 <= i < |s.files| ==> s.files[i].parent != dir && s.files[i].parent != ROOT_INODE
    requires GoodNames(names) && Apart(names, root)
    ensures Fresh(s, names, dir)
  {
    forall k, j | 0 <= k < |names| && 0 <= j < |s.files|
      ensures !Matches(ByName(dir, names[k]), s.files[j]) && !Matches(ByName(s.cur, names[k]), s.files[j])
    {
      if 5 <= j < 13 {
        assert s.files[j].name in root;
      }
    }
  }

  lemma ListingStays(s: Fs, t: Fs, names: seq<string>)
    requires RootListing(s.files, names) && |t.files| >= |s.files| && t.files[..|s.files|] == s.files
    ensures RootListing(t.files, names)
  {
    assert forall i :: 0 <= i < |s.files| ==> t.files[i] == t.files[..|s.files|][i];
  }

  function DevFs(b: Names): Fs {
    CreateBelow(RootDirectory(b), "dev", b.dev)
  }

  lemma DevReady(b: Names)
    requires NamesOk(b)
    ensures var t := DevFs(b);
            && Good(t) && t.cur == ROOT_INODE && |t.files| == 22 && RootListing(t.files, RootNames(b))
            && (forall i :: 13 <= i < 22 ==> t.files[i].parent == t.files[9].inode && t.files[i].name == b.dev[i - 13])
            && Abs(t) == Tree(AddAll(RootNodes(b), ["dev"], b.dev, File([])), [])
  {
    RootReady(b);
    var s := RootDirectory(b);
    var dev := s.files[9].inode;
    assert RootNames(b)[4] == "dev";
    ListedDirectory(s, RootNames(b), 9);
    FreshBelow(s, RootNames(b), b.dev, dev);
    CreateAllGood(s, b.dev, dev, Regular);
    var t := CreateAll(s, b.dev, dev, Regular);
    ListingStays(s, t, RootNames(b));
    assert t.files[9] == t.files[..13][9];
  }

  lemma BinRow(b: Names, s: Fs)
    requires NamesOk(b) && s == DevFs(b)
    ensures Good(s) && |s.files| == 22 && RootListing(s.files, RootNames(b))
    ensures InodeNamed(s, "bin") == s.files[6].inode > ROOT_INODE
    ensures IsDirectory(s.files, s.files[6].inode) && DirPath(s.files, s.files[6].inode) == ["bin"]
    ensures RowMade(s, CreateAll(s, b.bin, s.files[6].inode, Regular), b.bin, s.files[6].inode, Regular)
    ensures forall i :: 5 <= i < 22 ==> s.files[i].parent != s.files[6].inode
  {
    DevReady(b);
    assert RootNames(b)[1] == "bin";
    ListedDirectory(s, RootNames(b), 6);
    ListedDirectory(s, RootNames(b), 9);
    InodesDiffer(s.files, 6, 9);
    FreshBelow(s, RootNames(b), b.bin, s.files[6].inode);
    CreateAllGood(s, b.bin, s.files[6].inode, Regular);
  }

  /** "fetch" below "bin" is refused, because the root directory, still the current one, has that name. */
  lemma FetchRefused(b: Names, s: Fs, t: Fs, bin: nat)
    requires NamesOk(b) && s == DevFs(b) && Shaped(s) && |s.files| == 22 && bin == s.files[6].inode && t == CreateAll(s, b.bin, bin, Regular)
    ensures CreateAll(s, b.bin + ["fetch"], bin, Regular) == t
  {
    BinRow(b, s);
    DevReady(b);
    ListingStays(s, t, RootNames(b));
    assert RootNames(b)[7] == "fetch";
    assert t.files[12].name == "fetch" && Matches(ByName(t.cur, "fetch"), t.files[12]);
    var names := b.bin + ["fetch"];
    assert names[..|names| - 1] == b.bin && names[|names| - 1] == "fetch";
  }

  /** So no entry is found to write the content into. */
  lemma NoFetch(b: Names, s: Fs, t: Fs, bin: nat)
    requires NamesOk(b) && |s.files| == 22 && bin == s.files[6].inode
    requires forall i :: 5 <= i < 22 ==> s.files[i].parent != bin
    requires bin > ROOT_INODE && forall i :: 0 <= i < 5 ==> s.files[i] == GHOST
    requires Extends(s, t, b.bin, bin, Regular)
    ensures !Found(t.files, ByName(bin, "fetch"))
  {
    assert RootNames(b)[7] == "fetch";
    forall j | 0 <= j < |t.files|
      ensures !Matches(ByName(bin, "fetch"), t.files[j])
    {
      if j < 22 {
        assert t.files[j] == t.files[..22][j];
      } else {
        assert t.files[j].name == b.bin[j - 22];
      }
    }
  }

  lemma FetchNotWritten(b: Names, s: Fs, t: Fs, bin: nat)
    requires NamesOk(b) && s == DevFs(b) && Shaped(s) && |s.files| == 22 && bin == s.files[6].inode && t == CreateAll(s, b.bin, bin, Regular)
    ensures Shaped(t) && WriteFetch(t) == t
  {
    BinRow(b, s);
    ListingStays(s, t, RootNames(b));
    assert RootNames(b)[1] == "bin";
    ListedDirectory(t, RootNames(b), 6);
    assert t.files[6] == t.files[..22][6];
    NoFetch(b, s, t, bin);
  }

  lemma BootIsBinRow(b: Names)
    requires NamesOk(b)
    ensures var s := DevFs(b);
            Shaped(s) && |s.files| == 22 && BootFs(b) == CreateAll(s, b.bin, s.files[6].inode, Regular)
  {
    var s := DevFs(b);
    BinRow(b, s);
    DevReady(b);
    FetchRefused(b, s, CreateAll(s, b.bin, s.files[6].inode, Regular), s.files[6].inode);
    FetchNotWritten(b, s, CreateAll(s, b.bin, s.files[6].inode, Regular), s.files[6].inode);
  }

  lemma BootReaches(b: Names)
    requires NamesOk(b)
    ensures Good(BootFs(b)) && Abs(BootFs(b)) == BootTree(b) && |BootFs(b).files| == 26
  {
    BinRow(b, DevFs(b));
    DevReady(b);
    BootIsBinRow(b);
  }

  /** Boot reaches a good state, and what the shell then shows is the boot tree. */
  lemma BootIsGood()
    ensures Good(BootFs(NAMES)) && Abs(BootFs(NAMES)) == BootTree(NAMES)
  {
    BootNamesOk();
    BootReaches(NAMES);
  }

  /** Every run of commands from boot that keeps to the contract is the same run on the tree, reply by reply. */
  lemma RunFromBoot(cs: seq<Command>)
    requires RunFits(BootTree(NAMES), cs)
    ensures Good(BootFs(NAMES)) && Abs(BootFs(NAMES)) == BootTree(NAMES)
    ensures var r := ExecuteAll(BootFs(NAMES), cs);
            && Good(r.0)
            && (Abs(r.0), r.1) == Run(BootTree(NAMES), cs)
            && IsTree(Run(BootTree(NAMES), cs).0)
  {
    BootIsGood();
    AbsIsTree(ExecuteAll(BootFs(NAMES), cs).0);
  }
}
