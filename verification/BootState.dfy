/** The state that the boot sequence leaves, and the tree it stands for. */
module BootState {
  import opened Limits
  import opened FileNames
  import opened BkfsState
  import opened FreeBlocks
  import opened FileTable
  import opened BlockOwnership
  import opened BkfsInvariant
  import opened BkfsCapacity
  import opened Paths
  import opened NodeMaps
  import opened TreeModel
  import opened Abstraction
  import opened Effects
  import opened ShellState
  import opened Simulation

  /** The names that boot creates: directories below the root, then files below "dev" and "bin". */
  datatype Names = Names(dirs: seq<string>, dev: seq<string>, bin: seq<string>)

  const NAMES := Names(
    ["bin", "etc", "home", "dev", "tmp", "sys"],
    ["sda", "sda1", "sdb1", "sdb", "vga", "vga1", "vga2", "null", "random"],
    ["ush", "ls", "cat", "echo"])

  /** The zero-initialised tables. */
  function Initial(): Fs {
    Fs([GHOST, GHOST, GHOST, GHOST, GHOST], ROOT_INODE,
       seq(MAX_INODES, _ => ZERO_INODE), MAX_INODES,
       seq(MAX_BLOCKS, _ => false), MAX_BLOCKS,
       seq(MAX_BLOCKS, _ => seq(BLOCK_SIZE, _ => '\0')))
  }

  /** Calls of `fs_create_file` in a row, their results ignored. */
  function CreateAll(s: Fs, names: seq<string>, parent: nat, kind: Kind): (r: Fs)
    requires Shaped(s)
    ensures Shaped(r)
    decreases |names|
  {
    if names == [] then s
    else CreateFile(CreateAll(s, names[..|names| - 1], parent, kind), names[|names| - 1], parent, kind).0
  }

  /** The inode of the first entry with a name, or 0. */
  function InodeNamed(s: Fs, name: string): nat {
    var i := First(s.files, Named(name));
    if i < |s.files| then s.files[i].inode else 0
  }

  function CreateBelow(s: Fs, dir: string, names: seq<string>): (r: Fs)
    requires Shaped(s)
    ensures Shaped(r)
  {
    var ino := InodeNamed(s, dir);
    if ino != 0 then CreateAll(s, names, ino, Regular) else s
  }

  function RootFs(): (r: Fs)
    ensures Shaped(r)
  {
    InitialShaped();
    CreateFile(Initial(), "root", ROOT_INODE, Directory).0
  }

  lemma InitialShaped()
    ensures Shaped(Initial())
  {
  }

  function RootDirectory(b: Names): (r: Fs)
    ensures Shaped(r)
  {
    CreateAll(CreateAll(RootFs(), b.dirs, ROOT_INODE, Directory), ["fetch"], ROOT_INODE, Regular)
  }

  /** The last steps of boot: "fetch" is refused below "bin", so its content is never written. */
  function WriteFetch(s: Fs): Fs
    requires Shaped(s)
  {
    var bin := InodeNamed(s, "bin");
    var i := First(s.files, ByName(bin, "fetch"));
    if bin != 0 && i < |s.files| then WriteFile(s, s.files[i].inode, "priveeet\n").0 else s
  }

  function BootFs(b: Names): Fs {
    WriteFetch(CreateBelow(CreateBelow(RootDirectory(b), "dev", b.dev), "bin", b.bin + ["fetch"]))
  }

  // ---------- the tree of the boot state ----------

  function AddAll(nodes: map<Path, Node>, dir: Path, names: seq<string>, node: Node): map<Path, Node> {
    if names == [] then nodes
    else AddAll(nodes, dir, names[..|names| - 1], node)[dir + [names[|names| - 1]] := node]
  }

  function RootNodes(b: Names): map<Path, Node> {
    AddAll(AddAll(map[[] := Dir], [], b.dirs, Dir), [], ["fetch"], File([]))
  }

  function BootTree(b: Names): Tree {
    Tree(AddAll(AddAll(RootNodes(b), ["dev"], b.dev, File([])), ["bin"], b.bin, File([])), [])
  }

  // ---------- the root entry alone ----------

  lemma RootTable()
    ensures RootFs().files == [GHOST, GHOST, GHOST, GHOST, GHOST, Entry("root", ROOT_INODE, ROOT_INODE, Directory)]
    ensures RootFs().inodes == Initial().inodes[0 := Inode(ModeOf(Directory), 0, 0, ZERO_LIST)]
    ensures RootFs().freeInodes == MAX_INODES - 1 && RootFs().cur == ROOT_INODE
    ensures RootFs().used == Initial().used && RootFs().freeBlocks == MAX_BLOCKS && RootFs().blocks == Initial().blocks
  {
    InitialShaped();
    AlphanumericIsValid("root");
  }

  lemma RootFilesInv(files: seq<Entry>)
    requires files == [GHOST, GHOST, GHOST, GHOST, GHOST, Entry("root", ROOT_INODE, ROOT_INODE, Directory)]
    ensures FilesInv(files) && IsDirectory(files, ROOT_INODE)
  {
    AlphanumericIsValid("root");
    FirstUnique(files, ByInode(ROOT_INODE), ROOT_INDEX);
  }

  lemma RootInodes(files: seq<Entry>, inodes: seq<Inode>)
    requires files == [GHOST, GHOST, GHOST, GHOST, GHOST, Entry("root", ROOT_INODE, ROOT_INODE, Directory)]
    requires inodes == Initial().inodes[0 := Inode(ModeOf(Directory), 0, 0, ZERO_LIST)]
    ensures InodesInv(files, inodes, MAX_INODES - 1) && SmallFiles(inodes)
  {
    forall k: nat | k < MAX_INODES
      ensures SlotOk(files, inodes, k) && InodeShaped(inodes[k])
    {
      FirstUnique(files, ByInode(k + 1), if k == 0 then ROOT_INDEX else |files|);
    }
  }

  lemma RootBlocks(inodes: seq<Inode>, used: seq<bool>)
    requires InodesShaped(inodes) && forall k :: 0 <= k < MAX_INODES ==> inodes[k].blocks == 0
    requires |used| == MAX_BLOCKS && forall b :: 0 <= b < MAX_BLOCKS ==> !used[b]
    ensures BlocksInv(inodes, used, MAX_BLOCKS)
  {
    FreePlusUsed(used);
    assert UsedSet(used) == {};
    assert forall k, b: nat :: 0 <= k < MAX_INODES ==> !Owns(inodes, k, b);
  }

  lemma RootGood()
    ensures Good(RootFs()) && Abs(RootFs()) == Tree(map[[] := Dir], [])
  {
    RootTable();
    var s := RootFs();
    RootFilesInv(s.files);
    RootInodes(s.files, s.inodes);
    RootBlocks(s.inodes, s.used);
    RootPath(s.files);
    MapIs(s.files, NodeList(s), map[[] := Dir]) by {
      assert IsPath(s.files, []) by {
        assert PathAt(s.files, ROOT_INDEX) == [];
      }
    }
  }

  // ---------- rows of fs_create_file calls ----------

  /** Names that boot may create in a directory: good, short, distinct, and new there and in the current one. */
  ghost predicate Fresh(s: Fs, names: seq<string>, parent: nat) {
    && (forall i :: 0 <= i < |names| ==> Alphanumeric(names[i]) && |names[i]| <= MAX_NAME)
    && (forall i, j :: 0 <= i < j < |names| ==> names[i] != names[j])
    && (forall i :: 0 <= i < |names| ==> !Found(s.files, ByName(parent, names[i])) && !Found(s.files, ByName(s.cur, names[i])))
  }

  /** The entries that a row of calls adds. */
  ghost predicate Extends(s: Fs, t: Fs, names: seq<string>, parent: nat, kind: Kind) {
    && t.cur == s.cur && |t.files| == |s.files| + |names| && t.files[..|s.files|] == s.files
    && (forall j :: |s.files| <= j < |t.files| ==>
          && t.files[j].name == names[j - |s.files|]
          && t.files[j].parent == parent && t.files[j].kind == kind)
  }

  lemma NotFoundAfter(s: Fs, t: Fs, names: seq<string>, parent: nat, kind: Kind, q: Query)
    requires Extends(s, t, names, parent, kind) && !Found(s.files, q)
    requires q.ByName? && q.name !in names
    ensures !Found(t.files, q)
  {
    forall i | 0 <= i < |t.files|
      ensures !Matches(q, t.files[i])
    {
      if i < |s.files| {
        assert t.files[i] == t.files[..|s.files|][i];
      }
    }
  }

  lemma CreateInStaysGood(s: Fs, name: string, parent: nat, kind: Kind)
    requires Good(s) && IsDirectory(s.files, parent) && |s.files| < MAX_FILES
    requires Alphanumeric(name) && |name| <= MAX_NAME
    requires !Found(s.files, ByName(parent, name)) && !Found(s.files, ByName(s.cur, name))
    ensures var t := CreateFile(s, name, parent, kind).0;
            && Good(t) && Extends(s, t, [name], parent, kind)
            && Abs(t) == Tree(Abs(s).nodes[DirPath(s.files, parent) + [name] := NewNode(kind)], Abs(s).cur)
  {
    AlphanumericIsValid(name);
    CreateSucceeds(s, name, parent, kind);
    CreateInEffect(s, name, parent, kind);
  }

  lemma DirStays(s: Fs, t: Fs, names: seq<string>, parent: nat, kind: Kind)
    requires Good(s) && IsDirectory(s.files, parent) && Good(t) && Extends(s, t, names, parent, kind) && |names| == 1
    ensures IsDirectory(t.files, parent) && DirPath(t.files, parent) == DirPath(s.files, parent)
  {
    var e := t.files[|s.files|];
    assert t.files == s.files + [e];
    FirstAppend(s.files, e, ByInode(parent));
    PathAppend(s.files, e, First(s.files, ByInode(parent)));
  }

  /** What a row of calls has achieved. */
  ghost predicate RowMade(s: Fs, t: Fs, names: seq<string>, parent: nat, kind: Kind)
    requires Good(s) && IsDirectory(s.files, parent)
  {
    && Good(t) && Extends(s, t, names, parent, kind)
    && IsDirectory(t.files, parent) && DirPath(t.files, parent) == DirPath(s.files, parent)
    && Abs(t) == Tree(AddAll(Abs(s).nodes, DirPath(s.files, parent), names, NewNode(kind)), Abs(s).cur)
  }

  lemma OneMore(s: Fs, before: Fs, front: seq<string>, name: string, parent: nat, kind: Kind)
    requires Good(s) && IsDirectory(s.files, parent) && RowMade(s, before, front, parent, kind)
    requires Fresh(s, front + [name], parent) && |before.files| < MAX_FILES
    ensures RowMade(s, CreateFile(before, name, parent, kind).0, front + [name], parent, kind)
  {
    var names := front + [name];
    assert names[|front|] == name && name !in front by {
      assert forall i :: 0 <= i < |front| ==> front[i] == names[i];
    }
    NotFoundAfter(s, before, front, parent, kind, ByName(parent, name));
    NotFoundAfter(s, before, front, parent, kind, ByName(s.cur, name));
    CreateInStaysGood(before, name, parent, kind);
    var t := CreateFile(before, name, parent, kind).0;
    DirStays(before, t, [name], parent, kind);
    ExtendsSnoc(s, before, t, front, name, parent, kind);
    assert names[..|names| - 1] == front;
  }

  lemma {:induction false} CreateAllGood(s: Fs, names: seq<string>, parent: nat, kind: Kind)
    requires Good(s) && IsDirectory(s.files, parent) && |s.files| + |names| <= MAX_FILES
    requires Fresh(s, names, parent)
    ensures RowMade(s, CreateAll(s, names, parent, kind), names, parent, kind)
    decreases |names|
  {
    if names != [] {
      var front, name := names[..|names| - 1], names[|names| - 1];
      assert names == front + [name];
      CreateAllGood(s, front, parent, kind);
      OneMore(s, CreateAll(s, front, parent, kind), front, name, parent, kind);
    }
  }

  lemma ExtendsSnoc(s: Fs, before: Fs, t: Fs, front: seq<string>, name: string, parent: nat, kind: Kind)
    requires Extends(s, before, front, parent, kind) && Extends(before, t, [name], parent, kind)
    ensures Extends(s, t, front + [name], parent, kind)
  {
    assert forall i :: 0 <= i < |before.files| ==> t.files[i] == t.files[..|before.files|][i] == before.files[i];
    assert forall i :: 0 <= i < |s.files| ==> before.files[i] == before.files[..|s.files|][i] == s.files[i];
  }
}
