/** The file table that boot leaves, entry by entry. */
module BootTable {
  import opened Limits
  import opened FileNames
  import opened BkfsState
  import opened FileTable
  import opened TreeModel
  import opened Simulation
  import opened BootState
  import opened Boot

  /** Entries 0 to 21 of the boot table are those made before the row below "bin". */
  lemma BootEntries(b: Names, s: Fs)
    requires NamesOk(b) && s == BootFs(b)
    ensures Good(s) && s.cur == ROOT_INODE && |s.files| == 26 && RootListing(s.files, RootNames(b))
    ensures forall i :: 13 <= i < 22 ==> s.files[i].parent == s.files[9].inode && s.files[i].name == b.dev[i - 13]
    ensures forall i :: 22 <= i < 26 ==> s.files[i].parent == s.files[6].inode
  {
    BootReaches(b);
    BootIsBinRow(b);
    BinRow(b, DevFs(b));
    DevReady(b);
    CarryOver(b, DevFs(b), s);
  }

  lemma CarryOver(b: Names, s: Fs, t: Fs)
    requires NamesOk(b) && |s.files| == 22 && RootListing(s.files, RootNames(b))
    requires forall i :: 13 <= i < 22 ==> s.files[i].parent == s.files[9].inode && s.files[i].name == b.dev[i - 13]
    requires Extends(s, t, b.bin, s.files[6].inode, Regular)
    ensures RootListing(t.files, RootNames(b))
    ensures forall i :: 13 <= i < 22 ==> t.files[i].parent == t.files[9].inode && t.files[i].name == b.dev[i - 13]
    ensures forall i :: 22 <= i < 26 ==> t.files[i].parent == t.files[6].inode
  {
    ListingStays(s, t, RootNames(b));
    assert forall i :: 0 <= i < 22 ==> t.files[i] == t.files[..22][i];
  }

  /** The root directory has no other names than those given. */
  lemma NotInRoot(b: Names, files: seq<Entry>, name: string)
    requires |files| == 26 && RootListing(files, RootNames(b)) && name !in RootNames(b)
    requires forall i :: 0 <= i < GHOST_ENTRIES ==> files[i] == GHOST
    requires forall i :: 13 <= i < 26 ==> files[i].parent != ROOT_INODE
    ensures !Found(files, ByName(ROOT_INODE, name))
  {
    forall i | 0 <= i < 26
      ensures !Matches(ByName(ROOT_INODE, name), files[i])
    {
      if 5 <= i < 13 {
        assert files[i].name in RootNames(b);
      }
    }
  }

  lemma DevInode(b: Names, s: Fs)
    requires NamesOk(b) && s == BootFs(b)
    ensures |s.files| == 26 && s.cur == ROOT_INODE
    ensures InodeNamed(s, "dev") == s.files[9].inode > ROOT_INODE
    ensures s.files[6].inode > ROOT_INODE
  {
    BootEntries(b, s);
    assert RootNames(b)[4] == "dev";
    ListedDirectory(s, RootNames(b), 9);
    ListedDirectory(s, RootNames(b), 6);
  }

  // ---------- the tree, node by node ----------

  lemma {:induction false} AddAllHas(nodes: map<Path, Node>, dir: Path, names: seq<string>, node: Node, p: Path)
    ensures var added := p != [] && Parent(p) == dir && p[|p| - 1] in names;
            && (p in AddAll(nodes, dir, names, node) <==> p in nodes || added)
            && (p in AddAll(nodes, dir, names, node) ==> AddAll(nodes, dir, names, node)[p] == if added then node else nodes[p])
    decreases |names|
  {
    if names != [] {
      var front, last := names[..|names| - 1], names[|names| - 1];
      AddAllHas(nodes, dir, front, node, p);
      assert names == front + [last];
      assert p == dir + [last] <==> p != [] && Parent(p) == dir && p[|p| - 1] == last;
    }
  }

  /** The boot tree: directories and "fetch" in the root, empty files below "dev" and "bin", and nothing else. */
  lemma BootTreeHas(b: Names, p: Path)
    requires "fetch" !in b.dirs
    ensures p in BootTree(b).nodes <==>
            || p == []
            || (|p| == 1 && (p[0] in b.dirs || p[0] == "fetch"))
            || (|p| == 2 && ((p[0] == "dev" && p[1] in b.dev) || (p[0] == "bin" && p[1] in b.bin)))
    ensures p in BootTree(b).nodes ==> BootTree(b).nodes[p] == if p == [] || (|p| == 1 && p[0] != "fetch") then Dir else File([])
  {
    var root := AddAll(map[[] := Dir], [], b.dirs, Dir);
    AddAllHas(map[[] := Dir], [], b.dirs, Dir, p);
    AddAllHas(root, [], ["fetch"], File([]), p);
    AddAllHas(RootNodes(b), ["dev"], b.dev, File([]), p);
    AddAllHas(AddAll(RootNodes(b), ["dev"], b.dev, File([])), ["bin"], b.bin, File([]), p);
  }

  predicate BootName(name: string) {
    name in {"bin", "etc", "home", "dev", "tmp", "sys", "fetch"}
  }

  predicate DeviceName(name: string) {
    name in {"sda", "sda1", "sdb1", "sdb", "vga", "vga1", "vga2", "null", "random"}
  }

  predicate ProgramName(name: string) {
    name in {"ush", "ls", "cat", "echo"}
  }

  lemma NamesAre(b: Names, name: string)
    requires b.dirs == ["bin", "etc", "home", "dev", "tmp", "sys"]
    requires b.dev == ["sda", "sda1", "sdb1", "sdb", "vga", "vga1", "vga2", "null", "random"]
    requires b.bin == ["ush", "ls", "cat", "echo"]
    ensures "fetch" !in b.dirs
    ensures name in b.dirs || name == "fetch" <==> BootName(name)
    ensures name in b.dev <==> DeviceName(name)
    ensures name in b.bin <==> ProgramName(name)
  {
  }

  /** What a user finds after boot, path by path; the current directory is the root. */
  lemma BootListing(p: Path)
    ensures BootTree(NAMES).cur == []
    ensures p in BootTree(NAMES).nodes <==>
            || p == []
            || (|p| == 1 && BootName(p[0]))
            || (|p| == 2 && ((p[0] == "dev" && DeviceName(p[1])) || (p[0] == "bin" && ProgramName(p[1]))))
    ensures p in BootTree(NAMES).nodes ==> BootTree(NAMES).nodes[p] == if p == [] || (|p| == 1 && p[0] != "fetch") then Dir else File([])
  {
    NamesAre(NAMES, if p == [] then "" else p[|p| - 1]);
    BootTreeHas(NAMES, p);
  }
}
