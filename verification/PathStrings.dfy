/** Paths as `pwd` and the prompt print them, and walking them back with `cd`. */
module PathStrings {
  import opened Limits
  import opened FileNames
  import opened Strings
  import opened BkfsState
  import opened FileTable
  import opened BkfsInvariant
  import opened Paths
  import opened NodeMaps
  import opened TreeModel
  import opened Abstraction
  import opened ShellState
  import opened Simulation
  import opened BootState
  import opened Boot

  /** A slash before each name. */
  function Render(p: Path): string
    decreases |p|
  {
    if p == [] then "" else Render(p[..|p| - 1]) + "/" + p[|p| - 1]
  }

  /** The output of `pwd` but for its newline, and the path part of the prompt. */
  function PwdText(p: Path): string { Render(p) + "/" }
  function PromptText(p: Path): string { "~" + Render(p) }

  ghost predicate GoodPath(p: Path) {
    forall i :: 0 <= i < |p| ==> IsValidName(p[i])
  }

  lemma {:induction false} RenderIsJoin(p: Path)
    ensures Render(p) == Join([""] + p, '/')
    decreases |p|
  {
    if p != [] {
      RenderIsJoin(p[..|p| - 1]);
      JoinSnoc([""] + p[..|p| - 1], p[|p| - 1], '/');
      assert [""] + p == [""] + p[..|p| - 1] + [p[|p| - 1]];
    }
  }

  /** A path is a C string. */
  lemma {:induction false} RenderHasNoNul(p: Path)
    requires GoodPath(p)
    ensures '\0' !in Render(p)
    decreases |p|
  {
    if p != [] {
      RenderHasNoNul(p[..|p| - 1]);
    }
  }

  lemma RenderSplits(p: Path)
    requires GoodPath(p)
    ensures Split(Render(p), '/') == [""] + p
  {
    var parts := [""] + p;
    RenderIsJoin(p);
    forall i | 0 <= i < |parts|
      ensures '/' !in parts[i]
    {
      if i >= 1 {
        SlashIsForbidden(p[i - 1]);
      }
    }
    SplitJoin(parts, '/');
  }

  /**
   What `pwd` prints is a slash before each name and one at the end, and splitting it gives back the names;
   the prompt has a tilde in front and no slash at the end.
   */
  lemma PwdPieces(p: Path)
    requires GoodPath(p)
    ensures Split(PwdText(p), '/') == [""] + p + [""] && Pieces(PwdText(p), '/') == p
    ensures Split(PromptText(p), '/') == ["~"] + p
  {
    RenderSplits(p);
    SplitConcat(Render(p), "", '/');
    SplitNone("", '/');
    assert Render(p) + ['/'] + "" == PwdText(p);
    NonEmptyAppend([""] + p, [""]);
    NonEmptyAppend([""], p);
    NonEmptyAll(p);
    PromptSplits(p);
  }

  lemma PromptSplits(p: Path)
    requires GoodPath(p)
    ensures Split(PromptText(p), '/') == ["~"] + p
  {
    RenderSplits(p);
    if p == [] {
      SplitNone("~", '/');
      assert PromptText(p) == "~";
    } else {
      RenderTail(p);
      var rest := Render(p)[1..];
      SplitPrefix("", rest, '/');
      SplitPrefix("~", rest, '/');
      assert "" + ['/'] + rest == Render(p) && "~" + ['/'] + rest == PromptText(p);
      assert Split(Render(p), '/')[1..] == Split(rest, '/');
    }
  }

  lemma {:induction false} RenderTail(p: Path)
    requires p != []
    ensures Render(p) != "" && Render(p)[0] == '/'
    decreases |p|
  {
    if |p| > 1 {
      RenderTail(p[..|p| - 1]);
    } else {
      assert Render(p[..0]) == "";
    }
  }

  lemma {:induction false} PathNamesGood(files: seq<Entry>, i: nat)
    requires FilesInv(files) && ROOT_INDEX <= i < |files|
    ensures GoodPath(PathAt(files, i))
    decreases i
  {
    if i > ROOT_INDEX {
      PathStep(files, i);
      assert ParentEarlier(files, i) && LiveEntry(files[i]);
      PathNamesGood(files, ParentIndex(files, i));
    }
  }

  // ---------- walking with cd ----------

  function CdAll(t: Tree, names: seq<string>): Tree
    decreases |names|
  {
    if names == [] then t else Chdir(CdAll(t, names[..|names| - 1]), names[|names| - 1]).0
  }

  function ChangeDirs(s: Fs, names: seq<string>): Fs
    decreases |names|
  {
    if names == [] then s else ChangeDir(ChangeDirs(s, names[..|names| - 1]), names[|names| - 1]).0
  }

  lemma {:induction false} ChangeDirsSimulates(s: Fs, names: seq<string>)
    requires Good(s)
    ensures var r := ChangeDirs(s, names);
            Good(r) && Abs(r) == CdAll(Abs(s), names) && r.files == s.files
    decreases |names|
  {
    if names != [] {
      ChangeDirsSimulates(s, names[..|names| - 1]);
      CdSimulates(ChangeDirs(s, names[..|names| - 1]), names[|names| - 1]);
    }
  }

  /** No walk goes deeper than it has names, and each ".." costs a level. */
  lemma {:induction false} WalkDepth(t: Tree, names: seq<string>)
    ensures |CdAll(t, names).cur| <= |t.cur| + |names|
    ensures ".." in names ==> |CdAll(t, names).cur| < |t.cur| + |names|
    decreases |names|
  {
    if names != [] {
      WalkDepth(t, names[..|names| - 1]);
      assert names == names[..|names| - 1] + [names[|names| - 1]];
    }
  }

  /** The name "root" in the root directory is the root's own entry, never another directory. */
  lemma RootNameReserved(s: Fs)
    requires Inv(s)
    ensures ["root"] !in Abs(s).nodes
  {
    RootPath(s.files);
    if ["root"] in Abs(s).nodes {
      var i := MapFrom(s.files, NodeList(s), ["root"]);
      assert DirPath(s.files, ROOT_INODE) + ["root"] == ["root"];
      ChildPath(s.files, ROOT_INODE, "root", i);
    }
  }

  lemma ChdirInto(t: Tree, name: string)
    requires IsValidName(name) && name != ".." && (t.cur == [] ==> name != "root")
    requires t.cur + [name] in t.nodes && t.nodes[t.cur + [name]] == Dir
    ensures Chdir(t, name).0 == t.(cur := t.cur + [name])
  {
  }

  lemma ParentIsDirectory(t: Tree, p: Path)
    requires IsTree(t) && p in t.nodes && p != []
    ensures p[..|p| - 1] in t.nodes && t.nodes[p[..|p| - 1]] == Dir
  {
    assert InDirectory(t.nodes, p);
  }

  ghost predicate Walkable(p: Path) {
    forall i :: 0 <= i < |p| ==> IsValidName(p[i]) && p[i] != ".."
  }

  /** Without "..", each `cd` goes one name down the path. */
  lemma {:induction false} WalkDown(t: Tree, p: Path)
    requires IsTree(t) && t.cur == [] && ["root"] !in t.nodes
    requires p in t.nodes && t.nodes[p] == Dir && Walkable(p)
    ensures CdAll(t, p) == t.(cur := p)
    decreases |p|
  {
    if p != [] {
      var up, last := p[..|p| - 1], p[|p| - 1];
      ParentIsDirectory(t, p);
      WalkDown(t, up);
      assert p == up + [last];
      ChdirInto(t.(cur := up), last);
    }
  }

  lemma WalkFails(s: Fs, top: Fs, p: Path)
    requires Good(s) && Good(top) && p == Abs(s).cur && Abs(top).cur == [] && ".." in p && top.files == s.files
    ensures ChangeDirs(top, p).cur != s.cur
  {
    ChangeDirsSimulates(top, p);
    WalkDepth(Abs(top), p);
  }

  lemma WalkArrives(s: Fs, top: Fs, p: Path)
    requires Good(s) && p == Abs(s).cur && ".." !in p
    requires Good(top) && Abs(top) == Abs(s).(cur := []) && top.files == s.files
    ensures ChangeDirs(top, p).cur == s.cur
  {
    PathNamesGood(s.files, First(s.files, ByInode(s.cur)));
    AbsIsTree(s);
    AbsIsTree(top);
    RootNameReserved(s);
    WalkDown(Abs(top), p);
    ChangeDirsSimulates(top, p);
    SameDirectory(s, ChangeDirs(top, p));
  }

  lemma SameDirectory(s: Fs, r: Fs)
    requires Good(s) && Good(r) && r.files == s.files && Abs(r).cur == Abs(s).cur
    ensures r.cur == s.cur
  {
    PathInjective(s.files, First(s.files, ByInode(r.cur)), First(s.files, ByInode(s.cur)));
  }

  /**
   When the round trip holds of the tables as they are. Splitting what `pwd` prints and entering each name from the root ends in the
   current directory if and only if no directory on the way is called "..", which `cd` takes as the parent.
   */
  lemma RoundTripIff(s: Fs)
    requires Good(s)
    ensures Pieces(PwdText(Abs(s).cur), '/') == Abs(s).cur
    ensures ChangeDirs(WithDir(s, ROOT_INODE), Pieces(PwdText(Abs(s).cur), '/')).cur == s.cur <==> ".." !in Abs(s).cur
  {
    var p, top := Abs(s).cur, WithDir(s, ROOT_INODE);
    PathNamesGood(s.files, First(s.files, ByInode(s.cur)));
    PwdPieces(p);
    RootPath(s.files);
    MovedDir(s, ROOT_INODE);
    if ".." in p {
      WalkFails(s, top, p);
    } else {
      WalkArrives(s, top, p);
    }
  }

  /** No command enters a directory called "..": `cd ..` goes to the parent even where `mkdir ..` has made one. */
  lemma {:induction false} NeverInDotDot(t: Tree, cs: seq<Command>)
    requires ".." !in t.cur
    ensures ".." !in Run(t, cs).0.cur
    decreases |cs|
  {
    if cs != [] {
      NeverInDotDot(t, cs[..|cs| - 1]);
      StepAvoidsDotDot(Run(t, cs[..|cs| - 1]).0, cs[|cs| - 1]);
    }
  }

  lemma StepAvoidsDotDot(t: Tree, c: Command)
    requires ".." !in t.cur
    ensures ".." !in Step(t, c).0.cur
  {
  }

  /**
   The path round trip, after any run from boot: splitting what `pwd` prints gives the names on the path,
   and entering each of them with `cd`, from the root, ends in the current directory.
   */
  lemma PwdCdRoundTrip(cs: seq<Command>)
    requires RunFits(BootTree(NAMES), cs)
    ensures Good(BootFs(NAMES)) && Abs(BootFs(NAMES)) == BootTree(NAMES)
    ensures var s := ExecuteAll(BootFs(NAMES), cs).0;
            && Good(s)
            && Pieces(PwdText(Abs(s).cur), '/') == Abs(s).cur
            && ChangeDirs(WithDir(s, ROOT_INODE), Pieces(PwdText(Abs(s).cur), '/')).cur == s.cur
  {
    RunFromBoot(cs);
    NeverInDotDot(BootTree(NAMES), cs);
    RoundTripIff(ExecuteAll(BootFs(NAMES), cs).0);
  }

  lemma DirPathRender(files: seq<Entry>, i: nat)
    requires FilesInv(files) && ROOT_INDEX < i < |files|
    ensures IsDirectory(files, files[i].parent)
    ensures Render(PathAt(files, i)) == Render(DirPath(files, files[i].parent)) + "/" + files[i].name
  {
    PathStep(files, i);
    var p := PathAt(files, i);
    assert p[..|p| - 1] == DirPath(files, files[i].parent);
  }
}
