/** Every command on the tables is the same command on the tree, with the same reply. */
module Simulation {
  import opened Limits
  import opened FileNames
  import opened BkfsState
  import opened FileTable
  import opened BkfsInvariant
  import opened BkfsContents
  import opened BkfsCapacity
  import opened Paths
  import opened NodeMaps
  import opened TreeModel
  import opened Abstraction
  import opened Effects
  import opened ShellState

  /** The invariant of runs whose writes are bounded. */
  ghost predicate Good(s: Fs) {
    Inv(s) && SmallFiles(s.inodes)
  }

  /** One command simulated: the state stays good, and tree and reply are those of the tree's step. */
  ghost predicate Simulates(s: Fs, c: Command, r: (Fs, Reply))
    requires Good(s)
  {
    Good(r.0) && (Abs(r.0), r.1) == Step(Abs(s), c)
  }

  lemma CanCreateAgrees(s: Fs, name: string)
    requires Inv(s)
    ensures Creatable(s, name) <==> CanCreate(Abs(s), name)
    ensures |Abs(s).nodes| >= MAX_NODES <==> |s.files| >= MAX_FILES
  {
    LookupAgrees(s, name);
    MapSize(s.files, NodeList(s));
  }

  // ---------- touch, mkdir ----------

  lemma CreateStaysGood(s: Fs, name: string, kind: Kind)
    requires Good(s) && Creatable(s, name) && |name| <= MAX_NAME
    ensures var r := CreateFile(s, name, s.cur, kind);
            r.1 && Good(r.0) && Abs(r.0) == Put(Abs(s), name, NewNode(kind))
  {
    CreateSucceeds(s, name, s.cur, kind);
    CreateEffect(s, name, kind);
  }

  lemma MakeSimulates(s: Fs, name: string, kind: Kind)
    requires Good(s) && NameFits(name)
    ensures var r := MakeEntry(s, name, kind);
            Good(r.0) && (Abs(r.0), r.1) == Make(Abs(s), name, NewNode(kind))
  {
    LookupAgrees(s, name);
    CanCreateAgrees(s, name);
    CreateSucceeds(s, name, s.cur, kind);
    if Creatable(s, name) {
      CreateStaysGood(s, name, kind);
    }
  }

  // ---------- cd ----------

  lemma MovedDir(s: Fs, dir: nat)
    requires Good(s) && IsDirectory(s.files, dir)
    ensures Good(WithDir(s, dir)) && Abs(WithDir(s, dir)) == Abs(s).(cur := DirPath(s.files, dir))
  {
    assert NodeList(WithDir(s, dir)) == NodeList(s);
  }

  lemma CdUp(s: Fs)
    requires Good(s)
    ensures var r := ChangeDir(s, "..");
            Good(r.0) && (Abs(r.0), r.1) == Chdir(Abs(s), "..")
  {
    var i := First(s.files, ByInode(s.cur));
    RootPath(s.files);
    if i > ROOT_INDEX {
      PathStep(s.files, i);
    }
    MovedDir(s, s.files[i].parent);
  }

  lemma CdDown(s: Fs, name: string)
    requires Good(s) && name != "" && name != ".."
    ensures var r := ChangeDir(s, name);
            Good(r.0) && (Abs(r.0), r.1) == Chdir(Abs(s), name)
  {
    LookupAgrees(s, name);
    FindByKind(s, name, Directory);
    FindByName(s.files, s.cur, name);
    AbsAtRoot(s);
    var i := First(s.files, ByKind(s.cur, name, Directory));
    if i < |s.files| {
      FirstOfInode(s.files, i);
      ChildPath(s.files, s.cur, name, i);
      RootPath(s.files);
      MovedDir(s, s.files[i].inode);
    }
  }

  lemma CdSimulates(s: Fs, name: string)
    requires Good(s)
    ensures var r := ChangeDir(s, name);
            Good(r.0) && (Abs(r.0), r.1) == Chdir(Abs(s), name)
  {
    if name == "" {
      RootPath(s.files);
      MovedDir(s, ROOT_INODE);
    } else if name == ".." {
      CdUp(s);
    } else {
      CdDown(s, name);
    }
  }

  // ---------- rm ----------

  lemma ChildInTree(s: Fs, d: nat, p: Path)
    requires Inv(s) && ROOT_INDEX < d < |s.files|
    requires p in Abs(s).nodes && p != [] && Parent(p) == PathAt(s.files, d)
    ensures !Childless(s.files, s.files[d].inode)
  {
    var i := MapFrom(s.files, NodeList(s), p);
    PathStep(s.files, i);
    SnocInjective(p, DirPath(s.files, s.files[i].parent) + [s.files[i].name]);
    assert ParentEarlier(s.files, i);
    PathInjective(s.files, ParentIndex(s.files, i), d);
  }

  lemma ChildInTable(s: Fs, d: nat, i: nat)
    requires Inv(s) && ROOT_INDEX < d < |s.files|
    requires i < |s.files| && s.files[i].parent == s.files[d].inode
    ensures HasChildren(Abs(s), PathAt(s.files, d))
  {
    NotRootParent(s, d, i);
    FirstOfInode(s.files, d);
    PathStep(s.files, i);
    MapHas(s.files, NodeList(s), i);
    var p := PathAt(s.files, i);
    assert p != [] && Parent(p) == PathAt(s.files, d);
  }

  /** An entry names directory `d` as its parent exactly when the tree has a child there. */
  lemma ChildrenAgree(s: Fs, d: nat)
    requires Inv(s) && ROOT_INDEX < d < |s.files|
    ensures Childless(s.files, s.files[d].inode) <==> !HasChildren(Abs(s), PathAt(s.files, d))
  {
    if HasChildren(Abs(s), PathAt(s.files, d)) {
      var p :| p in Abs(s).nodes && p != [] && Parent(p) == PathAt(s.files, d);
      ChildInTree(s, d, p);
    }
    if !Childless(s.files, s.files[d].inode) {
      var i: nat :| i < |s.files| && s.files[i].parent == s.files[d].inode;
      ChildInTable(s, d, i);
    }
  }

  lemma NotRootParent(s: Fs, d: nat, i: nat)
    requires Inv(s) && ROOT_INDEX < d < |s.files| && i < |s.files| && s.files[i].parent == s.files[d].inode
    ensures i > ROOT_INDEX
  {
    assert LiveEntry(s.files[d]);
    InodesDiffer(s.files, ROOT_INDEX, d);
  }

  /** A regular file is nobody's parent. */
  lemma FilesAreChildless(s: Fs, d: nat)
    requires Inv(s) && ROOT_INDEX < d < |s.files| && s.files[d].kind == Regular
    ensures Childless(s.files, s.files[d].inode)
  {
    FirstOfInode(s.files, d);
    InodesDiffer(s.files, ROOT_INDEX, d);
    assert LiveEntry(s.files[d]);
    forall i: nat | i < |s.files|
      ensures s.files[i].parent != s.files[d].inode
    {
      if i > ROOT_INDEX {
        assert ParentEarlier(s.files, i);
      }
    }
  }

  /** What `rm` finds is never the root, and is childless if the caller keeps to the contract. */
  lemma RmTarget(s: Fs, name: string, recursive: bool)
    requires Inv(s) && Fits(Abs(s), Rm(name, recursive))
    ensures RemovesNoSubtree(s, name, recursive)
    ensures var i := First(s.files, ByName(s.cur, name));
            i < |s.files| && (s.files[i].kind == Directory ==> recursive) ==>
              i > ROOT_INDEX && Deletable(s, s.files[i].inode) && PathAt(s.files, i) == Abs(s).cur + [name]
  {
    var i := First(s.files, ByName(s.cur, name));
    LookupAgrees(s, name);
    FindByName(s.files, s.cur, name);
    AbsAtRoot(s);
    if i < |s.files| && (s.files[i].kind == Directory ==> recursive) {
      assert i > ROOT_INDEX;
      ChildPath(s.files, s.cur, name, i);
      if s.files[i].kind == Directory {
        ChildrenAgree(s, i);
      } else {
        FilesAreChildless(s, i);
      }
      FirstOfInode(s.files, i);
    }
  }

  lemma RmSimulates(s: Fs, name: string, recursive: bool)
    requires Good(s) && Fits(Abs(s), Rm(name, recursive))
    ensures var r := RemoveEntryNamed(s, name, recursive);
            Good(r.0) && (Abs(r.0), r.1) == Remove(Abs(s), name, recursive)
  {
    var i := First(s.files, ByName(s.cur, name));
    LookupAgrees(s, name);
    RmTarget(s, name, recursive);
    if i < |s.files| && (s.files[i].kind == Directory ==> recursive) {
      DeleteEffect(s, i);
    }
  }

  // ---------- echo > and echo >> ----------

  lemma WriteStaysGood(s: Fs, j: nat, data: seq<char>)
    requires Good(s) && ROOT_INDEX <= j < |s.files| && s.files[j].kind == Regular && |data| <= MAX_TEXT
    ensures var r := WriteFile(s, s.files[j].inode, data);
            && r.1 && Good(r.0)
            && Abs(r.0) == Abs(s).(nodes := Abs(s).nodes[PathAt(s.files, j) := File(data)])
  {
    assert LiveEntry(s.files[j]);
    BoundedWriteSucceeds(s, s.files[j].inode, data);
    WriteEffect(s, j, data);
  }

  lemma CreatedEntry(s: Fs, name: string)
    requires Good(s) && Creatable(s, name) && |name| <= MAX_NAME
    requires Good(CreateFile(s, name, s.cur, Regular).0)
    ensures var t := CreateFile(s, name, s.cur, Regular).0;
            && |t.files| == |s.files| + 1 && t.files[|s.files|].kind == Regular
            && PathAt(t.files, |s.files|) == Abs(s).cur + [name]
  {
    CreateSucceeds(s, name, s.cur, Regular);
    var t := CreateFile(s, name, s.cur, Regular).0;
    var e := t.files[|s.files|];
    FirstAppend(s.files, e, ByInode(s.cur));
    PathStep(t.files, |s.files|);
    PathAppend(s.files, e, First(s.files, ByInode(s.cur)));
  }

  lemma PutTwice(m: map<Path, Node>, here: Path, first: Node, second: Node)
    ensures m[here := first][here := second] == m[here := second]
  {
  }

  lemma CreateThenWrite(s: Fs, t: Fs, name: string, text: seq<char>)
    requires Good(s) && Creatable(s, name) && |name| <= MAX_NAME && |text| <= MAX_TEXT
    requires CreateFile(s, name, s.cur, Regular) == (t, true)
    ensures |t.files| == |s.files| + 1 && Shaped(t)
    ensures var r := WriteFile(t, t.files[|s.files|].inode, text);
            r.1 && Good(r.0) && Abs(r.0) == Put(Abs(s), name, File(text))
  {
    CreateStaysGood(s, name, Regular);
    CreatedEntry(s, name);
    WriteStaysGood(t, |s.files|, text);
    PutTwice(Abs(s).nodes, Abs(s).cur + [name], File([]), File(text));
  }

  lemma CreateRefused(s: Fs, name: string, text: seq<char>)
    requires Good(s) && !Creatable(s, name)
    ensures CreateAndWrite(s, name, text) == (s, CreateFailed(ComplaintAbout(name, Lookup(Abs(s), name).Some?)))
  {
    LookupAgrees(s, name);
    CreateSucceeds(s, name, s.cur, Regular);
  }

  lemma CreateAllowed(s: Fs, name: string, text: seq<char>)
    requires Good(s) && Creatable(s, name) && |name| <= MAX_NAME && |text| <= MAX_TEXT
    ensures var r := CreateAndWrite(s, name, text);
            Good(r.0) && (Abs(r.0), r.1) == (Put(Abs(s), name, File(text)), Created)
  {
    CreateSucceeds(s, name, s.cur, Regular);
    CreateThenWrite(s, CreateFile(s, name, s.cur, Regular).0, name, text);
  }

  lemma CreateAndWriteSimulates(s: Fs, name: string, text: seq<char>)
    requires Good(s) && NameFits(name) && |text| <= MAX_TEXT
    ensures var r := CreateAndWrite(s, name, text);
            Good(r.0) && (Abs(r.0), r.1) ==
                         if CanCreate(Abs(s), name) then (Put(Abs(s), name, File(text)), Created)
                         else (Abs(s), CreateFailed(ComplaintAbout(name, Lookup(Abs(s), name).Some?)))
  {
    CanCreateAgrees(s, name);
    if Creatable(s, name) {
      CreateAllowed(s, name, text);
    } else {
      CreateRefused(s, name, text);
    }
  }

  lemma FileFound(s: Fs, name: string)
    requires Inv(s)
    ensures var i := First(s.files, ByKind(s.cur, name, Regular));
            if i < |s.files|
            then i > ROOT_INDEX && s.files[i].kind == Regular && PathAt(s.files, i) == Abs(s).cur + [name]
                 && Lookup(Abs(s), name) == Some(NodeAt(s, i))
            else Lookup(Abs(s), name).None? || Lookup(Abs(s), name) == Some(Dir)
  {
    LookupAgrees(s, name);
    FindByKind(s, name, Regular);
    var i := First(s.files, ByKind(s.cur, name, Regular));
    if i < |s.files| {
      ChildPath(s.files, s.cur, name, i);
    }
  }

  lemma EchoSimulates(s: Fs, name: string, text: seq<char>)
    requires Good(s) && NameFits(name) && |text| <= MAX_TEXT
    ensures var r := RedirectOutput(s, name, text);
            Good(r.0) && (Abs(r.0), r.1) == Overwrite(Abs(s), name, text)
  {
    FileFound(s, name);
    var i := First(s.files, ByKind(s.cur, name, Regular));
    if i < |s.files| {
      WriteStaysGood(s, i, text);
    } else {
      CreateAndWriteSimulates(s, name, text);
    }
  }

  lemma AppendReads(s: Fs, i: nat, text: seq<char>)
    requires Inv(s) && ROOT_INDEX <= i < |s.files| && s.files[i].kind == Regular
    ensures NodeAt(s, i).File?
    ensures AppendText(ReadFile(s, s.files[i].inode, MAX_FILE_SIZE - 1), text) == Appended(NodeAt(s, i).content, text)
  {
    assert LiveEntry(s.files[i]);
  }

  lemma AppendToFile(s: Fs, i: nat, text: seq<char>)
    requires Good(s) && ROOT_INDEX <= i < |s.files| && s.files[i].kind == Regular
    requires |Appended(NodeAt(s, i).content, text)| <= MAX_TEXT
    ensures var r := WriteFile(s, s.files[i].inode, AppendText(ReadFile(s, s.files[i].inode, MAX_FILE_SIZE - 1), text));
            && r.1 && Good(r.0)
            && Abs(r.0) == Abs(s).(nodes := Abs(s).nodes[PathAt(s.files, i) := File(Appended(NodeAt(s, i).content, text))])
  {
    AppendReads(s, i, text);
    WriteStaysGood(s, i, Appended(NodeAt(s, i).content, text));
  }

  lemma AppendNew(s: Fs, name: string, text: seq<char>)
    requires Good(s) && NameFits(name) && |text| <= MAX_TEXT && !Found(s.files, ByKind(s.cur, name, Regular))
    ensures var r := CreateAndWrite(s, name, text);
            Good(r.0) && (Abs(r.0), r.1) == Append(Abs(s), name, text)
  {
    FileFound(s, name);
    CreateAndWriteSimulates(s, name, text);
  }

  lemma AppendOld(s: Fs, name: string, text: seq<char>, i: nat)
    requires Good(s) && i == First(s.files, ByKind(s.cur, name, Regular)) < |s.files|
    requires Lookup(Abs(s), name).Some? && Lookup(Abs(s), name).value.File?
    requires |Appended(Lookup(Abs(s), name).value.content, text)| < MAX_FILE_SIZE
    ensures var r := AppendOutput(s, name, text);
            Good(r.0) && (Abs(r.0), r.1) == Append(Abs(s), name, text)
  {
    FileFound(s, name);
    AppendToFile(s, i, text);
  }

  lemma AppendSimulates(s: Fs, name: string, text: seq<char>)
    requires Good(s) && Fits(Abs(s), EchoAppend(name, text))
    ensures var r := AppendOutput(s, name, text);
            Good(r.0) && (Abs(r.0), r.1) == Append(Abs(s), name, text)
  {
    FileFound(s, name);
    if Found(s.files, ByKind(s.cur, name, Regular)) {
      AppendOld(s, name, text, First(s.files, ByKind(s.cur, name, Regular)));
    } else {
      AppendNew(s, name, text);
    }
  }

  // ---------- one command, any run ----------

  lemma StepSimulates(s: Fs, c: Command)
    requires Good(s) && Fits(Abs(s), c)
    ensures Simulates(s, c, Execute(s, c))
  {
    match c
    case Touch(name) => MakeSimulates(s, name, Regular);
    case Mkdir(name) => MakeSimulates(s, name, Directory);
    case Cd(name) => CdSimulates(s, name);
    case Rm(name, recursive) => RmSimulates(s, name, recursive);
    case Echo(name, text) => EchoSimulates(s, name, text);
    case EchoAppend(name, text) => AppendSimulates(s, name, text);
  }

  /** The tables after a run of commands, with the replies; it stops being defined only off the contract. */
  ghost function ExecuteAll(s: Fs, cs: seq<Command>): (r: (Fs, seq<Reply>))
    requires Good(s) && RunFits(Abs(s), cs)
    ensures Good(r.0) && (Abs(r.0), r.1) == Run(Abs(s), cs)
    decreases |cs|
  {
    if cs == [] then (s, [])
    else
      var before := ExecuteAll(s, cs[..|cs| - 1]);
      StepSimulates(before.0, cs[|cs| - 1]);
      var last := Execute(before.0, cs[|cs| - 1]);
      (last.0, before.1 + [last.1])
  }
}
