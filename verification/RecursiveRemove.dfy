/**
 What `rm -rf` does to directories. The kernel removes a child by calling itself with the child's name,
 but the call looks that name up in the current directory, not in the child's.
 */
module RecursiveRemove {
  import opened Limits
  import opened FileNames
  import opened BkfsState
  import opened FileTable
  import opened BkfsInvariant
  import opened BkfsSound
  import opened Paths
  import opened TreeModel
  import opened ShellState
  import opened RemoveState
  import opened Simulation
  import opened BootState
  import opened Boot
  import opened BootTable

  /** The first entry below a directory, where the scan of its entries stops. */
  function FirstChild(files: seq<Entry>, dir: nat, i: nat): (r: nat)
    requires i <= |files|
    ensures i <= r <= |files|
    ensures r < |files| ==> files[r].parent == dir
    ensures forall j :: i <= j < r ==> files[j].parent != dir
    decreases |files| - i
  {
    if i == |files| || files[i].parent == dir then i else FirstChild(files, dir, i + 1)
  }

  lemma FirstChildIs(files: seq<Entry>, dir: nat, r: nat)
    requires r < |files| && files[r].parent == dir && forall j :: 0 <= j < r ==> files[j].parent != dir
    ensures FirstChild(files, dir, 0) == r
  {
  }

  /** The scan passes the entries before the first child, one a turn. */
  lemma {:induction false} ScanToFirst(t: Table, dir: nat, j: nat, turns: nat)
    requires Sound(t.fs) && j <= FirstChild(t.fs.files, dir, 0)
    ensures var c := FirstChild(t.fs.files, dir, 0);
            RmChildren(t, dir, j, turns) == if turns < c - j then None else RmChildren(t, dir, c, turns - (c - j))
    decreases turns
  {
    if j < FirstChild(t.fs.files, dir, 0) && turns > 0 {
      ScanToFirst(t, dir, j + 1, turns - 1);
    }
  }

  // ---------- an empty directory ----------

  /** A directory without entries, or a file, is removed as a caller expects: that is `RemoveEntryNamed`. */
  lemma RmEmpty(s: Fs, stale: seq<Entry>, name: string, recursive: bool, turns: nat)
    requires Sound(s) && RemovesNoSubtree(s, name, recursive) && turns >= |s.files|
    ensures var r := RunRm(Table(s, stale), name, recursive, turns);
            r.Some? && (r.value.0.fs, r.value.1) == RemoveEntryNamed(s, name, recursive)
  {
    var i := First(s.files, ByName(s.cur, name));
    if i < |s.files| && s.files[i].kind == Directory && recursive {
      ScanToFirst(Table(s, stale), s.files[i].inode, 0, turns);
    }
  }

  // ---------- a directory with entries ----------

  /** If the current directory has no entry of the first child's name, the scan stays at that child for ever. */
  lemma {:induction false} StuckAt(t: Table, dir: nat, c: nat, turns: nat)
    requires Sound(t.fs) && c < |t.fs.files| && t.fs.files[c].parent == dir
    requires !Found(t.fs.files, ByName(t.fs.cur, t.fs.files[c].name))
    ensures RmChildren(t, dir, c, turns) == None
    decreases turns
  {
    if turns > 0 {
      StuckAt(t, dir, c, turns - 1);
    }
  }

  lemma RmHangs(s: Fs, stale: seq<Entry>, name: string, turns: nat)
    requires Sound(s) && Found(s.files, ByName(s.cur, name))
    requires var d := s.files[First(s.files, ByName(s.cur, name))];
             d.kind == Directory && !Childless(s.files, d.inode) &&
             !Found(s.files, ByName(s.cur, s.files[FirstChild(s.files, d.inode, 0)].name))
    ensures RunRm(Table(s, stale), name, true, turns) == None
  {
    var dir := s.files[First(s.files, ByName(s.cur, name))].inode;
    var c := FirstChild(s.files, dir, 0);
    ScanToFirst(Table(s, stale), dir, 0, turns);
    if turns >= c {
      StuckAt(Table(s, stale), dir, c, turns - c);
    }
  }

  /** Entry `k`, of the current directory and without entries of its own, is no longer in the table. */
  ghost predicate Lost(s: Fs, k: nat, u: Fs) {
    && ROOT_INDEX < k < |s.files| && s.files[k].parent == s.cur && Childless(s.files, s.files[k].inode)
    && s.files[k] !in u.files
  }

  lemma DeletedIsLost(t: Table, k: nat)
    requires Inv(t.fs) && ROOT_INDEX < k < |t.fs.files|
    requires t.fs.files[k].parent == t.fs.cur && Childless(t.fs.files, t.fs.files[k].inode)
    ensures Sound(t.fs) && Lost(t.fs, k, DeleteSlot(t, k).0.fs)
  {
    InvIsSound(t.fs);
    var files := t.fs.files;
    FirstOfInode(files, k);
    assert LiveEntry(files[k]);
    RemovedAt(files, k);
    forall i | 0 <= i < |files| - 1
      ensures RemoveAt(files, k)[i] != files[k]
    {
      if i >= GHOST_ENTRIES {
        InodesDiffer(files, if i < k then i else i + 1, k);
      }
    }
  }

  /** A call for a file or an empty directory loses it. */
  lemma TargetIsLost(t: Table, name: string, turns: nat)
    requires Inv(t.fs) && Sound(t.fs) && Found(t.fs.files, ByName(t.fs.cur, name))
    requires RemovesNoSubtree(t.fs, name, true) && RunRm(t, name, true, turns).Some?
    ensures exists k :: Lost(t.fs, k, RunRm(t, name, true, turns).value.0.fs)
  {
    var files := t.fs.files;
    var i := First(files, ByName(t.fs.cur, name));
    FindByName(files, t.fs.cur, name);
    if files[i].kind == Regular {
      FilesAreChildless(t.fs, i);
    } else {
      assert files[ROOT_INDEX].parent == ROOT_INODE;
      ScanToFirst(t, files[i].inode, 0, turns);
    }
    DeletedIsLost(t, i);
    assert Lost(t.fs, i, RunRm(t, name, true, turns).value.0.fs);
  }

  lemma LostStays(s: Fs, k: nat, u: Fs, v: Fs)
    requires Lost(s, k, u) && Within(v.files, u.files)
    ensures Lost(s, k, v)
  {
  }

  /** An ending call for a directory with entries: the scan ends too, and the slot that the call held is deleted. */
  lemma EndedCall(t: Table, name: string, turns: nat)
    requires Sound(t.fs) && Found(t.fs.files, ByName(t.fs.cur, name))
    requires !RemovesNoSubtree(t.fs, name, true) && RunRm(t, name, true, turns).Some?
    ensures var dir := t.fs.files[First(t.fs.files, ByName(t.fs.cur, name))].inode;
            var c := FirstChild(t.fs.files, dir, 0);
            && c < |t.fs.files| && c <= turns && RmChildren(t, dir, c, turns - c).Some?
            && Within(RunRm(t, name, true, turns).value.0.fs.files, RmChildren(t, dir, c, turns - c).value.fs.files)
  {
    ScanToFirst(t, t.fs.files[First(t.fs.files, ByName(t.fs.cur, name))].inode, 0, turns);
  }

  /**
   Whatever the name that an ending `rm -rf` was given, the first thing it deletes is an entry of the current
   directory that has no entries: names lead from directory to directory until one is reached.
   */
  lemma {:induction false} FirstVictim(t: Table, name: string, turns: nat)
    requires Inv(t.fs) && Sound(t.fs) && Found(t.fs.files, ByName(t.fs.cur, name))
    requires RunRm(t, name, true, turns).Some?
    ensures exists k :: Lost(t.fs, k, RunRm(t, name, true, turns).value.0.fs)
    decreases turns, 1
  {
    if RemovesNoSubtree(t.fs, name, true) {
      TargetIsLost(t, name, turns);
    } else {
      EndedCall(t, name, turns);
      var dir := t.fs.files[First(t.fs.files, ByName(t.fs.cur, name))].inode;
      var c := FirstChild(t.fs.files, dir, 0);
      VictimBelow(t, dir, c, turns - c);
      var k :| Lost(t.fs, k, RmChildren(t, dir, c, turns - c).value.fs);
      LostStays(t.fs, k, RmChildren(t, dir, c, turns - c).value.fs, RunRm(t, name, true, turns).value.0.fs);
    }
  }

  /** The call for the first child loses an entry of the current directory, and the scan goes on without it. */
  lemma {:induction false} VictimBelow(t: Table, dir: nat, c: nat, turns: nat)
    requires Inv(t.fs) && Sound(t.fs) && c < |t.fs.files| && t.fs.files[c].parent == dir
    requires RmChildren(t, dir, c, turns).Some?
    ensures exists k :: Lost(t.fs, k, RmChildren(t, dir, c, turns).value.fs)
    decreases turns, 0
  {
    var name := t.fs.files[c].name;
    if !Found(t.fs.files, ByName(t.fs.cur, name)) {
      StuckAt(t, dir, c, turns);
    } else {
      FirstVictim(t, name, turns - 1);
      var k :| Lost(t.fs, k, RunRm(t, name, true, turns - 1).value.0.fs);
      LostStays(t.fs, k, RunRm(t, name, true, turns - 1).value.0.fs, RmChildren(t, dir, c, turns).value.fs);
    }
  }

  // ---------- when `rm -rf` does what it is asked ----------

  /** Every entry of the current directory but `i` is still there. */
  ghost predicate Spared(s: Fs, i: nat, u: Fs) {
    forall k :: 0 <= k < |s.files| && s.files[k].parent == s.cur && k != i ==> s.files[k] in u.files
  }

  ghost predicate EndsSparing(s: Fs, name: string, turns: nat)
    requires Sound(s)
  {
    var r := RunRm(Table(s, []), name, true, turns);
    r.Some? && Spared(s, First(s.files, ByName(s.cur, name)), r.value.0.fs)
  }

  lemma EmptySpares(s: Fs, name: string)
    requires Inv(s) && Sound(s) && Found(s.files, ByName(s.cur, name)) && RemovesNoSubtree(s, name, true)
    ensures EndsSparing(s, name, |s.files|)
  {
    RmEmpty(s, [], name, true, |s.files|);
    var i := First(s.files, ByName(s.cur, name));
    FindByName(s.files, s.cur, name);
    assert LiveEntry(s.files[i]);
    FirstOfInode(s.files, i);
    RemovedAt(s.files, i);
    forall k | 0 <= k < |s.files| && k != i
      ensures s.files[k] in RemoveAt(s.files, i)
    {
      assert s.files[k] == RemoveAt(s.files, i)[if k < i then k else k - 1];
    }
  }

  /**
   `rm -rf` of a directory ends and deletes no other entry of the current directory if and only if the
   directory is empty. On any other it never ends, or it has lost an entry that is outside the directory.
   */
  lemma RmSparesIff(s: Fs, name: string)
    requires Inv(s) && Found(s.files, ByName(s.cur, name))
    requires s.files[First(s.files, ByName(s.cur, name))].kind == Directory
    ensures Sound(s)
    ensures var d := First(s.files, ByName(s.cur, name));
            (exists turns: nat :: EndsSparing(s, name, turns)) <==> Childless(s.files, s.files[d].inode)
    ensures var d := First(s.files, ByName(s.cur, name));
            !Childless(s.files, s.files[d].inode) ==>
              forall turns: nat :: var r := RunRm(Table(s, []), name, true, turns);
                                   r.Some? ==> exists k :: k != d && Lost(s, k, r.value.0.fs)
  {
    InvIsSound(s);
    var d := First(s.files, ByName(s.cur, name));
    if Childless(s.files, s.files[d].inode) {
      EmptySpares(s, name);
    } else {
      forall turns: nat | RunRm(Table(s, []), name, true, turns).Some?
        ensures exists k :: k != d && Lost(s, k, RunRm(Table(s, []), name, true, turns).value.0.fs)
        ensures !EndsSparing(s, name, turns)
      {
        FirstVictim(Table(s, []), name, turns);
        var k :| Lost(s, k, RunRm(Table(s, []), name, true, turns).value.0.fs);
        assert k != d;
      }
    }
  }

  // ---------- a run that ends all the same ----------

  lemma {:induction false} ScanPasses(t: Table, dir: nat, j: nat, turns: nat)
    requires Sound(t.fs) && j <= |t.fs.files| && turns >= |t.fs.files| - j
    requires forall k :: j <= k < |t.fs.files| ==> t.fs.files[k].parent != dir
    ensures RmChildren(t, dir, j, turns) == Some(t)
    decreases turns
  {
    if j < |t.fs.files| {
      ScanPasses(t, dir, j + 1, turns - 1);
    }
  }

  /** The last entry is the only one below the directory before it, and is called like file `r` beside the directory. */
  ghost predicate Namesake(s: Fs, r: nat) {
    var i := |s.files| - 2;
    && ROOT_INDEX < r < i && s.files[i].kind == Directory && s.files[i].parent == s.cur
    && s.files[r] == Entry(s.files[i + 1].name, s.files[r].inode, s.cur, Regular)
    && s.files[i + 1].parent == s.files[i].inode
    && (forall j :: 0 <= j <= i ==> s.files[j].parent != s.files[i].inode)
  }

  /** The call for the child deletes `r`, so that the child moves down by one and the scan, staying where it was, ends. */
  lemma ChildSkipped(s: Fs, r: nat, turns: nat)
    requires Inv(s) && Sound(s) && Namesake(s, r) && turns >= |s.files|
    ensures RmChildren(Table(s, []), s.files[|s.files| - 2].inode, 0, turns) == Some(DeleteSlot(Table(s, []), r).0)
    ensures DeleteSlot(Table(s, []), r).0.fs.files == RemoveAt(s.files, r)
  {
    var t, dir, c := Table(s, []), s.files[|s.files| - 2].inode, |s.files| - 1;
    FirstChildIs(s.files, dir, c);
    ScanToFirst(t, dir, 0, turns);
    FoundByItsName(s, r);
    FirstOfInode(s.files, r);
    assert LiveEntry(s.files[r]);
    ScanPasses(DeleteSlot(t, r).0, dir, c, turns - c - 1);
  }

  lemma FoundByItsName(s: Fs, i: nat)
    requires Inv(s) && ROOT_INDEX < i < |s.files| && s.files[i].parent == s.cur
    ensures First(s.files, ByName(s.cur, s.files[i].name)) == i
  {
    FindByName(s.files, s.cur, s.files[i].name);
    assert Matches(ByName(s.cur, s.files[i].name), s.files[i]);
  }

  /** With `r` gone, the slot before the last holds what was the last entry. */
  lemma LastDeleted(files: seq<Entry>, u: Table, r: nat)
    requires FilesInv(files) && ROOT_INDEX < r < |files| - 2
    requires Sound(u.fs) && u.fs.files == RemoveAt(files, r)
    ensures var d := DeleteSlot(u, |files| - 2);
            d.1 == Deleted && d.0.fs.files == files[..r] + files[r + 1..|files| - 1]
  {
    var i := |files| - 2;
    RemovedAt(files, r);
    LastInode(files, r);
    assert Slots(u)[i] == files[i + 1];
    assert LiveEntry(files[i + 1]);
    assert RemoveAt(u.fs.files, i) == files[..r] + files[r + 1..i + 1];
  }

  /** The slot that the call held on to now has the child, which is deleted in place of the directory. */
  lemma RmTakesChild(s: Fs, r: nat, turns: nat)
    requires Inv(s) && Sound(s) && Namesake(s, r) && turns >= |s.files|
    ensures var i := |s.files| - 2;
            var run := RunRm(Table(s, []), s.files[i].name, true, turns);
            && run.Some? && run.value.1 == Deleted
            && run.value.0.fs.files == s.files[..r] + s.files[r + 1..i + 1]
  {
    ChildSkipped(s, r, turns);
    FoundByItsName(s, |s.files| - 2);
    LastDeleted(s.files, DeleteSlot(Table(s, []), r).0, r);
  }

  lemma LastInode(files: seq<Entry>, r: nat)
    requires FilesInv(files) && ROOT_INDEX <= r < |files| - 1
    ensures First(RemoveAt(files, r), ByInode(files[|files| - 1].inode)) == |files| - 2
  {
    FirstOfInode(files, |files| - 1);
    InodesDiffer(files, r, |files| - 1);
    FirstRemove(files, r, ByInode(files[|files| - 1].inode));
  }

  /** `mkdir dir`, `cd dir`, `touch file`, `cd ..` */
  function InNewDirectory(s: Fs, dir: string, file: string): Fs
    requires Sound(s)
  {
    CreateSound(s, dir, s.cur, Directory);
    var s2 := Execute(Execute(s, Mkdir(dir)).0, Cd(dir)).0;
    CreateSound(s2, file, s2.cur, Regular);
    Execute(Execute(s2, Touch(file)).0, Cd("..")).0
  }

  /** An inode number without an entry is no entry's parent. */
  lemma NobodyBelow(files: seq<Entry>, x: nat)
    requires FilesInv(files) && !Found(files, ByInode(x)) && x > 0
    ensures forall j :: 0 <= j < |files| ==> files[j].parent != x
  {
    forall j | 0 <= j < |files|
      ensures files[j].parent != x
    {
      if j > ROOT_INDEX {
        assert ParentEarlier(files, j);
      } else if j == ROOT_INDEX {
        RootPath(files);
      }
    }
  }

  /** A new directory has a new inode number, and nothing below it. */
  lemma NewInode(s: Fs, e: Entry)
    requires Inv(s) && |s.files| < MAX_FILES && LowestFreeInode(s.inodes) < MAX_INODES
    requires e.inode == LowestFreeInode(s.inodes) + 1 && e.parent == s.cur
    ensures First(s.files + [e], ByInode(e.inode)) == |s.files|
    ensures forall j :: 0 <= j <= |s.files| ==> (s.files + [e])[j].parent != e.inode
  {
    assert SlotOk(s.files, s.inodes, e.inode - 1);
    NobodyBelow(s.files, e.inode);
    FirstAppend(s.files, e, ByInode(e.inode));
  }

  lemma MakeNew(s: Fs, name: string, kind: Kind)
    requires Good(s) && Creatable(s, name) && |name| <= MAX_NAME
    ensures var e, r := Entry(name, LowestFreeInode(s.inodes) + 1, s.cur, kind), CreateFile(s, name, s.cur, kind);
            && MakeEntry(s, name, kind) == (r.0, Created)
            && Good(r.0) && r.0.files == s.files + [e] && r.0.cur == s.cur && 1 <= e.inode <= MAX_INODES
  {
    CreateStaysGood(s, name, kind);
    CreateSucceeds(s, name, s.cur, kind);
  }

  lemma EnterNew(s: Fs, t: Fs, e: Entry)
    requires Good(t) && t.files == s.files + [e] && t.cur == s.cur == e.parent && e.kind == Directory
    requires !Found(s.files, ByName(s.cur, e.name)) && e.name != "" && e.name != ".."
    requires First(t.files, ByInode(e.inode)) == |s.files| >= GHOST_ENTRIES
    ensures ChangeDir(t, e.name).0 == WithDir(t, e.inode) && Good(WithDir(t, e.inode))
  {
    FirstAppend(s.files, e, ByKind(s.cur, e.name, Directory));
    MovedDir(t, e.inode);
  }

  /** `mkdir` and `cd` of a new name: the current directory is new, and nothing is below it. */
  lemma MakeAndEnter(s: Fs, dir: string)
    requires Good(s) && Creatable(s, dir) && |dir| <= MAX_NAME && dir != ".."
    ensures Sound(s)
    ensures var t := Execute(s, Mkdir(dir)).0;
            && t.files == s.files + [Entry(dir, LowestFreeInode(s.inodes) + 1, s.cur, Directory)]
            && Execute(t, Cd(dir)).0 == WithDir(t, LowestFreeInode(s.inodes) + 1)
            && Good(WithDir(t, LowestFreeInode(s.inodes) + 1))
            && First(t.files, ByInode(LowestFreeInode(s.inodes) + 1)) == |s.files|
            && (forall j :: 0 <= j <= |s.files| ==> t.files[j].parent != LowestFreeInode(s.inodes) + 1)
  {
    InvIsSound(s);
    MakeNew(s, dir, Directory);
    var e := Entry(dir, LowestFreeInode(s.inodes) + 1, s.cur, Directory);
    NewInode(s, e);
    EnterNew(s, CreateFile(s, dir, s.cur, Directory).0, e);
  }

  /** `touch` there and `cd ..`. */
  lemma TouchAndLeave(t: Fs, file: string)
    requires Good(t) && IsValidName(file) && |file| <= MAX_NAME && |t.files| < MAX_FILES
    requires First(t.files, ByInode(t.cur)) == |t.files| - 1
    requires forall j :: 0 <= j < |t.files| ==> t.files[j].parent != t.cur
    ensures Sound(t)
    ensures var u := Execute(t, Touch(file)).0;
            && u.files == t.files + [Entry(file, LowestFreeInode(t.inodes) + 1, t.cur, Regular)]
            && Execute(u, Cd("..")).0 == WithDir(u, t.files[|t.files| - 1].parent)
            && Good(WithDir(u, t.files[|t.files| - 1].parent))
  {
    InvIsSound(t);
    MakeNew(t, file, Regular);
    var e := Entry(file, LowestFreeInode(t.inodes) + 1, t.cur, Regular);
    FirstAppend(t.files, e, ByInode(t.cur));
    CdUp(CreateFile(t, file, t.cur, Regular).0);
  }

  lemma NewDirectory(s: Fs, dir: string, file: string)
    requires Good(s) && Creatable(s, dir) && |dir| <= MAX_NAME && dir != ".." && |s.files| + 2 <= MAX_FILES
    requires IsValidName(file) && |file| <= MAX_NAME
    ensures Sound(s)
    ensures var x, t := LowestFreeInode(s.inodes) + 1, InNewDirectory(s, dir, file);
            && Good(t) && t.cur == s.cur && |t.files| == |s.files| + 2
            && (forall j :: 0 <= j <= |s.files| ==> t.files[j].parent != x)
            && exists y: nat :: t.files == s.files + [Entry(dir, x, s.cur, Directory), Entry(file, y, x, Regular)]
  {
    MakeAndEnter(s, dir);
    var t2 := Execute(Execute(s, Mkdir(dir)).0, Cd(dir)).0;
    TouchAndLeave(t2, file);
    var x, y := LowestFreeInode(s.inodes) + 1, LowestFreeInode(t2.inodes) + 1;
    assert InNewDirectory(s, dir, file).files == s.files + [Entry(dir, x, s.cur, Directory), Entry(file, y, x, Regular)];
  }

  lemma IsNamesake(s: Fs, t: Fs, d: Entry, c: Entry, r: nat)
    requires t.files == s.files + [d, c] && t.cur == s.cur
    requires d.kind == Directory && d.parent == s.cur && c.parent == d.inode
    requires forall j :: 0 <= j <= |s.files| ==> t.files[j].parent != d.inode
    requires ROOT_INDEX < r < |s.files| && s.files[r].parent == s.cur && s.files[r].kind == Regular && s.files[r].name == c.name
    ensures Namesake(t, r) && t.files[|t.files| - 2] == d
    ensures t.files[..r] + t.files[r + 1..|t.files| - 1] == s.files[..r] + s.files[r + 1..] + [d]
  {
  }

  /**
   `t` is `s` with a new directory and in it a new file called like entry `r`. `rm -rf` of that directory
   then ends with the message "deleted" and leaves what `s` had but for entry `r`, and the directory.
   */
  ghost predicate LosesNamesake(s: Fs, t: Fs, dir: string, r: nat, turns: nat)
    requires r < |s.files|
  {
    var made := Entry(dir, LowestFreeInode(s.inodes) + 1, s.cur, Directory);
    && Good(t) && Sound(t) && t.cur == s.cur && |t.files| == |s.files| + 2 && t.files[..|s.files| + 1] == s.files + [made]
    && t.files[|s.files| + 1].name == s.files[r].name && t.files[|s.files| + 1].parent == made.inode
    && (var run := RunRm(Table(t, []), dir, true, turns);
        && run.Some? && run.value.1 == Deleted
        && run.value.0.fs.files == s.files[..r] + s.files[r + 1..] + [made])
  }

  /**
   In any state, make a directory with one new file that is called like a file beside the directory, and remove
   it with `rm -rf`. The message is "deleted", but the directory is still there: gone are the file beside it
   and the new one. On a freshly booted machine "fetch" in the root directory is such a file.
   */
  lemma RmLosesNamesake(s: Fs, dir: string, r: nat, turns: nat)
    requires Good(s) && Creatable(s, dir) && |dir| <= MAX_NAME && dir != ".." && |s.files| + 2 <= MAX_FILES
    requires ROOT_INDEX < r < |s.files| && s.files[r].parent == s.cur && s.files[r].kind == Regular
    requires turns >= |s.files| + 2
    ensures Sound(s)
    ensures LosesNamesake(s, InNewDirectory(s, dir, s.files[r].name), dir, r, turns)
  {
    assert LiveEntry(s.files[r]);
    NewDirectory(s, dir, s.files[r].name);
    var x, t := LowestFreeInode(s.inodes) + 1, InNewDirectory(s, dir, s.files[r].name);
    var y: nat :| t.files == s.files + [Entry(dir, x, s.cur, Directory), Entry(s.files[r].name, y, x, Regular)];
    IsNamesake(s, t, Entry(dir, x, s.cur, Directory), Entry(s.files[r].name, y, x, Regular), r);
    InvIsSound(t);
    RmTakesChild(t, r, turns);
  }

  // ---------- on a freshly booted machine ----------

  lemma DevFirst(b: Names, s: Fs)
    requires NamesOk(b) && s == BootFs(b)
    ensures |s.files| == 26
    ensures FirstChild(s.files, s.files[9].inode, 0) == 13
    ensures !Found(s.files, ByName(ROOT_INODE, s.files[13].name))
  {
    BootEntries(b, s);
    DevInode(b, s);
    FirstChildIs(s.files, s.files[9].inode, 13);
    NotInRoot(b, s.files, b.dev[0]);
  }

  lemma DevEntry(b: Names, s: Fs)
    requires NamesOk(b) && s == BootFs(b)
    ensures |s.files| == 26 && First(s.files, ByName(s.cur, "dev")) == 9 && s.files[9].kind == Directory
  {
    BootEntries(b, s);
    assert RootNames(b)[4] == "dev";
    assert forall i :: 5 <= i < 9 ==> s.files[i].name == RootNames(b)[i - 5] != RootNames(b)[4];
    assert forall i :: 0 <= i < 5 ==> s.files[i] == GHOST;
    FirstUnique(s.files, ByName(s.cur, "dev"), 9);
  }

  /** On a freshly booted machine `rm -rf dev` never ends: its first entry is "sda", which the root lacks. */
  lemma RmDevHangs(b: Names, turns: nat)
    requires NamesOk(b)
    ensures Sound(BootFs(b)) && RunRm(Table(BootFs(b), []), "dev", true, turns) == None
  {
    var s := BootFs(b);
    BootEntries(b, s);
    InvIsSound(s);
    DevFirst(b, s);
    DevEntry(b, s);
    RmHangs(s, [], "dev", turns);
  }
  lemma BootNewName(b: Names, s: Fs, dir: string)
    requires NamesOk(b) && s == BootFs(b) && Alphanumeric(dir) && dir !in RootNames(b)
    ensures Good(s) && Creatable(s, dir) && dir != ".." && |s.files| == 26
    ensures s.files[12].name == "fetch" && s.files[12].parent == s.cur && s.files[12].kind == Regular
  {
    BootEntries(b, s);
    DevInode(b, s);
    AlphanumericIsValid(dir);
    NotInRoot(b, s.files, dir);
    assert RootNames(b)[7] == "fetch";
    assert dir[0] != ".."[0];
  }

  /** So after boot `mkdir d`, `cd d`, `touch fetch`, `cd ..`, `rm -rf d` deletes the root's "fetch" and leaves "d". */
  lemma BootRmLosesFetch(b: Names, dir: string, turns: nat)
    requires NamesOk(b) && Alphanumeric(dir) && |dir| <= MAX_NAME && dir !in RootNames(b) && turns >= 28
    ensures var s := BootFs(b);
            && Good(s) && Sound(s) && |s.files| == 26
            && s.files[12].name == "fetch" && s.files[12].parent == s.cur && s.files[12].kind == Regular
            && LosesNamesake(s, InNewDirectory(s, dir, "fetch"), dir, 12, turns)
  {
    BootNewName(b, BootFs(b), dir);
    RmLosesNamesake(BootFs(b), dir, 12, turns);
  }
}
