/**
 The file commands of the shell, over the tables. Each is proved against two specifications:
 the function on the tables that it computes, and the step it makes on the tree.
 */
module Shell {
  import opened Limits
  import opened FileNames
  import opened CBuffers
  import opened BkfsState
  import opened FileTable
  import opened BkfsInvariant
  import opened BkfsSound
  import opened BkfsCapacity
  import opened TreeModel
  import opened Abstraction
  import opened ShellState
  import opened RemoveState
  import opened RecursiveRemove
  import opened Simulation
  import opened Paths
  import opened PathStrings
  import opened Bkfs

  ghost predicate Ready(fs: BkFs)
    reads fs, fs.files, fs.inodes, fs.blocks, fs.blockUsed
  {
    fs.Sized() && Good(fs.State())
  }

  /** A command took the tables from `s` to their present state. */
  ghost predicate Executed(fs: BkFs, s: Fs, c: Command, reply: Reply)
    requires Good(s)
    reads fs, fs.files, fs.inodes, fs.blocks, fs.blockUsed
  {
    Ready(fs) && (fs.State(), reply) == Execute(s, c) && (Abs(fs.State()), reply) == Step(Abs(s), c)
  }

  /** What `touch` and `mkdir` have in common. */
  method MakeNamed(fs: BkFs, name: string, kind: Kind) returns (reply: Reply)
    requires fs.Tidy() && NameFits(name)
    modifies fs, fs.files, fs.inodes
    ensures fs.Tidy() && (fs.State(), reply) == MakeEntry(old(fs.State()), name, kind)
  {
    var valid := fs.IsValidFilename(name);
    if !valid { return InvalidName; }
    var taken := fs.FileExistsInCurrentDir(name);
    if taken { return NameTaken; }
    var ok, complaint := fs.FsCreateFile(name, fs.currentInode, kind);
    reply := if ok then Created else CreateFailed(complaint);
  }

  method ExecuteMkfile(fs: BkFs, filename: string) returns (reply: Reply)
    requires Ready(fs) && Fits(Abs(fs.State()), Touch(filename))
    modifies fs, fs.files, fs.inodes
    ensures Executed(fs, old(fs.State()), Touch(filename), reply)
  {
    StepSimulates(fs.State(), Touch(filename));
    reply := MakeNamed(fs, filename, Regular);
  }

  method ExecuteMkdir(fs: BkFs, dirname: string) returns (reply: Reply)
    requires Ready(fs) && Fits(Abs(fs.State()), Mkdir(dirname))
    modifies fs, fs.files, fs.inodes
    ensures Executed(fs, old(fs.State()), Mkdir(dirname), reply)
  {
    StepSimulates(fs.State(), Mkdir(dirname));
    reply := MakeNamed(fs, dirname, Directory);
  }

  /** The three forms of `cd`, on tables in any state. */
  method MoveTo(fs: BkFs, dirname: string) returns (reply: Reply)
    requires fs.Sized()
    modifies fs`currentInode
    ensures fs.Sized() && (fs.State(), reply) == ChangeDir(old(fs.State()), dirname)
  {
    if |dirname| == 0 {
      fs.currentInode := ROOT_INODE;
      return Done;
    }
    if dirname == ".." {
      var i := fs.FindEntry(ByInode(fs.currentInode));
      if i < fs.fileCount {
        fs.currentInode := fs.files[i].parent;
        return Done;
      }
      return AlreadyAtRoot;
    }
    var i := fs.FindEntry(ByKind(fs.currentInode, dirname, Directory));
    if i < fs.fileCount {
      fs.currentInode := fs.files[i].inode;
      return Done;
    }
    return NotFound;
  }

  method ExecuteCd(fs: BkFs, dirname: string) returns (reply: Reply)
    requires Ready(fs)
    modifies fs`currentInode
    ensures Executed(fs, old(fs.State()), Cd(dirname), reply)
  {
    StepSimulates(fs.State(), Cd(dirname));
    reply := MoveTo(fs, dirname);
  }

  /** The tables, with the slots up to `n` that entries have been shifted out of. */
  ghost function TableOf(fs: BkFs, n: nat): Table
    requires fs.Sized() && fs.fileCount <= n <= MAX_FILES
    reads fs, fs.files, fs.inodes, fs.blocks, fs.blockUsed
  {
    Table(fs.State(), fs.files[fs.fileCount..n])
  }

  /** `execute_rm` on any tables, cut off after some turns because it may never end. */
  method RemoveNamed(fs: BkFs, name: string, recursive: bool, turns: nat, ghost n: nat) returns (reply: Option<Reply>)
    requires fs.Tidy() && fs.fileCount <= n <= MAX_FILES
    modifies fs, fs.files, fs.inodes, fs.blockUsed
    ensures fs.Tidy() && fs.fileCount <= n
    ensures match RunRm(old(TableOf(fs, n)), name, recursive, turns)
            case None => reply == None
            case Some(r) => TableOf(fs, n) == r.0 && reply == Some(r.1)
    decreases turns, 1
  {
    var i := fs.FindEntry(ByName(fs.currentInode, name));
    if i == fs.fileCount { return Some(NotFound); }
    if fs.files[i].kind == Directory && !recursive { return Some(RefusedDirectory); }
    if fs.files[i].kind == Directory && recursive {
      var done := RemoveChildren(fs, fs.files[i].inode, turns, n);
      if !done { return None; }
    }
    var ok := DeleteSlotAt(fs, i, n);
    reply := Some(if ok then Deleted else DeleteFailed);
  }

  /** `fs_delete_file` of the inode in slot `i`, which may by now lie past the end of the table. */
  method DeleteSlotAt(fs: BkFs, i: nat, ghost n: nat) returns (ok: bool)
    requires fs.Tidy() && fs.fileCount <= n <= MAX_FILES && i < n
    modifies fs, fs.files, fs.inodes, fs.blockUsed
    ensures fs.Tidy() && fs.fileCount <= n
    ensures (TableOf(fs, n), if ok then Deleted else DeleteFailed) == DeleteSlot(old(TableOf(fs, n)), i)
  {
    ghost var before, slots := TableOf(fs, n), fs.files[..n];
    AllSlots(fs.files[..], fs.fileCount, n);
    assert Slots(before) == slots && slots[i] == fs.files[i];
    ok := fs.FsDeleteFile(fs.files[i].inode);
    forall k | fs.fileCount <= k < n
      ensures fs.files[k] == slots[k]
    {
    }
    assert fs.files[fs.fileCount..n] == slots[fs.fileCount..];
  }

  lemma AllSlots(files: seq<Entry>, count: nat, n: nat)
    requires count <= n <= |files|
    ensures files[..count] + files[count..n] == files[..n]
  {
  }

  /** The scan of the table for the entries of a directory. */
  method RemoveChildren(fs: BkFs, dirInode: nat, turns: nat, ghost n: nat) returns (done: bool)
    requires fs.Tidy() && fs.fileCount <= n <= MAX_FILES
    modifies fs, fs.files, fs.inodes, fs.blockUsed
    ensures fs.Tidy() && fs.fileCount <= n
    ensures match RmChildren(old(TableOf(fs, n)), dirInode, 0, turns)
            case None => !done
            case Some(t) => done && TableOf(fs, n) == t
    decreases turns, 0
  {
    ghost var start := TableOf(fs, n);
    ghost var now := start;
    var j: nat, left: nat := 0, turns;
    while j < fs.fileCount
      invariant left <= turns && fs.Tidy() && fs.fileCount <= n && now == TableOf(fs, n)
      invariant RmChildren(now, dirInode, j, left) == RmChildren(start, dirInode, 0, turns)
      decreases left
    {
      if left == 0 { return false; }
      left := left - 1;
      var next := ScanTurn(fs, dirInode, j, left, n);
      if next == -1 { return false; }
      now := TableOf(fs, n);
      j := next;
    }
    return true;
  }

  /** One turn of the scan: after a call the scan steps back and then on again, so it stays at its slot. */
  method ScanTurn(fs: BkFs, dirInode: nat, j: nat, turns: nat, ghost n: nat) returns (next: int)
    requires fs.Tidy() && j < fs.fileCount <= n <= MAX_FILES
    modifies fs, fs.files, fs.inodes, fs.blockUsed
    ensures fs.Tidy() && fs.fileCount <= n
    ensures var t := old(TableOf(fs, n));
            if t.fs.files[j].parent != dirInode then next == j + 1 && TableOf(fs, n) == t
            else
              match RunRm(t, t.fs.files[j].name, true, turns)
              case None => next == -1
              case Some(u) => next == j && TableOf(fs, n) == u.0
    decreases turns, 2
  {
    if fs.files[j].parent != dirInode { return j + 1; }
    var reply := RemoveNamed(fs, fs.files[j].name, true, turns, n);
    next := if reply == None then -1 else j;
  }

  /** A file or an empty directory: the call ends within one scan of the table. */
  lemma RmEnds(s: Fs, name: string, recursive: bool)
    requires Good(s) && Sound(s) && Fits(Abs(s), Rm(name, recursive))
    ensures var r := RunRm(Table(s, []), name, recursive, |s.files|);
            r.Some? && (r.value.0.fs, r.value.1) == RemoveEntryNamed(s, name, recursive)
  {
    RmTarget(s, name, recursive);
    RmEmpty(s, [], name, recursive, |s.files|);
  }

  method ExecuteRm(fs: BkFs, name: string, recursive: bool) returns (reply: Reply)
    requires Ready(fs) && Fits(Abs(fs.State()), Rm(name, recursive))
    modifies fs, fs.files, fs.inodes, fs.blockUsed
    ensures Executed(fs, old(fs.State()), Rm(name, recursive), reply)
  {
    StepSimulates(fs.State(), Rm(name, recursive));
    RmEnds(fs.State(), name, recursive);
    assert TableOf(fs, fs.fileCount) == Table(fs.State(), []);
    var r := RemoveNamed(fs, name, recursive, fs.fileCount, fs.fileCount);
    reply := r.value;
  }

  /** The end of both redirections when no regular file has the name. */
  method CreateThenWriteFile(fs: BkFs, filename: string, text: seq<char>) returns (reply: Reply)
    requires fs.Tidy() && NameFits(filename) && |text| <= MAX_TEXT
    modifies fs, fs.files, fs.inodes, fs.blocks, fs.blockUsed
    ensures fs.Sized() && (fs.State(), reply) == CreateAndWrite(old(fs.State()), filename, text)
  {
    var ok, complaint := fs.FsCreateFile(filename, fs.currentInode, Regular);
    if !ok { return CreateFailed(complaint); }
    ok := fs.FsWriteFile(fs.files[fs.fileCount - 1].inode, text);
    reply := if ok then Created else CreatedUnwritten;
  }

  method ExecuteRedirectOutput(fs: BkFs, filename: string, text: seq<char>) returns (reply: Reply)
    requires Ready(fs) && Fits(Abs(fs.State()), Echo(filename, text))
    modifies fs, fs.files, fs.inodes, fs.blocks, fs.blockUsed
    ensures Executed(fs, old(fs.State()), Echo(filename, text), reply)
  {
    StepSimulates(fs.State(), Echo(filename, text));
    reply := WriteOrCreate(fs, filename, text);
  }

  method WriteOrCreate(fs: BkFs, filename: string, text: seq<char>) returns (reply: Reply)
    requires fs.Tidy() && NameFits(filename) && |text| <= MAX_TEXT
    modifies fs, fs.files, fs.inodes, fs.blocks, fs.blockUsed
    ensures fs.Sized() && (fs.State(), reply) == RedirectOutput(old(fs.State()), filename, text)
  {
    var i := fs.FindEntry(ByKind(fs.currentInode, filename, Regular));
    if i < fs.fileCount {
      var ok := fs.FsWriteFile(fs.files[i].inode, text);
      return if ok then Done else WriteFailed;
    }
    reply := CreateThenWriteFile(fs, filename, text);
  }

  /** The bytes of a buffer up to a NUL that was put at `n` are those of its first `n` bytes. */
  lemma {:induction false} TerminatedCString(s: seq<char>, n: nat)
    requires n < |s| && s[n] == '\0'
    ensures CString(s) == CString(s[..n])
    decreases n
  {
    if n > 0 && s[0] != '\0' {
      TerminatedCString(s[1..], n - 1);
      assert s[..n][1..] == s[1..][..n - 1];
    }
  }

  /** Read up to 4095 bytes into a buffer and terminate them. */
  method ReadTerminated(fs: BkFs, inodeNum: nat) returns (buffer: array<char>, n: nat)
    requires fs.Tidy() && 1 <= inodeNum <= MAX_INODES
    ensures fresh(buffer) && n < buffer.Length
    ensures buffer[..n] == ReadFile(fs.State(), inodeNum, MAX_FILE_SIZE - 1) && buffer[n] == '\0'
  {
    buffer := new char[MAX_FILE_SIZE];
    ghost var data := ReadFile(fs.State(), inodeNum, MAX_FILE_SIZE - 1);
    n := fs.FsReadFile(inodeNum, buffer, MAX_FILE_SIZE - 1);
    assert buffer[..][..n] == data;
    buffer[n] := '\0';
  }

  /** The second buffer of 4096 bytes: `strcpy` of the bytes read, a newline if they do not end in one, `strcat` of the text. */
  method BuildAppended(fs: BkFs, inodeNum: nat, text: seq<char>) returns (newContent: array<char>)
    requires fs.Tidy() && 1 <= inodeNum <= MAX_INODES && '\0' !in text
    requires |AppendText(ReadFile(fs.State(), inodeNum, MAX_FILE_SIZE - 1), text)| < MAX_FILE_SIZE
    ensures fresh(newContent) && newContent.Length == MAX_FILE_SIZE
    ensures Holds(newContent[..], AppendText(ReadFile(fs.State(), inodeNum, MAX_FILE_SIZE - 1), text))
  {
    var currentContent, bytesRead := ReadTerminated(fs, inodeNum);
    newContent := new char[MAX_FILE_SIZE];
    JoinContent(newContent, currentContent, bytesRead, text);
  }

  method JoinContent(newContent: array<char>, buffer: array<char>, n: nat, text: seq<char>)
    requires newContent != buffer && n < buffer.Length && buffer[n] == '\0' && '\0' !in text
    requires |AppendText(buffer[..n], text)| < newContent.Length
    modifies newContent
    ensures Holds(newContent[..], AppendText(buffer[..n], text))
  {
    ghost var read := buffer[..n];
    TerminatedCString(buffer[..], n);
    assert buffer[..][..n] == read;
    CopyBuffer(newContent, buffer, CString(read));
    if n > 0 && buffer[n - 1] != '\n' {
      StrCat(newContent, "\n", CString(read));
      StrCat(newContent, text, CString(read) + "\n");
    } else {
      assert AppendText(read, text) == CString(read) + text;
      StrCat(newContent, text, CString(read));
    }
  }

  /** `fs_write_file` of the buffer's string, whose length `strlen` finds. */
  method WriteBuffer(fs: BkFs, inodeNum: nat, buffer: array<char>, ghost text: string) returns (ok: bool)
    requires fs.Tidy() && Holds(buffer[..], text) && |text| < MAX_FILE_SIZE
    modifies fs, fs.inodes, fs.blocks, fs.blockUsed
    ensures fs.Tidy() && (fs.State(), ok) == WriteFile(old(fs.State()), inodeNum, text)
  {
    var n := StrLen(buffer, text);
    ok := fs.FsWriteFile(inodeNum, buffer[..n]);
  }

  method ExecuteAppendOutput(fs: BkFs, filename: string, text: seq<char>) returns (reply: Reply)
    requires Ready(fs) && Fits(Abs(fs.State()), EchoAppend(filename, text))
    modifies fs, fs.files, fs.inodes, fs.blocks, fs.blockUsed
    ensures Executed(fs, old(fs.State()), EchoAppend(filename, text), reply)
  {
    StepSimulates(fs.State(), EchoAppend(filename, text));
    AppendFits(fs.State(), filename, text);
    reply := AppendOrCreate(fs, filename, text);
  }

  ghost predicate AppendedFits(s: Fs, filename: string, text: seq<char>)
    requires Shaped(s)
  {
    var i := First(s.files, ByKind(s.cur, filename, Regular));
    i < |s.files| ==> 1 <= s.files[i].inode <= MAX_INODES && |AppendText(ReadFile(s, s.files[i].inode, MAX_FILE_SIZE - 1), text)| < MAX_FILE_SIZE
  }

  lemma AppendFits(s: Fs, filename: string, text: seq<char>)
    requires Good(s) && Fits(Abs(s), EchoAppend(filename, text))
    ensures AppendedFits(s, filename, text)
  {
    FileFound(s, filename);
    var i := First(s.files, ByKind(s.cur, filename, Regular));
    if i < |s.files| {
      assert LiveEntry(s.files[i]);
      AppendReads(s, i, text);
    }
  }

  method AppendOrCreate(fs: BkFs, filename: string, text: seq<char>) returns (reply: Reply)
    requires fs.Tidy() && NameFits(filename) && '\0' !in text && |text| <= MAX_TEXT && AppendedFits(fs.State(), filename, text)
    modifies fs, fs.files, fs.inodes, fs.blocks, fs.blockUsed
    ensures fs.Sized() && (fs.State(), reply) == AppendOutput(old(fs.State()), filename, text)
  {
    var i := fs.FindEntry(ByKind(fs.currentInode, filename, Regular));
    if i < fs.fileCount {
      var ok := AppendTo(fs, fs.files[i].inode, text);
      return if ok then Done else WriteFailed;
    }
    reply := CreateThenWriteFile(fs, filename, text);
  }

  /** Build the new contents and write them back. */
  method AppendTo(fs: BkFs, inodeNum: nat, text: seq<char>) returns (ok: bool)
    requires fs.Tidy() && 1 <= inodeNum <= MAX_INODES && '\0' !in text
    requires |AppendText(ReadFile(fs.State(), inodeNum, MAX_FILE_SIZE - 1), text)| < MAX_FILE_SIZE
    modifies fs, fs.inodes, fs.blocks, fs.blockUsed
    ensures fs.Tidy()
    ensures (fs.State(), ok) ==
            WriteFile(old(fs.State()), inodeNum, AppendText(ReadFile(old(fs.State()), inodeNum, MAX_FILE_SIZE - 1), text))
  {
    ghost var content := AppendText(ReadFile(fs.State(), inodeNum, MAX_FILE_SIZE - 1), text);
    var newContent := BuildAppended(fs, inodeNum, text);
    ok := WriteBuffer(fs, inodeNum, newContent, content);
  }

  /** One command line of the shell, parsed. */
  method ExecuteCommand(fs: BkFs, c: Command) returns (reply: Reply)
    requires Ready(fs) && Fits(Abs(fs.State()), c)
    modifies fs, fs.files, fs.inodes, fs.blocks, fs.blockUsed
    ensures Executed(fs, old(fs.State()), c, reply)
  {
    match c
    case Touch(name) => reply := ExecuteMkfile(fs, name);
    case Mkdir(name) => reply := ExecuteMkdir(fs, name);
    case Cd(name) => reply := ExecuteCd(fs, name);
    case Rm(name, recursive) => reply := ExecuteRm(fs, name, recursive);
    case Echo(name, text) => reply := ExecuteRedirectOutput(fs, name, text);
    case EchoAppend(name, text) => reply := ExecuteAppendOutput(fs, name, text);
  }

  // ---------- pwd and the prompt ----------

  /**
   The `while (inode != 1)` walk, which puts "/name" in front of the path buffer, by way of a second
   buffer, until it reaches the root. It ends because each parent's entry comes earlier in the table.
   */
  method PrependPath(fs: BkFs, path: array<char>, ghost suffix: string)
    requires fs.Sized() && FilesInv(fs.files[..fs.fileCount]) && IsDirectory(fs.files[..fs.fileCount], fs.currentInode)
    requires path.Length == MAX_PATH_LEN && Holds(path[..], suffix)
    requires |Render(DirPath(fs.files[..fs.fileCount], fs.currentInode))| + |suffix| < MAX_PATH_LEN
    modifies path
    ensures Holds(path[..], Render(DirPath(fs.files[..fs.fileCount], fs.currentInode)) + suffix)
  {
    ghost var files := fs.files[..fs.fileCount];
    ghost var whole := Render(DirPath(files, fs.currentInode)) + suffix;
    ghost var text := suffix;
    RootPath(files);
    var inode := fs.currentInode;
    while inode != ROOT_INODE
      invariant IsDirectory(files, inode)
      invariant Render(DirPath(files, inode)) + text == whole && Holds(path[..], text)
      decreases First(files, ByInode(inode))
    {
      var i := fs.FindEntry(ByInode(inode));
      assert files[i].inode == inode && LiveEntry(files[i]);
      WalkUp(files, i, text);
      Prepend(path, fs.files[i].name, text);
      text := "/" + fs.files[i].name + text;
      inode := fs.files[i].parent;
    }
  }

  /** Put a slash and a name in front of the path. */
  method Prepend(path: array<char>, name: string, ghost text: string)
    requires path.Length == MAX_PATH_LEN && Holds(path[..], text)
    requires IsValidName(name) && 1 + |name| + |text| < MAX_PATH_LEN
    modifies path
    ensures Holds(path[..], "/" + name + text)
  {
    var temp := new char[MAX_PATH_LEN];
    StrCpy(temp, "/");
    StrCat(temp, name, "/");
    CatBuffer(temp, path, "/" + name, text);
    CopyBuffer(path, temp, "/" + name + text);
  }

  lemma WalkUp(files: seq<Entry>, i: nat, path: string)
    requires FilesInv(files) && GHOST_ENTRIES <= i < |files| && files[i].inode != ROOT_INODE
    ensures IsDirectory(files, files[i].parent) && First(files, ByInode(files[i].parent)) < i
    ensures Render(PathAt(files, i)) + path == Render(DirPath(files, files[i].parent)) + ("/" + files[i].name + path)
  {
    DirPathRender(files, i);
    assert ParentEarlier(files, i);
    Regroup(Render(DirPath(files, files[i].parent)), files[i].name, path);
  }

  lemma Regroup(up: string, name: string, path: string)
    ensures up + "/" + name + path == up + ("/" + name + path)
  {
  }

  /** The path of the current directory before a suffix, built in a fresh buffer and read back. */
  method PathText(fs: BkFs, suffix: string) returns (text: string)
    requires Ready(fs) && '\0' !in suffix && |Render(Abs(fs.State()).cur)| + |suffix| < MAX_PATH_LEN
    ensures text == Render(Abs(fs.State()).cur) + suffix
  {
    ghost var s := fs.State();
    var path := new char[MAX_PATH_LEN];
    StrCpy(path, suffix);
    PrependPath(fs, path, suffix);
    PathNamesGood(s.files, First(s.files, ByInode(s.cur)));
    RenderHasNoNul(Abs(s).cur);
    var n := StrLen(path, Render(Abs(s).cur) + suffix);
    text := path[..n];
  }

  method ExecutePwd(fs: BkFs) returns (printed: string)
    requires Ready(fs) && |PwdText(Abs(fs.State()).cur)| < MAX_PATH_LEN
    ensures printed == PwdText(Abs(fs.State()).cur)
  {
    printed := PathText(fs, "/");
  }

  method PromptPath(fs: BkFs) returns (printed: string)
    requires Ready(fs) && |Render(Abs(fs.State()).cur)| < MAX_PATH_LEN
    ensures printed == PromptText(Abs(fs.State()).cur)
  {
    AbsAtRoot(fs.State());
    printed := "~";
    if fs.currentInode != ROOT_INODE {
      var path := PathText(fs, "");
      printed := printed + path;
    }
  }
}
