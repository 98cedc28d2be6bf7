/** The shell's file commands as functions on the tables, branch by branch as in the kernel. */
module ShellState {
  import opened Limits
  import opened FileNames
  import opened BkfsState
  import opened FileTable
  import opened BkfsInvariant
  import opened TreeModel

  function MakeEntry(s: Fs, name: string, kind: Kind): (Fs, Reply)
    requires Shaped(s)
  {
    if !IsValidName(name) then (s, InvalidName)
    else if Found(s.files, ByName(s.cur, name)) then (s, NameTaken)
    else
      var r := CreateFile(s, name, s.cur, kind);
      (r.0, if r.1 then Created else CreateFailed(NoComplaint))
  }

  function WithDir(s: Fs, dir: nat): Fs {
    Fs(s.files, dir, s.inodes, s.freeInodes, s.used, s.freeBlocks, s.blocks)
  }

  function ChangeDir(s: Fs, name: string): (Fs, Reply) {
    if name == "" then (WithDir(s, ROOT_INODE), Done)
    else if name == ".." then
      var i := First(s.files, ByInode(s.cur));
      if i < |s.files| then (WithDir(s, s.files[i].parent), Done) else (s, AlreadyAtRoot)
    else
      var i := First(s.files, ByKind(s.cur, name, Directory));
      if i < |s.files| then (WithDir(s, s.files[i].inode), Done) else (s, NotFound)
  }

  /** `rm -rf` recurses into entries below the directory; here there are none. */
  ghost predicate RemovesNoSubtree(s: Fs, name: string, recursive: bool) {
    var i := First(s.files, ByName(s.cur, name));
    recursive && i < |s.files| && s.files[i].kind == Directory ==> Childless(s.files, s.files[i].inode)
  }

  function RemoveEntryNamed(s: Fs, name: string, recursive: bool): (Fs, Reply)
    requires Shaped(s)
  {
    var i := First(s.files, ByName(s.cur, name));
    if i == |s.files| then (s, NotFound)
    else if s.files[i].kind == Directory && !recursive then (s, RefusedDirectory)
    else
      var r := DeleteFile(s, s.files[i].inode);
      (r.0, if r.1 then Deleted else DeleteFailed)
  }

  /** Write to the entry that `fs_create_file` has just put last in the table. */
  function CreateAndWrite(s: Fs, name: string, text: seq<char>): (Fs, Reply)
    requires Shaped(s)
  {
    var r := CreateFile(s, name, s.cur, Regular);
    if r.1 && Shaped(r.0) then
      var w := WriteFile(r.0, r.0.files[|r.0.files| - 1].inode, text);
      (w.0, if w.1 then Created else CreatedUnwritten)
    else (r.0, CreateFailed(ComplaintAbout(name, Found(s.files, ByName(s.cur, name)))))
  }

  function RedirectOutput(s: Fs, name: string, text: seq<char>): (Fs, Reply)
    requires Shaped(s)
  {
    var i := First(s.files, ByKind(s.cur, name, Regular));
    if i < |s.files| then
      var w := WriteFile(s, s.files[i].inode, text);
      (w.0, if w.1 then Done else WriteFailed)
    else CreateAndWrite(s, name, text)
  }

  function AppendOutput(s: Fs, name: string, text: seq<char>): (Fs, Reply)
    requires Shaped(s)
  {
    var i := First(s.files, ByKind(s.cur, name, Regular));
    if i < |s.files| then
      var read := ReadFile(s, s.files[i].inode, MAX_FILE_SIZE - 1);
      var w := WriteFile(s, s.files[i].inode, AppendText(read, text));
      (w.0, if w.1 then Done else WriteFailed)
    else CreateAndWrite(s, name, text)
  }

  function Execute(s: Fs, c: Command): (Fs, Reply)
    requires Shaped(s)
  {
    match c
    case Touch(name) => MakeEntry(s, name, Regular)
    case Mkdir(name) => MakeEntry(s, name, Directory)
    case Cd(name) => ChangeDir(s, name)
    case Rm(name, recursive) => RemoveEntryNamed(s, name, recursive)
    case Echo(name, text) => RedirectOutput(s, name, text)
    case EchoAppend(name, text) => AppendOutput(s, name, text)
  }
}
