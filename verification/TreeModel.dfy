/**
 What a user of the shell sees: a tree of named directories and files, keyed by path, and a
 current directory. No inode numbers, blocks, tables or counters appear here.
 */
module TreeModel {
  import opened Limits
  import opened FileNames

  type Path = seq<string>

  datatype Node = Dir | File(content: seq<char>)

  datatype Tree = Tree(nodes: map<Path, Node>, cur: Path)

  datatype Option<T> = None | Some(value: T)

  // Room for 128 entries, less the five ghosts; the root has one of them.
  const MAX_NODES := MAX_FILES - GHOST_ENTRIES

  /** What a command prints. */
  datatype Reply =
    | Done                 // no message: `cd` entered, or `echo` wrote an existing file
    | Created              // "created", or "File created and text written"
    | CreatedUnwritten     // "File created but failed to write text"
    | InvalidName
    | NameTaken
    | CreateFailed(before: Complaint)  // "Failed", after a line of `fs_create_file` if it printed one
    | WriteFailed
    | NotFound
    | RefusedDirectory     // "Cannot remove directory"
    | Deleted
    | DeleteFailed
    | AlreadyAtRoot

  datatype Command =
    | Touch(name: string)
    | Mkdir(name: string)
    | Cd(name: string)
    | Rm(name: string, recursive: bool)
    | Echo(name: string, text: seq<char>)        // echo text > name
    | EchoAppend(name: string, text: seq<char>)  // echo text >> name

  /** The entry of a name in the current directory. The root directory lists itself as "root". */
  function Lookup(t: Tree, name: string): Option<Node> {
    if t.cur == [] && name == "root" then Some(Dir)
    else if t.cur + [name] in t.nodes then Some(t.nodes[t.cur + [name]])
    else None
  }

  function Parent(p: Path): Path {
    if p == [] then [] else p[..|p| - 1]
  }

  predicate HasChildren(t: Tree, dir: Path) {
    exists p :: p in t.nodes && p != [] && Parent(p) == dir
  }

  function Put(t: Tree, name: string, node: Node): Tree {
    t.(nodes := t.nodes[t.cur + [name] := node])
  }

  // ---------- touch, mkdir ----------

  predicate CanCreate(t: Tree, name: string) {
    IsValidName(name) && Lookup(t, name).None? && |t.nodes| < MAX_NODES
  }

  function Make(t: Tree, name: string, node: Node): (Tree, Reply) {
    if !IsValidName(name) then (t, InvalidName)
    else if Lookup(t, name).Some? then (t, NameTaken)
    else if |t.nodes| >= MAX_NODES then (t, CreateFailed(NoComplaint))
    else (Put(t, name, node), Created)
  }

  // ---------- cd ----------

  function Chdir(t: Tree, name: string): (Tree, Reply) {
    if name == "" then (t.(cur := []), Done)
    else if name == ".." then (t.(cur := Parent(t.cur)), Done)
    else if Lookup(t, name) != Some(Dir) then (t, NotFound)
    else if t.cur == [] && name == "root" then (t, Done)
    else (t.(cur := t.cur + [name]), Done)
  }

  // ---------- rm ----------

  function Remove(t: Tree, name: string, recursive: bool): (Tree, Reply) {
    match Lookup(t, name)
    case None => (t, NotFound)
    case Some(node) =>
      if node.Dir? && !recursive then (t, RefusedDirectory)
      else (t.(nodes := t.nodes - {t.cur + [name]}), Deleted)
  }

  // ---------- echo > and echo >> ----------

  function Overwrite(t: Tree, name: string, text: seq<char>): (Tree, Reply) {
    if Lookup(t, name).Some? && Lookup(t, name).value.File? then (Put(t, name, File(text)), Done)
    else if CanCreate(t, name) then (Put(t, name, File(text)), Created)
    else (t, CreateFailed(ComplaintAbout(name, Lookup(t, name).Some?)))
  }

  /** The appended content: only the first 4095 bytes of the file are read back. */
  function Appended(content: seq<char>, text: seq<char>): seq<char> {
    AppendText(content[..if |content| < MAX_FILE_SIZE - 1 then |content| else MAX_FILE_SIZE - 1], text)
  }

  function Append(t: Tree, name: string, text: seq<char>): (Tree, Reply) {
    match Lookup(t, name)
    case Some(File(content)) => (Put(t, name, File(Appended(content, text))), Done)
    case _ => Overwrite(t, name, text)
  }

  function Step(t: Tree, c: Command): (Tree, Reply) {
    match c
    case Touch(name) => Make(t, name, File([]))
    case Mkdir(name) => Make(t, name, Dir)
    case Cd(name) => Chdir(t, name)
    case Rm(name, recursive) => Remove(t, name, recursive)
    case Echo(name, text) => Overwrite(t, name, text)
    case EchoAppend(name, text) => Append(t, name, text)
  }

  // ---------- what the kernel demands of its callers ----------

  predicate NameFits(name: string) {
    IsValidName(name) ==> |name| <= MAX_NAME
  }

  /**
   A new name fits `strncpy`; texts are C strings of at most 8 blocks; the appended content fits
   its buffer with a terminator; a directory is removed only when nothing names it as parent.
   */
  ghost predicate Fits(t: Tree, c: Command) {
    match c
    case Touch(name) => NameFits(name)
    case Mkdir(name) => NameFits(name)
    case Cd(_) => true
    case Rm(name, recursive) =>
      recursive && Lookup(t, name) == Some(Dir) ==>
        !(t.cur == [] && name == "root") && !HasChildren(t, t.cur + [name])
    case Echo(name, text) => NameFits(name) && '\0' !in text && |text| <= 8 * BLOCK_SIZE
    case EchoAppend(name, text) =>
      && NameFits(name) && '\0' !in text && |text| <= 8 * BLOCK_SIZE
      && (Lookup(t, name).Some? && Lookup(t, name).value.File? ==>
            |Appended(Lookup(t, name).value.content, text)| < MAX_FILE_SIZE)
  }

  // ---------- runs ----------

  function Run(t: Tree, cs: seq<Command>): (Tree, seq<Reply>)
    decreases |cs|
  {
    if cs == [] then (t, [])
    else
      var before := Run(t, cs[..|cs| - 1]);
      var (after, reply) := Step(before.0, cs[|cs| - 1]);
      (after, before.1 + [reply])
  }

  ghost predicate RunFits(t: Tree, cs: seq<Command>)
    decreases |cs|
  {
    cs != [] ==> RunFits(t, cs[..|cs| - 1]) && Fits(Run(t, cs[..|cs| - 1]).0, cs[|cs| - 1])
  }

  // ---------- what makes it a tree ----------

  ghost predicate InDirectory(nodes: map<Path, Node>, p: Path) {
    Parent(p) in nodes && nodes[Parent(p)] == Dir
  }

  ghost predicate ClosedUpwards(nodes: map<Path, Node>) {
    forall p :: p in nodes ==> InDirectory(nodes, p)
  }

  /** The root and the current directory are directories, and so is the parent of every node. */
  ghost predicate IsTree(t: Tree) {
    && [] in t.nodes && t.nodes[[]] == Dir
    && t.cur in t.nodes && t.nodes[t.cur] == Dir
    && ClosedUpwards(t.nodes)
  }

  lemma PutBeside(nodes: map<Path, Node>, here: Path, node: Node, p: Path)
    requires InDirectory(nodes, p) && (here in nodes ==> nodes[here].File?)
    ensures InDirectory(nodes[here := node], p)
  {
  }

  lemma PutNode(nodes: map<Path, Node>, here: Path, node: Node)
    requires ClosedUpwards(nodes) && InDirectory(nodes, here)
    requires here in nodes ==> nodes[here].File?
    ensures ClosedUpwards(nodes[here := node])
  {
    var after := nodes[here := node];
    forall p | p in after
      ensures InDirectory(after, p)
    {
      assert p == here || p in nodes;
      PutBeside(nodes, here, node, p);
    }
  }

  lemma PutKeepsTree(t: Tree, name: string, node: Node)
    requires IsTree(t) && (t.cur + [name] in t.nodes ==> t.nodes[t.cur + [name]].File?)
    ensures IsTree(Put(t, name, node))
  {
    assert Parent(t.cur + [name]) == t.cur;
    PutNode(t.nodes, t.cur + [name], node);
  }

  lemma RemoveNode(nodes: map<Path, Node>, here: Path)
    requires ClosedUpwards(nodes)
    requires forall p :: p in nodes && p != [] ==> Parent(p) != here
    requires here != []
    ensures ClosedUpwards(nodes - {here})
  {
    forall p | p in nodes - {here}
      ensures InDirectory(nodes - {here}, p)
    {
      assert InDirectory(nodes, p);
    }
  }

  lemma RemoveKeepsTree(t: Tree, name: string)
    requires IsTree(t) && t.cur + [name] in t.nodes
    requires t.nodes[t.cur + [name]] == Dir ==> !HasChildren(t, t.cur + [name])
    ensures IsTree(t.(nodes := t.nodes - {t.cur + [name]}))
  {
    var here := t.cur + [name];
    forall p | p in t.nodes && p != []
      ensures Parent(p) != here
    {
      assert InDirectory(t.nodes, p);
    }
    RemoveNode(t.nodes, here);
  }

  lemma ChdirKeepsTree(t: Tree, name: string)
    requires IsTree(t)
    ensures IsTree(Chdir(t, name).0)
  {
    assert InDirectory(t.nodes, t.cur);
  }

  lemma MakeKeepsTree(t: Tree, name: string, node: Node)
    requires IsTree(t)
    ensures IsTree(Make(t, name, node).0)
  {
    if CanCreate(t, name) { PutKeepsTree(t, name, node); }
  }

  lemma OverwriteKeepsTree(t: Tree, name: string, text: seq<char>)
    requires IsTree(t)
    ensures IsTree(Overwrite(t, name, text).0)
  {
    if !Overwrite(t, name, text).1.CreateFailed? {
      PutKeepsTree(t, name, File(text));
    }
  }

  lemma AppendKeepsTree(t: Tree, name: string, text: seq<char>)
    requires IsTree(t)
    ensures IsTree(Append(t, name, text).0)
  {
    match Lookup(t, name)
    case Some(File(content)) => PutKeepsTree(t, name, File(Appended(content, text)));
    case _ => OverwriteKeepsTree(t, name, text);
  }

  /** Every command maps a tree to a tree. */
  lemma StepKeepsTree(t: Tree, c: Command)
    requires IsTree(t) && Fits(t, c)
    ensures IsTree(Step(t, c).0)
  {
    match c
    case Touch(name) => MakeKeepsTree(t, name, File([]));
    case Mkdir(name) => MakeKeepsTree(t, name, Dir);
    case Cd(name) => ChdirKeepsTree(t, name);
    case Rm(name, recursive) =>
      if Remove(t, name, recursive).1 == Deleted {
        RemoveKeepsTree(t, name);
      }
    case Echo(name, text) => OverwriteKeepsTree(t, name, text);
    case EchoAppend(name, text) => AppendKeepsTree(t, name, text);
  }
}
