/** Laws of the commands on the tree: what undoes what, what a command leaves alone, and when it replies what. */
module TreeLaws {
  import opened Limits
  import opened FileNames
  import opened TreeModel

  /** An entry of the current directory; the root directory lists itself as "root". */
  predicate Has(t: Tree, name: string) {
    t.cur + [name] in t.nodes || (t.cur == [] && name == "root")
  }

  predicate HasFile(t: Tree, name: string) {
    !(t.cur == [] && name == "root") && t.cur + [name] in t.nodes && t.nodes[t.cur + [name]].File?
  }

  predicate HasDirectory(t: Tree, name: string) {
    Has(t, name) && !HasFile(t, name)
  }

  // ---------- what undoes what ----------

  /** `cd name` and `cd ..` come back, but for "..", for the root's own name, and without a name. */
  lemma CdAndBack(t: Tree, name: string)
    requires Step(t, Cd(name)).1 == Done && name != "" && name != ".." && !(t.cur == [] && name == "root")
    ensures Step(t, Cd(name)).0.cur == t.cur + [name]
    ensures Step(Step(t, Cd(name)).0, Cd("..")).0 == t
  {
    assert Parent(t.cur + [name]) == t.cur;
  }

  /** `cd` goes to the root, from where `cd ..` goes nowhere; elsewhere `cd ..` goes one level up. */
  lemma CdHome(t: Tree)
    ensures Step(t, Cd("")).0.cur == [] && Step(Step(t, Cd("")).0, Cd("..")).0.cur == []
    ensures t.cur != [] ==> Step(t, Cd("..")).0.cur == t.cur[..|t.cur| - 1]
  {
  }

  /** A new file or directory is empty, and removing it leaves the tree as it was; a directory needs `-rf`. */
  lemma MakeAndRemove(t: Tree, name: string)
    requires Step(t, Touch(name)).1 == Created
    ensures HasFile(Step(t, Touch(name)).0, name) && Step(t, Touch(name)).0.nodes[t.cur + [name]].content == []
    ensures Step(Step(t, Touch(name)).0, Rm(name, false)) == (t, Deleted)
    ensures Step(t, Mkdir(name)).1 == Created && HasDirectory(Step(t, Mkdir(name)).0, name)
    ensures Step(Step(t, Mkdir(name)).0, Rm(name, false)) == (Step(t, Mkdir(name)).0, RefusedDirectory)
    ensures Step(Step(t, Mkdir(name)).0, Rm(name, true)) == (t, Deleted)
  {
    var here := t.cur + [name];
    assert t.nodes[here := File([])] - {here} == t.nodes;
    assert t.nodes[here := Dir] - {here} == t.nodes;
  }

  /** Writing again leaves nothing of what was written before; the text is all there is. */
  lemma EchoTwice(t: Tree, name: string, first: string, second: string)
    requires Step(t, Echo(name, first)).1 in {Done, Created} && !(t.cur == [] && name == "root")
    ensures Step(t, Echo(name, first)).0.nodes[t.cur + [name]] == File(first)
    ensures Step(Step(t, Echo(name, first)).0, Echo(name, second)) == (Step(t, Echo(name, second)).0, Done)
  {
    var here := t.cur + [name];
    assert t.nodes[here := File(first)][here := File(second)] == t.nodes[here := File(second)];
  }

  // ---------- what a command leaves alone ----------

  function NameOf(c: Command): string { c.name }

  /** Only `cd` changes the directory, and only the named entry of that directory can change at all. */
  lemma OthersStay(t: Tree, c: Command, p: Path)
    requires p != t.cur + [NameOf(c)]
    ensures var u := Step(t, c).0;
            && (p in u.nodes <==> p in t.nodes) && (p in t.nodes ==> u.nodes[p] == t.nodes[p])
            && (!c.Cd? ==> u.cur == t.cur) && (c.Cd? ==> u.nodes == t.nodes)
  {
  }

  // ---------- replies ----------

  predicate Succeeds(r: Reply) { r in {Done, Created, Deleted} }

  /** A command that does not succeed changes nothing. */
  lemma RefusedChangesNothing(t: Tree, c: Command)
    requires !Succeeds(Step(t, c).1)
    ensures Step(t, c).0 == t
  {
  }

  /** `touch` and `mkdir`: a good name, not there yet, and fewer than 123 nodes. */
  lemma MakeReplies(t: Tree, name: string, kind: Command)
    requires kind in {Touch(name), Mkdir(name)}
    ensures Step(t, kind).1 ==
            if !IsValidName(name) then InvalidName
            else if Has(t, name) then NameTaken
            else if |t.nodes| >= 123 then CreateFailed(NoComplaint)
            else Created
  {
  }

  lemma CdReplies(t: Tree, name: string)
    ensures Step(t, Cd(name)).1 == Done <==> name == "" || name == ".." || HasDirectory(t, name)
    ensures Step(t, Cd(name)).1 == NotFound <==> name != "" && name != ".." && !HasDirectory(t, name)
  {
  }

  lemma RmReplies(t: Tree, name: string, recursive: bool)
    ensures Step(t, Rm(name, recursive)).1 ==
            if !Has(t, name) then NotFound
            else if HasDirectory(t, name) && !recursive then RefusedDirectory
            else Deleted
    ensures Step(t, Rm(name, recursive)).1 == Deleted ==> t.cur + [name] !in Step(t, Rm(name, recursive)).0.nodes
  {
  }

  /** `echo >` writes an existing file silently and creates one with a message; it complains of a bad name before a taken one. */
  lemma EchoReplies(t: Tree, name: string, text: string)
    ensures Step(t, Echo(name, text)).1 ==
            if HasFile(t, name) then Done
            else if !IsValidName(name) then CreateFailed(BadName)
            else if Has(t, name) then CreateFailed(TakenName)
            else if |t.nodes| >= 123 then CreateFailed(NoComplaint)
            else Created
    ensures Step(t, EchoAppend(name, text)).1 == Step(t, Echo(name, text)).1
  {
  }

  /** The characters that no name may have. */
  lemma NameRule(c: char)
    ensures IsValidName([c]) <==> c != '\0' && c !in "&;|*?'\"`[]()$<>{}^#\\/%!"
    ensures !IsValidName("")
  {
    assert [c][0] == c;
  }

  /** A name is valid if it is not empty and each of its characters is. */
  lemma NameByCharacter(name: string)
    ensures IsValidName(name) <==> name != "" && forall i :: 0 <= i < |name| ==> IsValidName([name[i]])
  {
    forall i | 0 <= i < |name|
      ensures IsValidName([name[i]]) <==> name[i] !in FORBIDDEN && name[i] != '\0'
    {
      assert [name[i]][0] == name[i];
    }
  }
}
