/** The tree that a file-system state stands for. */
module Abstraction {
  import opened Limits
  import opened FileNames
  import opened BkfsState
  import opened FileTable
  import opened BlockOwnership
  import opened BkfsInvariant
  import opened Paths
  import opened NodeMaps
  import opened TreeModel

  ghost function NodeAt(s: Fs, i: nat): Node
    requires Inv(s) && i < |s.files|
  {
    if i < GHOST_ENTRIES || s.files[i].kind == Directory then Dir
    else
      assert LiveEntry(s.files[i]);
      File(Content(s.inodes[s.files[i].inode - 1], s.blocks))
  }

  ghost function NodeList(s: Fs): (r: seq<Node>)
    requires Inv(s)
    ensures |r| == |s.files|
    ensures forall i :: 0 <= i < |s.files| ==> r[i] == NodeAt(s, i)
  {
    seq(|s.files|, i requires 0 <= i < |s.files| => NodeAt(s, i))
  }

  ghost function Abs(s: Fs): Tree
    requires Inv(s)
  {
    Tree(NodeMap(s.files, NodeList(s)), DirPath(s.files, s.cur))
  }

  /** The name lookup of the tree is the kernel's linear search. */
  lemma LookupAgrees(s: Fs, name: string)
    requires Inv(s)
    ensures var r := First(s.files, ByName(s.cur, name));
            && (r < |s.files| ==> r >= ROOT_INDEX && Lookup(Abs(s), name) == Some(NodeAt(s, r)))
            && (r == |s.files| ==> Lookup(Abs(s), name) == None)
  {
    var r := First(s.files, ByName(s.cur, name));
    FindByName(s.files, s.cur, name);
    RootPath(s.files);
    var here := DirPath(s.files, s.cur) + [name];
    if DirPath(s.files, s.cur) == [] {
      PathInjective(s.files, First(s.files, ByInode(s.cur)), ROOT_INDEX);
    }
    if here in Abs(s).nodes {
      var j := MapFrom(s.files, NodeList(s), here);
      ChildPath(s.files, s.cur, name, j);
      MapHas(s.files, NodeList(s), j);
    }
    if ROOT_INDEX < r < |s.files| {
      ChildPath(s.files, s.cur, name, r);
      MapHas(s.files, NodeList(s), r);
    }
  }

  /** The searches that also test the type agree with the one that does not. */
  lemma FindByKind(s: Fs, name: string, kind: Kind)
    requires Inv(s)
    ensures var r := First(s.files, ByName(s.cur, name));
            First(s.files, ByKind(s.cur, name, kind)) ==
            if r < |s.files| && s.files[r].kind == kind then r else |s.files|
  {
    FindByName(s.files, s.cur, name);
    var r := First(s.files, ByName(s.cur, name));
    FirstUnique(s.files, ByKind(s.cur, name, kind), if r < |s.files| && s.files[r].kind == kind then r else |s.files|);
  }

  /** Only the root's own entry has the root's path, and its name there is "root". */
  lemma AbsAtRoot(s: Fs)
    requires Inv(s)
    ensures Abs(s).cur == [] <==> s.cur == ROOT_INODE
  {
    RootPath(s.files);
    if Abs(s).cur == [] {
      PathInjective(s.files, First(s.files, ByInode(s.cur)), ROOT_INDEX);
    }
  }

  /** The tree of a state is a tree: this is where parents being earlier directories matters. */
  lemma AbsIsTree(s: Fs)
    requires Inv(s)
    ensures IsTree(Abs(s))
  {
    var nodes := Abs(s).nodes;
    RootPath(s.files);
    MapHas(s.files, NodeList(s), ROOT_INDEX);
    MapHas(s.files, NodeList(s), First(s.files, ByInode(s.cur)));
    forall p | p in nodes
      ensures InDirectory(nodes, p)
    {
      var i := MapFrom(s.files, NodeList(s), p);
      if i > ROOT_INDEX {
        PathStep(s.files, i);
        SnocInjective(p, DirPath(s.files, s.files[i].parent) + [s.files[i].name]);
        MapHas(s.files, NodeList(s), ParentIndex(s.files, i));
      }
    }
  }
}
