/** The path of an entry: the names on its parent chain, from the root down. */
module Paths {
  import opened Limits
  import opened FileNames
  import opened BkfsState
  import opened FileTable
  import opened TreeModel

  ghost function ParentIndex(files: seq<Entry>, i: nat): nat
    requires i < |files|
  {
    First(files, ByInode(files[i].parent))
  }

  ghost function PathAt(files: seq<Entry>, i: nat): Path
    requires FilesInv(files) && ROOT_INDEX <= i < |files|
    decreases i
  {
    if i == ROOT_INDEX then []
    else
      assert ParentEarlier(files, i);
      PathAt(files, ParentIndex(files, i)) + [files[i].name]
  }

  /** The path of the directory with the given inode number. */
  ghost function DirPath(files: seq<Entry>, ino: nat): Path
    requires FilesInv(files) && IsDirectory(files, ino)
  {
    PathAt(files, First(files, ByInode(ino)))
  }

  lemma PathStep(files: seq<Entry>, i: nat)
    requires FilesInv(files) && ROOT_INDEX < i < |files|
    ensures IsDirectory(files, files[i].parent)
    ensures PathAt(files, i) == DirPath(files, files[i].parent) + [files[i].name]
  {
    assert ParentEarlier(files, i);
  }

  lemma RootPath(files: seq<Entry>)
    requires FilesInv(files)
    ensures First(files, ByInode(ROOT_INODE)) == ROOT_INDEX && IsDirectory(files, ROOT_INODE)
    ensures DirPath(files, ROOT_INODE) == []
  {
    FirstOfInode(files, ROOT_INDEX);
  }

  /** Two entries with one path are one entry: this is where names being unique per directory matters. */
  lemma {:induction false} PathInjective(files: seq<Entry>, i: nat, j: nat)
    requires FilesInv(files) && ROOT_INDEX <= i < |files| && ROOT_INDEX <= j < |files|
    requires PathAt(files, i) == PathAt(files, j)
    ensures i == j
    decreases i + j
  {
    if ROOT_INDEX < i && ROOT_INDEX < j {
      SnocInjective(PathAt(files, i), PathAt(files, j));
      assert ParentEarlier(files, i) && ParentEarlier(files, j);
      PathInjective(files, ParentIndex(files, i), ParentIndex(files, j));
      assert files[i].parent == files[j].parent;
    }
  }

  lemma SnocInjective(p: Path, q: Path)
    requires p == q && p != []
    ensures p[..|p| - 1] == q[..|q| - 1] && p[|p| - 1] == q[|q| - 1]
  {
  }

  lemma {:induction false} PathAppend(files: seq<Entry>, e: Entry, i: nat)
    requires FilesInv(files) && FilesInv(files + [e]) && ROOT_INDEX <= i < |files|
    ensures PathAt(files + [e], i) == PathAt(files, i)
    decreases i
  {
    if i > ROOT_INDEX {
      assert ParentEarlier(files, i);
      FirstAppend(files, e, ByInode(files[i].parent));
      PathAppend(files, e, ParentIndex(files, i));
    }
  }

  function IndexAfter(d: nat, i: nat): nat
    requires i != d
  {
    if i < d then i else i - 1
  }

  lemma ParentAfter(files: seq<Entry>, gone: seq<Entry>, d: nat, i: nat)
    requires FilesInv(files) && ROOT_INDEX < d < |files| && Childless(files, files[d].inode)
    requires ROOT_INDEX < i < |files| && i != d
    requires gone == RemoveAt(files, d)
    ensures gone[IndexAfter(d, i)] == files[i]
    ensures d != ParentIndex(files, i) < i && ParentIndex(gone, IndexAfter(d, i)) == IndexAfter(d, ParentIndex(files, i))
  {
    assert ParentEarlier(files, i) && files[ParentIndex(files, i)].inode == files[i].parent;
    FirstRemove(files, d, ByInode(files[i].parent));
    RemovedAt(files, d);
  }

  /** Removing a childless entry changes no other path. */
  lemma {:induction false} PathRemove(files: seq<Entry>, gone: seq<Entry>, d: nat, i: nat)
    requires FilesInv(files) && ROOT_INDEX < d < |files| && Childless(files, files[d].inode)
    requires ROOT_INDEX <= i < |files| && i != d
    requires gone == RemoveAt(files, d) && FilesInv(gone)
    ensures PathAt(gone, IndexAfter(d, i)) == PathAt(files, i)
    decreases i
  {
    if i > ROOT_INDEX {
      ParentAfter(files, gone, d, i);
      assert ParentEarlier(files, i);
      PathRemove(files, gone, d, ParentIndex(files, i));
      PathStep(files, i);
      PathStep(gone, IndexAfter(d, i));
    }
  }

  /** The entry a search finds in a directory is the node that the tree has there. */
  lemma ChildPath(files: seq<Entry>, dir: nat, name: string, j: nat)
    requires FilesInv(files) && IsDirectory(files, dir)
    requires ROOT_INDEX <= j < |files|
    ensures PathAt(files, j) == DirPath(files, dir) + [name] <==>
            j > ROOT_INDEX && files[j].parent == dir && files[j].name == name
  {
    if j > ROOT_INDEX {
      PathStep(files, j);
      var up := ParentIndex(files, j);
      if PathAt(files, j) == DirPath(files, dir) + [name] {
        SnocInjective(PathAt(files, j), DirPath(files, dir) + [name]);
        assert PathAt(files, j)[..|PathAt(files, j)| - 1] == PathAt(files, up);
        PathInjective(files, up, First(files, ByInode(dir)));
      }
    }
  }

  /** What `parent_inode == dir && strcmp(name) == 0` finds, in terms of indices. */
  lemma FindByName(files: seq<Entry>, dir: nat, name: string)
    requires FilesInv(files) && IsDirectory(files, dir)
    ensures var r := First(files, ByName(dir, name));
            && (r < |files| ==> r >= ROOT_INDEX)
            && (r == ROOT_INDEX <==> dir == ROOT_INODE && name == "root")
            && (forall j :: ROOT_INDEX <= j < |files| && Matches(ByName(dir, name), files[j]) ==> r == j)
  {
    var r := First(files, ByName(dir, name));
    assert dir >= 1 by {
      assert files[First(files, ByInode(dir))].inode == dir;
      assert LiveEntry(files[First(files, ByInode(dir))]);
    }
    assert forall g :: 0 <= g < GHOST_ENTRIES ==> !Matches(ByName(dir, name), files[g]);
    if dir == ROOT_INODE && name == "root" {
      assert Matches(ByName(dir, name), files[ROOT_INDEX]);
    }
  }
}
