/** The invariant of the file table: unique inodes, unique names per directory, parents before children. */
module FileTable {
  import opened Limits
  import opened FileNames
  import opened BkfsState

  const ROOT_INDEX := GHOST_ENTRIES

  ghost predicate LiveEntry(e: Entry) {
    1 <= e.inode <= MAX_INODES && IsValidName(e.name) && |e.name| <= MAX_NAME
  }

  /** The entry of directory `ino` exists and comes after the ghost entries. */
  ghost predicate IsDirectory(files: seq<Entry>, ino: nat) {
    && GHOST_ENTRIES <= First(files, ByInode(ino)) < |files|
    && files[First(files, ByInode(ino))].kind == Directory
  }

  /** Each entry but the root names a directory whose own entry comes earlier. */
  ghost predicate ParentEarlier(files: seq<Entry>, i: nat)
    requires i < |files|
  {
    IsDirectory(files, files[i].parent) && First(files, ByInode(files[i].parent)) < i
  }

  ghost predicate DistinctInodes(files: seq<Entry>) {
    forall i, j :: GHOST_ENTRIES <= i < j < |files| ==> files[i].inode != files[j].inode
  }

  ghost predicate DistinctNames(files: seq<Entry>) {
    forall i, j :: GHOST_ENTRIES <= i < j < |files| && files[i].parent == files[j].parent ==> files[i].name != files[j].name
  }

  ghost predicate FilesInv(files: seq<Entry>) {
    && GHOST_ENTRIES < |files| <= MAX_FILES
    && (forall i :: 0 <= i < GHOST_ENTRIES ==> files[i] == GHOST)
    && files[ROOT_INDEX] == Entry("root", ROOT_INODE, ROOT_INODE, Directory)
    && (forall i :: GHOST_ENTRIES <= i < |files| ==> LiveEntry(files[i]))
    && DistinctInodes(files)
    && DistinctNames(files)
    && (forall i :: ROOT_INDEX < i < |files| ==> ParentEarlier(files, i))
  }

  // ---------- searches in an extended or shortened table ----------

  lemma FirstAppend(files: seq<Entry>, e: Entry, q: Query)
    ensures First(files + [e], q) == if Found(files, q) then First(files, q)
                                     else if Matches(q, e) then |files| else |files| + 1
  {
    var r := if Found(files, q) then First(files, q) else if Matches(q, e) then |files| else |files| + 1;
    FirstUnique(files + [e], q, r);
  }

  lemma FirstUnique(files: seq<Entry>, q: Query, r: nat)
    requires r <= |files| && (r < |files| ==> Matches(q, files[r]))
    requires forall i :: 0 <= i < r ==> !Matches(q, files[i])
    ensures First(files, q) == r
  {
  }

  /** Removing an entry shifts the later matches down by one. */
  lemma FirstRemove(files: seq<Entry>, d: nat, q: Query)
    requires d < |files| && First(files, q) != d
    ensures First(RemoveAt(files, d), q) == if First(files, q) < d then First(files, q) else First(files, q) - 1
  {
    var r, gone := First(files, q), RemoveAt(files, d);
    RemovedAt(files, d);
    var expected := if r < d then r else r - 1;
    if r < |files| {
      assert gone[expected] == files[r];
    }
    forall i | 0 <= i < expected
      ensures !Matches(q, gone[i])
    {
      assert gone[i] == files[if i < d then i else i + 1];
    }
    FirstUnique(gone, q, expected);
  }

  lemma FirstOfInode(files: seq<Entry>, i: nat)
    requires FilesInv(files) && ROOT_INDEX <= i < |files|
    ensures First(files, ByInode(files[i].inode)) == i
  {
    var r := First(files, ByInode(files[i].inode));
    assert LiveEntry(files[i]);
    assert forall g :: 0 <= g < GHOST_ENTRIES ==> files[g].inode == 0;
  }

  lemma InodesDiffer(files: seq<Entry>, i: nat, j: nat)
    requires FilesInv(files) && ROOT_INDEX <= i < |files| && ROOT_INDEX <= j < |files| && i != j
    ensures files[i].inode != files[j].inode
  {
  }

  // ---------- preservation ----------

  lemma AppendEntry(files: seq<Entry>, e: Entry)
    requires FilesInv(files) && |files| < MAX_FILES
    requires LiveEntry(e) && !Found(files, ByInode(e.inode))
    requires IsDirectory(files, e.parent) && !Found(files, ByName(e.parent, e.name))
    ensures FilesInv(files + [e])
  {
    var more := files + [e];
    assert Matches(ByInode(e.inode), e);
    assert forall i :: 0 <= i < |files| ==> !Matches(ByInode(e.inode), files[i]) && !Matches(ByName(e.parent, e.name), files[i]);
    assert DistinctInodes(more);
    assert DistinctNames(more);
    forall i | ROOT_INDEX < i < |more|
      ensures ParentEarlier(more, i)
    {
      FirstAppend(files, e, ByInode(more[i].parent));
      if i < |files| {
        assert ParentEarlier(files, i);
      }
    }
  }

  ghost predicate Childless(files: seq<Entry>, ino: nat) {
    forall i :: 0 <= i < |files| ==> files[i].parent != ino
  }

  lemma RemoveKeepsParent(files: seq<Entry>, d: nat, i: nat)
    requires FilesInv(files) && ROOT_INDEX < d < |files| && Childless(files, files[d].inode)
    requires ROOT_INDEX < i < |files| && i != d
    ensures ParentEarlier(RemoveAt(files, d), if i < d then i else i - 1)
  {
    assert ParentEarlier(files, i);
    FirstRemove(files, d, ByInode(files[i].parent));
    var gone := RemoveAt(files, d);
    assert gone[if i < d then i else i - 1] == files[i];
  }

  lemma RemoveKeepsDistinct(files: seq<Entry>, d: nat)
    requires d < |files| && DistinctInodes(files) && DistinctNames(files)
    ensures DistinctInodes(RemoveAt(files, d)) && DistinctNames(RemoveAt(files, d))
  {
    RemovedAt(files, d);
  }

  lemma RemoveEntry(files: seq<Entry>, d: nat)
    requires FilesInv(files) && ROOT_INDEX < d < |files| && Childless(files, files[d].inode)
    ensures FilesInv(RemoveAt(files, d))
    ensures !Found(RemoveAt(files, d), ByInode(files[d].inode))
  {
    var gone := RemoveAt(files, d);
    RemovedAt(files, d);
    RemoveKeepsDistinct(files, d);
    forall i | ROOT_INDEX < i < |gone|
      ensures ParentEarlier(gone, i)
    {
      RemoveKeepsParent(files, d, if i < d then i else i + 1);
    }
    FirstOfInode(files, d);
  }

  lemma RemovedAt(files: seq<Entry>, d: nat)
    requires d < |files|
    ensures forall i :: 0 <= i < |files| - 1 ==> RemoveAt(files, d)[i] == files[if i < d then i else i + 1]
  {
  }
}
