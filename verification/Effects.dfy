/** What create, delete and write do to the tree. */
module Effects {
  import opened Limits
  import opened FileNames
  import opened BkfsState
  import opened FileTable
  import opened BlockOwnership
  import opened BkfsInvariant
  import opened BkfsContents
  import opened Paths
  import opened TreeModel
  import opened NodeMaps
  import opened Abstraction

  function NewNode(kind: Kind): Node {
    if kind == Directory then Dir else File([])
  }

  // ---------- create ----------

  lemma CreateNodeAt(s: Fs, t: Fs, name: string, parent: nat, kind: Kind, i: nat)
    requires Inv(s) && CreateFile(s, name, parent, kind) == (t, true) && Inv(t)
    requires i <= |s.files|
    ensures NodeAt(t, i) == if i < |s.files| then NodeAt(s, i) else NewNode(kind)
  {
    var k := LowestFreeInode(s.inodes);
    if GHOST_ENTRIES <= i < |s.files| {
      assert LiveEntry(s.files[i]);
      assert SlotOk(s.files, s.inodes, k);
      assert s.files[i].inode != k + 1;
    }
  }

  /** A new entry is a new node in its parent directory, which boot lets differ from the current one. */
  lemma CreateInEffect(s: Fs, name: string, parent: nat, kind: Kind)
    requires Inv(s) && CreateFile(s, name, parent, kind).1 && |name| <= MAX_NAME
    requires IsDirectory(s.files, parent) && !Found(s.files, ByName(parent, name))
    ensures var t := CreateFile(s, name, parent, kind).0;
            && Inv(t) && Abs(t).cur == Abs(s).cur
            && Abs(t).nodes == Abs(s).nodes[DirPath(s.files, parent) + [name] := NewNode(kind)]
  {
    CreateKeeps(s, name, parent, kind);
    var t, n := CreateFile(s, name, parent, kind).0, |s.files|;
    var e := t.files[n];
    FirstAppend(s.files, e, ByInode(s.cur));
    FirstAppend(s.files, e, ByInode(parent));
    PathAppend(s.files, e, First(s.files, ByInode(s.cur)));
    PathAppend(s.files, e, First(s.files, ByInode(parent)));
    PathStep(t.files, n);
    MapGrow(s.files, NodeList(s), e, NewNode(kind));
    forall i: nat | i <= n
      ensures NodeList(t)[i] == (NodeList(s) + [NewNode(kind)])[i]
    {
      CreateNodeAt(s, t, name, parent, kind, i);
    }
    assert NodeList(t) == NodeList(s) + [NewNode(kind)];
  }

  lemma CreateEffect(s: Fs, name: string, kind: Kind)
    requires Inv(s) && CreateFile(s, name, s.cur, kind).1 && |name| <= MAX_NAME
    ensures var t := CreateFile(s, name, s.cur, kind).0;
            Inv(t) && Abs(t) == Put(Abs(s), name, NewNode(kind))
  {
    CreateInEffect(s, name, s.cur, kind);
  }

  // ---------- delete ----------

  lemma DeleteNodeAt(s: Fs, t: Fs, d: nat, i: nat)
    requires Inv(s) && ROOT_INDEX < d < |s.files| && ROOT_INDEX <= i < |s.files| && i != d
    requires t.files == RemoveAt(s.files, d) && Inv(t)
    requires forall l :: 0 <= l < MAX_INODES && l + 1 != s.files[d].inode ==> t.inodes[l] == s.inodes[l]
    requires t.blocks == s.blocks
    ensures NodeAt(t, IndexAfter(d, i)) == NodeAt(s, i)
  {
    RemovedAt(s.files, d);
    assert t.files[IndexAfter(d, i)] == s.files[i];
    assert LiveEntry(s.files[i]);
  }

  lemma DeleteDirPath(s: Fs, d: nat, gone: seq<Entry>)
    requires Inv(s) && ROOT_INDEX < d < |s.files| && Deletable(s, s.files[d].inode)
    requires gone == RemoveAt(s.files, d) && FilesInv(gone)
    ensures IsDirectory(gone, s.cur) && DirPath(gone, s.cur) == DirPath(s.files, s.cur)
  {
    FirstRemove(s.files, d, ByInode(s.cur));
    PathRemove(s.files, gone, d, First(s.files, ByInode(s.cur)));
    RemovedAt(s.files, d);
  }

  lemma DeleteNodes(s: Fs, t: Fs, d: nat)
    requires Inv(s) && ROOT_INDEX < d < |s.files| && Deletable(s, s.files[d].inode)
    requires DeleteFile(s, s.files[d].inode) == (t, true) && Inv(t) && t.files == RemoveAt(s.files, d)
    ensures Abs(t).nodes == Abs(s).nodes - {PathAt(s.files, d)}
  {
    forall i: nat | ROOT_INDEX <= i < |s.files| && i != d
      ensures NodeList(t)[IndexAfter(d, i)] == NodeList(s)[i]
    {
      DeleteNodeAt(s, t, d, i);
    }
    MapShrink(s.files, NodeList(s), d, t.files, NodeList(t));
  }

  lemma DeleteEffect(s: Fs, d: nat)
    requires Inv(s) && ROOT_INDEX < d < |s.files| && Deletable(s, s.files[d].inode)
    ensures var r := DeleteFile(s, s.files[d].inode);
            && r.1 && Inv(r.0)
            && Abs(r.0) == Abs(s).(nodes := Abs(s).nodes - {PathAt(s.files, d)})
  {
    DeleteKeeps(s, s.files[d].inode);
    FirstOfInode(s.files, d);
    assert LiveEntry(s.files[d]);
    var t := DeleteFile(s, s.files[d].inode).0;
    DeleteDirPath(s, d, t.files);
    DeleteNodes(s, t, d);
  }

  // ---------- write ----------

  lemma WriteNodeAt(s: Fs, t: Fs, j: nat, data: seq<char>, i: nat)
    requires Inv(s) && ROOT_INDEX <= j < |s.files| && s.files[j].kind == Regular
    requires 1 <= s.files[j].inode <= MAX_INODES && Inv(t) && t.files == s.files
    requires Content(t.inodes[s.files[j].inode - 1], t.blocks) == data
    requires forall l :: 0 <= l < MAX_INODES && l != s.files[j].inode - 1 ==>
                           Content(t.inodes[l], t.blocks) == Content(s.inodes[l], s.blocks)
    requires i < |s.files|
    ensures NodeAt(t, i) == if i == j then File(data) else NodeAt(s, i)
  {
    if GHOST_ENTRIES <= i && i != j {
      assert LiveEntry(s.files[i]);
      InodesDiffer(s.files, i, j);
    }
  }

  lemma WriteEffect(s: Fs, j: nat, data: seq<char>)
    requires Inv(s) && ROOT_INDEX <= j < |s.files| && s.files[j].kind == Regular
    requires WriteFile(s, s.files[j].inode, data).1
    ensures var t := WriteFile(s, s.files[j].inode, data).0;
            Inv(t) && Abs(t) == Abs(s).(nodes := Abs(s).nodes[PathAt(s.files, j) := File(data)])
  {
    assert LiveEntry(s.files[j]);
    FirstOfInode(s.files, j);
    WriteKeeps(s, s.files[j].inode, data);
    WriteThenContent(s, s.files[j].inode, data);
    var t := WriteFile(s, s.files[j].inode, data).0;
    forall i: nat | i < |s.files|
      ensures NodeList(t)[i] == NodeList(s)[j := File(data)][i]
    {
      WriteNodeAt(s, t, j, data, i);
    }
    assert NodeList(t) == NodeList(s)[j := File(data)];
    MapChange(s.files, NodeList(s), j, File(data));
  }
}
