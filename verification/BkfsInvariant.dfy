/** The invariant of the whole file system, and its preservation by create, delete and write. */
module BkfsInvariant {
  import opened Limits
  import opened FileNames
  import opened BkfsState
  import opened FreeBlocks
  import opened FileTable
  import opened BlockOwnership

  const ENTRIES_PLUS_FREE_INODES := MAX_INODES + GHOST_ENTRIES

  /** Inode `k + 1` is in use, with its entry's mode, if an entry names it; else it is all zero. */
  ghost predicate SlotOk(files: seq<Entry>, inodes: seq<Inode>, k: nat)
    requires k < |inodes|
  {
    if Found(files, ByInode(k + 1))
    then inodes[k].mode == ModeOf(files[First(files, ByInode(k + 1))].kind)
    else inodes[k] == ZERO_INODE
  }

  ghost predicate InodesInv(files: seq<Entry>, inodes: seq<Inode>, freeInodes: int) {
    && InodesShaped(inodes)
    && (forall k :: 0 <= k < MAX_INODES ==> SlotOk(files, inodes, k))
    && |files| + freeInodes == ENTRIES_PLUS_FREE_INODES
  }

  ghost predicate Inv(s: Fs) {
    && FilesInv(s.files)
    && IsDirectory(s.files, s.cur)
    && InodesInv(s.files, s.inodes, s.freeInodes)
    && BlocksInv(s.inodes, s.used, s.freeBlocks)
    && BlocksShaped(s.blocks)
  }

  // ---------- a free inode exists while the file table has room ----------

  ghost function InodeNumbers(files: seq<Entry>, n: nat): set<nat>
    requires n <= |files|
  {
    set i: nat | GHOST_ENTRIES <= i < n :: files[i].inode
  }

  lemma {:induction false} CountInodeNumbers(files: seq<Entry>, n: nat)
    requires GHOST_ENTRIES <= n <= |files| && DistinctInodes(files)
    ensures |InodeNumbers(files, n)| == n - GHOST_ENTRIES
    decreases n
  {
    if n == GHOST_ENTRIES {
      assert InodeNumbers(files, n) == {};
    } else {
      CountInodeNumbers(files, n - 1);
      assert InodeNumbers(files, n) == InodeNumbers(files, n - 1) + {files[n - 1].inode};
    }
  }

  lemma {:induction false} CountBelow(s: set<nat>, n: nat)
    requires forall k: nat :: 1 <= k <= n ==> k in s
    ensures |s| >= n
    decreases n
  {
    if n > 0 {
      CountBelow(s - {n}, n - 1);
    }
  }

  /** `fs_alloc_inode` cannot fail for a table that `file_count >= MAX_FILES` lets through. */
  lemma InodeAvailable(files: seq<Entry>, inodes: seq<Inode>, freeInodes: int)
    requires FilesInv(files) && InodesInv(files, inodes, freeInodes) && |files| < MAX_FILES
    ensures freeInodes > 0 && LowestFreeInode(inodes) < MAX_INODES
  {
    if LowestFreeInode(inodes) == MAX_INODES {
      var numbers := InodeNumbers(files, |files|);
      forall k: nat | 1 <= k <= MAX_INODES
        ensures k in numbers
      {
        assert inodes[k - 1].mode != 0 && SlotOk(files, inodes, k - 1);
        var i := First(files, ByInode(k));
        assert i < |files| && files[i].inode == k;
      }
      CountBelow(numbers, MAX_INODES);
      CountInodeNumbers(files, |files|);
    }
  }

  // ---------- fs_create_file ----------

  /** When creating succeeds: exactly when the name is good, unused here, and the table has room. */
  ghost predicate Creatable(s: Fs, name: string) {
    IsValidName(name) && !Found(s.files, ByName(s.cur, name)) && |s.files| < MAX_FILES
  }

  lemma CreateSucceeds(s: Fs, name: string, parent: nat, kind: Kind)
    requires Inv(s)
    ensures CreateFile(s, name, parent, kind).1 <==> Creatable(s, name)
    ensures !Creatable(s, name) ==> CreateFile(s, name, parent, kind).0 == s
  {
    if |s.files| < MAX_FILES {
      InodeAvailable(s.files, s.inodes, s.freeInodes);
    }
  }

  lemma CreateKeepsInodes(files: seq<Entry>, inodes: seq<Inode>, freeInodes: int, e: Entry, k: nat)
    requires InodesInv(files, inodes, freeInodes)
    requires k < MAX_INODES && inodes[k].mode == 0 && e.inode == k + 1
    ensures InodesInv(files + [e], inodes[k := Inode(ModeOf(e.kind), 0, 0, ZERO_LIST)], freeInodes - 1)
  {
    var inodes' := inodes[k := Inode(ModeOf(e.kind), 0, 0, ZERO_LIST)];
    forall l: nat | l < MAX_INODES
      ensures SlotOk(files + [e], inodes', l) && InodeShaped(inodes'[l])
    {
      assert SlotOk(files, inodes, l);
      FirstAppend(files, e, ByInode(l + 1));
    }
  }

  /** `parent` is the current directory for every shell command; boot passes other directories. */
  lemma CreateKeeps(s: Fs, name: string, parent: nat, kind: Kind)
    requires Inv(s) && CreateFile(s, name, parent, kind).1
    requires |name| <= MAX_NAME && IsDirectory(s.files, parent) && !Found(s.files, ByName(parent, name))
    ensures Inv(CreateFile(s, name, parent, kind).0)
  {
    var k := LowestFreeInode(s.inodes);
    var e := Entry(name, k + 1, parent, kind);
    var t := CreateFile(s, name, parent, kind).0;
    assert SlotOk(s.files, s.inodes, k);
    AppendEntry(s.files, e);
    FirstAppend(s.files, e, ByInode(s.cur));
    CreateKeepsInodes(s.files, s.inodes, s.freeInodes, e, k);
    assert SameOwners(s.inodes, t.inodes);
    SameOwnersKeep(s.inodes, t.inodes, s.used, s.freeBlocks);
  }

  // ---------- fs_delete_file ----------

  lemma DeleteKeepsSlot(files: seq<Entry>, inodes: seq<Inode>, d: nat, l: nat)
    requires d < |files| && l < |inodes| && l + 1 != files[d].inode && SlotOk(files, inodes, l)
    ensures SlotOk(RemoveAt(files, d), inodes, l)
  {
    FirstRemove(files, d, ByInode(l + 1));
    var r := First(files, ByInode(l + 1));
    if r < |files| {
      RemovedAt(files, d);
      assert RemoveAt(files, d)[if r < d then r else r - 1] == files[r];
    }
  }

  lemma DeleteKeepsInodes(files: seq<Entry>, inodes: seq<Inode>, freeInodes: int, d: nat)
    requires InodesInv(files, inodes, freeInodes) && d < |files|
    requires 1 <= files[d].inode <= MAX_INODES
    requires !Found(RemoveAt(files, d), ByInode(files[d].inode))
    ensures InodesInv(RemoveAt(files, d), inodes[files[d].inode - 1 := ZERO_INODE], freeInodes + 1)
  {
    var gone, inodes' := RemoveAt(files, d), inodes[files[d].inode - 1 := ZERO_INODE];
    forall l: nat | l < MAX_INODES
      ensures SlotOk(gone, inodes', l) && InodeShaped(inodes'[l])
    {
      assert SlotOk(files, inodes, l);
      if l != files[d].inode - 1 {
        DeleteKeepsSlot(files, inodes, d, l);
      }
    }
  }

  /** The entry to delete is live, childless and not the root; the current directory is another one. */
  ghost predicate Deletable(s: Fs, ino: nat) {
    && Found(s.files, ByInode(ino)) && First(s.files, ByInode(ino)) > ROOT_INDEX
    && Childless(s.files, ino) && s.cur != ino
  }

  lemma DeleteKeeps(s: Fs, ino: nat)
    requires Inv(s) && Deletable(s, ino)
    ensures DeleteFile(s, ino).1 && Inv(DeleteFile(s, ino).0)
  {
    var d := First(s.files, ByInode(ino));
    assert LiveEntry(s.files[d]);
    RemoveEntry(s.files, d);
    FirstRemove(s.files, d, ByInode(s.cur));
    RemovedAt(s.files, d);
    FirstOfInode(s.files, d);
    DeleteKeepsInodes(s.files, s.inodes, s.freeInodes, d);
    ReleaseKeeps(s.inodes, s.used, s.freeBlocks, ino - 1, ZERO_INODE);
  }

  // ---------- fs_write_file ----------

  lemma WriteKeepsInodes(files: seq<Entry>, inodes: seq<Inode>, freeInodes: int, k: nat, n: Inode)
    requires InodesInv(files, inodes, freeInodes)
    requires k < MAX_INODES && Found(files, ByInode(k + 1)) && n.mode == inodes[k].mode && InodeShaped(n)
    ensures InodesInv(files, inodes[k := n], freeInodes)
  {
    var inodes' := inodes[k := n];
    forall l: nat | l < MAX_INODES
      ensures SlotOk(files, inodes', l) && InodeShaped(inodes'[l])
    {
      assert SlotOk(files, inodes, l);
    }
  }

  /** The inode that a successful write leaves behind. */
  lemma WrittenInode(s: Fs, ino: nat, data: seq<char>) returns (n: Inode)
    requires Inv(s) && 1 <= ino <= MAX_INODES && WriteFile(s, ino, data).1
    ensures n == WriteFile(s, ino, data).0.inodes[ino - 1]
    ensures n.mode == s.inodes[ino - 1].mode && n.size == |data| && n.blocks == BlocksFor(|data|)
    ensures InodeShaped(n) && Owned(n) == FreeAfterRelease(s, ino)[..n.blocks]
  {
    var previous := s.inodes[ino - 1];
    var list := FreeAfterRelease(s, ino)[..BlocksFor(|data|)];
    n := Inode(previous.mode, |data|, |list|, list + previous.block[|list|..]);
    assert InodeShaped(previous);
    FreeFromFacts(Release(s.used, Owned(previous)), 0);
    assert Owned(n) == list;
  }

  lemma WriteKeeps(s: Fs, ino: nat, data: seq<char>)
    requires Inv(s) && Found(s.files, ByInode(ino)) && 1 <= ino <= MAX_INODES
    requires WriteFile(s, ino, data).1
    ensures Inv(WriteFile(s, ino, data).0)
  {
    var k, previous := ino - 1, s.inodes[ino - 1];
    var used := Release(s.used, Owned(previous));
    var n := WrittenInode(s, ino, data);
    var empty := Inode(previous.mode, 0, 0, previous.block);
    assert InodeShaped(previous);
    ReleaseKeeps(s.inodes, s.used, s.freeBlocks, k, empty);
    TakeKeeps(s.inodes[k := empty], used, s.freeBlocks + CountNonZero(Owned(previous)), k, n);
    assert s.inodes[k := empty][k := n] == s.inodes[k := n];
    WriteKeepsInodes(s.files, s.inodes, s.freeInodes, k, n);
  }
}
