/**
 `rm` as the kernel runs it: a directory's entries are removed by calling `rm` again with their names,
 which are looked up in the current directory. The call may never end, so it is cut off after some turns.
 */
module RemoveState {
  import opened Limits
  import opened BkfsState
  import opened FileTable
  import opened BkfsSound
  import opened TreeModel

  /**
   The tables with the slots past the end of the file table that entries have been shifted out of.
   A call holds on to its slot number, and in the meantime the slot may come to lie there.
   */
  datatype Table = Table(fs: Fs, stale: seq<Entry>)

  function Slots(t: Table): seq<Entry> { t.fs.files + t.stale }

  predicate Within(some: seq<Entry>, all: seq<Entry>) {
    forall e :: e in some ==> e in all
  }

  /** `u` is `t` after some deletions. */
  ghost predicate Reduced(t: Table, u: Table) {
    Sound(u.fs) && u.fs.cur == t.fs.cur && |Slots(u)| == |Slots(t)| && Within(u.fs.files, t.fs.files)
  }

  /** `fs_delete_file` of the inode in a slot, and the message after it. */
  function DeleteSlot(t: Table, i: nat): (r: (Table, Reply))
    requires Sound(t.fs) && i < |Slots(t)|
    ensures Reduced(t, r.0)
  {
    var d := DeleteFile(t.fs, Slots(t)[i].inode);
    DeleteSound(t.fs, Slots(t)[i].inode);
    (Table(d.0, Slots(t)[|d.0.files|..]), if d.1 then Deleted else DeleteFailed)
  }

  /** `execute_rm`, cut off after so many turns of its loops: `None` is a call that has not ended by then. */
  function RunRm(t: Table, name: string, recursive: bool, turns: nat): (r: Option<(Table, Reply)>)
    requires Sound(t.fs)
    ensures r.Some? ==> Reduced(t, r.value.0)
    decreases turns, 1
  {
    var i := First(t.fs.files, ByName(t.fs.cur, name));
    if i == |t.fs.files| then Some((t, NotFound))
    else if t.fs.files[i].kind == Regular then Some(DeleteSlot(t, i))
    else if !recursive then Some((t, RefusedDirectory))
    else
      match RmChildren(t, t.fs.files[i].inode, 0, turns)
      case None => None
      case Some(u) => Some(DeleteSlot(u, i))
  }

  /** The scan of the table from slot `j` on: at an entry below the directory it calls `rm` and stays at `j`. */
  function RmChildren(t: Table, dir: nat, j: nat, turns: nat): (r: Option<Table>)
    requires Sound(t.fs)
    ensures r.Some? ==> Reduced(t, r.value)
    decreases turns, 0
  {
    if j >= |t.fs.files| then Some(t)
    else if turns == 0 then None
    else if t.fs.files[j].parent != dir then RmChildren(t, dir, j + 1, turns - 1)
    else
      match RunRm(t, t.fs.files[j].name, true, turns - 1)
      case None => None
      case Some(u) => RmChildren(u.0, dir, j, turns - 1)
  }
}
