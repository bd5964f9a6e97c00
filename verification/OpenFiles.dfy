/** The two functions through which the shell opens and closes directories in the table. */
module OpenFiles {
  import opened Records
  import opened Invariant
  import Opendir

  /** `addto_file_table`: the slot of the inode, which is opened unless it was open. */
  function AddToTable(table: seq<Slot>, node: Inode, access: Access): (seq<Slot>, int) {
    var fd := SlotOf(table, node.index);
    if fd != -1 then (table, fd)
    else
      var free := FirstFree(table);
      if free == -1 then (table, -1)
      else (table[free := Slot(false, node, 0, if node.kind == DIR then APPEND else access)], free)
  }

  datatype TableAndHead = TableAndHead(table: seq<Slot>, freehead: int)

  /** `remove_from_file_table`: it, too, goes by the inode, and makes its slot the free head. */
  function RemoveFromTable(table: seq<Slot>, freehead: int, node: Inode): (TableAndHead, int) {
    var fd := SlotOf(table, node.index);
    if fd == -1 then (TableAndHead(table, freehead), -1)
    else (TableAndHead(table[fd := table[fd].(free := true)], fd), fd)
  }

  /** Only the first free slot differs. */
  predicate TakesFirstFree(table: seq<Slot>, t: seq<Slot>, fd: int, slot: Slot) {
    0 <= fd < |table| && table[fd].free && (forall u :: 0 <= u < fd ==> !table[u].free) && t == table[fd := slot]
  }

  /** No inode gets a second slot, a directory that was closed is open at its start, and the table goes on agreeing with the disk, if the inode passed
      in is the one on disk and the root is open or is what is opened. */
  lemma AddKeepsTable(table: seq<Slot>, inodes: seq<Inode>, role: seq<Role>, i: int, access: Access)
    requires TableOk(table, inodes, role) && 0 <= i < |inodes| == |role| && role[i].InUse?
    requires inodes[i].index == i && inodes[i].size >= 0
    requires !table[0].free || i == 0
    ensures var (t, fd) := AddToTable(table, inodes[i], access);
            && TableOk(t, inodes, role)
            && (fd == -1 <==> SlotOf(table, i) == -1 && FirstFree(table) == -1)
            && (fd != -1 ==> 0 <= fd < |t| && SlotOf(t, i) == fd && t[fd].node == inodes[i])
            && (t == table || (fd != -1 && TakesFirstFree(table, t, fd, Slot(false, inodes[i], 0, if inodes[i].kind == DIR then APPEND else access))))
            && (t == table <==> fd == -1 || SlotOf(table, i) != -1)
  {
    var (t, fd) := AddToTable(table, inodes[i], access);
    if SlotOf(table, i) != -1 {
      assert SlotOk(table[fd], inodes, role);
    } else if fd != -1 {
      forall u | 0 <= u < |t| ensures SlotOk(t[u], inodes, role) {
        assert SlotOk(table[u], inodes, role);
      }
      AddIsIdempotent(table, inodes[i], access, access);
      assert table[0].free ==> fd == 0;
      assert !table[0].free ==> table[0].node.index == 0;
    }
  }

  /** Opening again changes nothing and gives the same slot. */
  lemma AddIsIdempotent(table: seq<Slot>, node: Inode, a: Access, b: Access)
    ensures var (t, fd) := AddToTable(table, node, a);
            fd != -1 ==> AddToTable(t, node, b) == (t, fd)
  {
    var (t, fd) := AddToTable(table, node, a);
    if fd != -1 && SlotOf(table, node.index) == -1 {
      assert t[fd].node.index == node.index && !t[fd].free;
      assert forall u :: 0 <= u < |table| && u != fd && !t[u].free ==> t[u].node.index != node.index;
      assert SlotOf(t, node.index) == fd;
    }
  }

  /** Closing what was opened restores the set of open slots, and the free head is the slot that a
      search would find. */
  lemma RemoveUndoesAdd(table: seq<Slot>, freehead: int, node: Inode, access: Access)
    requires SlotOf(table, node.index) == -1 && FirstFree(table) != -1
    ensures var (t, fd) := AddToTable(table, node, access);
            var (r, fd') := RemoveFromTable(t, freehead, node);
            && fd' == fd && |r.table| == |table| && Opendir.OpenSet(r.table) == Opendir.OpenSet(table) && r.freehead == FirstFree(r.table)
            && 0 <= fd < |table| && r.table == table[fd := t[fd].(free := true)]
  {
    AddIsIdempotent(table, node, access, access);
    var (t, fd) := AddToTable(table, node, access);
    assert SlotOf(t, node.index) == fd;
    var (r, fd') := RemoveFromTable(t, freehead, node);
    assert forall u :: 0 <= u < |table| ==> r.table[u].free == table[u].free;
    FirstFreeSame(table, r.table);
  }

  /** An inode that is open in one slot is open in none afterwards; nothing else changes, and nothing at
      all when it was not open. */
  lemma RemoveFrees(table: seq<Slot>, freehead: int, node: Inode)
    requires NoDuplicates(table)
    ensures var (r, fd) := RemoveFromTable(table, freehead, node);
            && SlotOf(r.table, node.index) == -1
            && if fd == -1 then r == TableAndHead(table, freehead) && SlotOf(table, node.index) == -1
               else && 0 <= fd < |table| && !table[fd].free && table[fd].node.index == node.index
                    && r == TableAndHead(table[fd := table[fd].(free := true)], fd)
  {
    var (r, fd) := RemoveFromTable(table, freehead, node);
    assert forall u :: 0 <= u < |r.table| && !r.table[u].free ==> u != fd && r.table[u] == table[u];
  }

  lemma FirstFreeSame(a: seq<Slot>, b: seq<Slot>)
    requires |a| == |b| && forall u :: 0 <= u < |a| ==> a[u].free == b[u].free
    ensures FirstFree(a) == FirstFree(b)
  {
    var x, y := FirstFree(a), FirstFree(b);
    assert x >= 0 ==> b[x].free;
    assert y >= 0 ==> a[y].free;
  }
}
