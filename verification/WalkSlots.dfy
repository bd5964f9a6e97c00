/** In what state `f_opendir` leaves every slot of the table: which stay as they were, which are
    closed on the way, and with what offset and access the directory it ends at is open. */
module WalkSlots {
  import opened Bytes
  import opened Records
  import opened Paths
  import opened Walk
  import opened Invariant
  import opened Opendir

  /** The inodes that the walk goes through: those in which it looks for a name. */
  function Passed(inodes: seq<Inode>, blocks: seq<Block>, cur: int, toks: seq<seq<byte>>): set<int>
    decreases |toks|
  {
    if toks == [] then {}
    else
      var es := RawEntries(blocks, ReadInode(inodes, cur));
      var k := FirstNamed(es, 0, toks[0]);
      {cur} + (if k < |es| then Passed(inodes, blocks, ReadInode(inodes, es[k].inode).index, toks[1..]) else {})
  }

  /** The slot in which a directory is that the walk had to open. */
  function NewSlot(inodes: seq<Inode>, number: int): Slot { Slot(false, ReadInode(inodes, number), 0, READANDWRITE) }

  /** A slot that held an inode which the walk does not go through stays as it is. */
  ghost predicate Stays(base: Slot, passed: set<int>) { !base.free && base.node.index !in passed }

  /** Slot u: it stays as it is; or the directory that the walk ends at is open there, offset 0, for
      reading and writing; or it is free. */
  ghost predicate LeftAs(inodes: seq<Inode>, base: Slot, now: Slot, passed: set<int>, end: Option<Entry>) {
    if Stays(base, passed) then now == base
    else now.free || (end.Some? && now == NewSlot(inodes, end.value.inode))
  }

  ghost predicate SlotsLeft(inodes: seq<Inode>, base: seq<Slot>, table: seq<Slot>, passed: set<int>, end: Option<Entry>) {
    && |table| == |base|
    && forall u {:trigger table[u]} :: 0 < u < |base| ==> LeftAs(inodes, base[u], table[u], passed, end)
  }

  /** One name further, for the slots that do not hold the root. */
  lemma StepLeft(inodes: seq<Inode>, table: seq<Slot>, i: nat, cur: int, number: int, offset: int)
    requires AtSlot(inodes, table, i, cur)
    ensures var t := LeaveSlot(table, i, offset);
            && (forall u :: 0 < u < |table| && !table[u].free && table[u].node.index != cur ==> t[u] == table[u])
            && (forall u :: 0 < u < |table| && !t[u].free ==> !table[u].free && table[u].node.index != cur && t[u] == table[u])
    ensures var (x, t) := EnterSlot(LeaveSlot(table, i, 0), i, ReadInode(inodes, number));
            && |t| == |table|
            && (forall u :: 0 < u < |table| && !table[u].free && table[u].node.index != cur ==> t[u] == table[u])
            && (forall u :: 0 < u < |table| && !t[u].free ==>
                  t[u] == NewSlot(inodes, number) || (!table[u].free && table[u].node.index != cur && t[u] == table[u]))
            && t[0] == if i == 0 then table[0].(offset := 0) else table[0]
  {
  }

  /** What is left from the next slot on is what is left from this one on. */
  lemma LeftFurther(inodes: seq<Inode>, table: seq<Slot>, t: seq<Slot>, cur: int, number: int, w: seq<Slot>, passed: set<int>, end: Option<Entry>)
    requires |t| == |table| && SlotsLeft(inodes, t, w, passed, end)
    requires forall u :: 0 < u < |table| && !table[u].free && table[u].node.index != cur ==> t[u] == table[u]
    requires forall u :: 0 < u < |table| && !t[u].free ==>
               t[u] == NewSlot(inodes, number) || (!table[u].free && table[u].node.index != cur && t[u] == table[u])
    requires NewSlot(inodes, number).node.index in passed || (passed == {} && end.Some? && end.value.inode == number)
    ensures SlotsLeft(inodes, table, w, {cur} + passed, end)
  {
    hide ReadInode;
    forall u | 0 < u < |table| ensures LeftAs(inodes, table[u], w[u], {cur} + passed, end) {
      assert LeftAs(inodes, t[u], w[u], passed, end);
    }
  }

  lemma {:induction false} WalkLeft(inodes: seq<Inode>, blocks: seq<Block>, table: seq<Slot>, i: nat, cur: int, toks: seq<seq<byte>>, found: Entry)
    requires AtSlot(inodes, table, i, cur) && ReadInode(inodes, found.inode).index == cur
    requires table[0].offset == 0
    ensures var w := WalkFrom(inodes, blocks, table, i, toks, found);
            && SlotsLeft(inodes, table, w.table, Passed(inodes, blocks, cur, toks), w.entry)
            && w.table[0] == table[0].(offset := if w.entry.Some? then 0 else w.table[0].offset)
    decreases |toks|
  {
    hide Coherent, Numbered, RawEntries, FirstNamed, EnterSlot, ReadInode;
    if toks != [] {
      SlotHolds(inodes, table, i, cur);
      var es := RawEntries(blocks, table[i].node);
      var k := FirstNamed(es, 0, toks[0]);
      if k == |es| {
        StepLeft(inodes, table, i, cur, 0, ENTRYSIZE * |es|);
      } else {
        OneFurther(inodes, blocks, table, i, cur, es[k].inode);
        StepLeft(inodes, table, i, cur, es[k].inode, 0);
        var (x, t) := EnterSlot(LeaveSlot(table, i, 0), i, ReadInode(inodes, es[k].inode));
        var next, rest := ReadInode(inodes, es[k].inode).index, toks[1..];
        WalkLeft(inodes, blocks, t, x, next, rest, es[k]);
        var w := WalkFrom(inodes, blocks, t, x, rest, es[k]);
        assert rest != [] ==> next in Passed(inodes, blocks, next, rest);
        LeftFurther(inodes, table, t, cur, es[k].inode, w.table, Passed(inodes, blocks, next, rest), w.entry);
      }
    }
  }

  // ---- f_opendir as a whole ----

  /** The root is open in slot 0, at its start when the walk succeeds. */
  predicate RootLeft(s: State, slot: Slot, end: Option<Entry>)
    requires |s.table| > 0 && |s.inodes| > 0
  {
    slot == Slot(false, s.inodes[0], if end.Some? then 0 else slot.offset, if s.table[0].free then READANDWRITE else s.table[0].access)
  }

  /** The slot of the inode j that the walk ends at: at its start and open for reading and writing; but
      as it was if it was open and the walk has not gone through it, and the root keeps its access. */
  predicate EndsAt(s: State, table: seq<Slot>, passed: set<int>, end: Entry, j: int)
    requires |s.table| > 0 && |s.inodes| > 0
  {
    var p, was := SlotOf(table, j), SlotOf(s.table, j);
    && 0 <= p < |table| && (p == 0 <==> j == 0)
    && if j == 0 then RootLeft(s, table[p], Some(end))
       else if was != -1 && j !in passed then p == was && table[p] == s.table[was]
       else table[p] == NewSlot(s.inodes, end.inode)
  }

  lemma RootIsThere(s: State, g: Ghost)
    requires Inv(s, g)
    ensures |s.inodes| > 0 && s.inodes[0].index == 0 && |s.table| == FILETABLESIZE
    ensures !s.table[0].free ==> s.table[0].node == s.inodes[0]
  {
    hide FreeInodes, FreeBlocks, Owners, Deeps, Lasts, DirsMatch, Tree;
    assert InodeOk(s.inodes[0], 0, g.role[0]);
    assert SlotOk(s.table[0], s.inodes, g.role);
  }

  /** For every disk, table and path: what `f_opendir` leaves in every slot. */
  lemma OpendirLeaves(s: State, g: Ghost, path: seq<byte>)
    requires Inv(s, g) && RoomToWalk(s.inodes, s.table)
    ensures var toks := Tokens(path, SLASH_QUOTE);
            var passed := Passed(s.inodes, s.blocks, 0, toks);
            var (t, e) := Walk.Opendir(s, path);
            && t == s.(table := t.table, freehead := t.freehead) && |t.table| == |s.table| == FILETABLESIZE && |s.inodes| > 0
            && e == Follow(s.inodes, s.blocks, 0, toks, ROOT_ENTRY)
            && SlotsLeft(s.inodes, s.table, t.table, passed, e)
            && RootLeft(s, t.table[0], e)
            && (e.Some? ==> EndsAt(s, t.table, passed, e.value, TargetOf(s.inodes, e)))
  {
    hide WalkFrom, Follow, Passed, Coherent, Owners, Deeps, FreeBlocks, FreeInodes, DirsMatch, Lasts, Tree;
    RootFirst(s, g);
    RootIsThere(s, g);
    var base := WithRoot(s.inodes, s.table);
    var toks := Tokens(path, SLASH_QUOTE);
    WalkIsFollow(s.inodes, s.blocks, base, 0, 0, toks, ROOT_ENTRY);
    WalkLeft(s.inodes, s.blocks, base, 0, 0, toks, ROOT_ENTRY);
    OpendirExactly(s, g, path);
    var (t, e) := Walk.Opendir(s, path);
    if e.Some? {
      TargetLeft(s, g, t.table, Passed(s.inodes, s.blocks, 0, toks), e.value);
    }
  }

  lemma TargetLeft(s: State, g: Ghost, table: seq<Slot>, passed: set<int>, end: Entry)
    requires TableOk(s.table, s.inodes, g.role) && |s.inodes| > 0 && Coherent(table, s.inodes)
    requires SlotsLeft(s.inodes, s.table, table, passed, Some(end)) && RootLeft(s, table[0], Some(end))
    requires SlotOf(table, TargetOf(s.inodes, Some(end))) >= 0
    ensures EndsAt(s, table, passed, end, TargetOf(s.inodes, Some(end)))
  {
    var j := TargetOf(s.inodes, Some(end));
    var p, was := SlotOf(table, j), SlotOf(s.table, j);
    assert Cached(table[p], s.inodes);
    if j != 0 {
      assert LeftAs(s.inodes, s.table[p], table[p], passed, Some(end));
      if was != -1 {
        assert LeftAs(s.inodes, s.table[was], table[was], passed, Some(end));
      }
    }
  }
}
