/** What `f_opendir` returns and what it leaves in the open-file table. */
module Opendir {
  import opened Bytes
  import opened Records
  import opened Paths
  import opened Walk
  import opened Invariant

  /** Every entry of a directory names an inode in use. */
  lemma EntryInUse(s: State, g: Ghost, i: int, k: nat)
    requires Inv(s, g) && UsedDir(s.inodes, g.role, i) && SizeOk(s.inodes[i]) && k < Count(s.inodes[i])
    ensures var j := DirEntry(s.blocks, s.inodes[i], k).inode;
            0 <= j < |s.inodes| && g.role[j].InUse? && s.inodes[j].index == j && FileSizeOk(s.inodes[j])
  {
    assert EntriesMatch(s.inodes[i], s.blocks, g.dirs[i]);
    assert DirEntry(s.blocks, s.inodes[i], k) == g.dirs[i][k];
    assert DotsOk(g.dirs[i], i, s.inodes[i].parent);
    if k == 1 && i != 0 {
      assert Named(s.inodes, g.role, g.pos, g.rank, g.dirs, i);
    } else if k >= 2 {
      assert ChildOk(s.inodes, g.role, g.pos, g.dirs[i][k], i, k);
    }
    var j := g.dirs[i][k].inode;
    assert InodeOk(s.inodes[j], j, g.role[j]);
  }

  /** An open slot holds the inode on disk, and its offset is inside it. */
  predicate Cached(slot: Slot, inodes: seq<Inode>) {
    !slot.free ==>
      && 0 <= slot.node.index < |inodes| && slot.node == inodes[slot.node.index]
      && 0 <= slot.offset <= slot.node.size
      && (slot.node.kind == DIR ==> slot.offset % ENTRYSIZE == 0)
  }

  /** The table agrees with the disk, whether or not the inodes in it are in use. */
  ghost predicate Coherent(table: seq<Slot>, inodes: seq<Inode>) {
    && |table| == FILETABLESIZE
    && (forall t {:trigger Cached(table[t], inodes)} :: 0 <= t < |table| ==> Cached(table[t], inodes))
    && NoDuplicates(table)
    && (forall t :: 0 <= t < |table| && !table[t].free ==> (table[t].node.index == 0 <==> t == 0))
  }

  lemma TableIsCoherent(table: seq<Slot>, inodes: seq<Inode>, role: seq<Role>)
    requires TableOk(table, inodes, role)
    ensures Coherent(table, inodes)
  {
    forall t | 0 <= t < |table| ensures Cached(table[t], inodes) {
      assert SlotOk(table[t], inodes, role);
    }
  }

  /** The inodes have their own numbers, as on every disk with the invariant. */
  predicate Numbered(inodes: seq<Inode>) {
    0 < |inodes| && forall i :: 0 <= i < |inodes| ==> inodes[i].index == i && 0 <= inodes[i].size
  }

  lemma InodesNumbered(inodes: seq<Inode>, role: seq<Role>)
    requires InodesOk(inodes, role)
    ensures Numbered(inodes)
  {
    forall i | 0 <= i < |inodes| ensures inodes[i].index == i && 0 <= inodes[i].size {
      assert InodeOk(inodes[i], i, role[i]);
    }
  }

  /** The walk may go on from slot i, which holds the inode cur. */
  ghost predicate AtSlot(inodes: seq<Inode>, table: seq<Slot>, i: nat, cur: int) {
    && Numbered(inodes) && Coherent(table, inodes)
    && i < |table| && !table[i].free && table[i].node.index == cur
    && !table[0].free
    && (i != 0 || FirstFree(table) != -1)
  }

  /** A slot is open in t only if it was open in base, or is slot 0, or is slot x. */
  predicate OpenWithin(t: seq<Slot>, base: seq<Slot>, x: int)
    requires |t| == |base|
  {
    forall u :: 0 <= u < |t| && !t[u].free ==> u == 0 || u == x || (!base[u].free && t[u].node == base[u].node)
  }

  /** The inode that the next name is looked for in, and what is read of it. */
  lemma SlotHolds(inodes: seq<Inode>, table: seq<Slot>, i: nat, cur: int)
    requires AtSlot(inodes, table, i, cur)
    ensures 0 <= cur < |inodes| && table[i].node == ReadInode(inodes, cur)
  {
    assert Cached(table[i], inodes);
  }

  lemma LeaveKeeps(inodes: seq<Inode>, table: seq<Slot>, i: nat, cur: int, offset: int)
    requires AtSlot(inodes, table, i, cur)
    requires 0 <= offset <= table[i].node.size && offset % ENTRYSIZE == 0
    ensures Coherent(LeaveSlot(table, i, offset), inodes)
    ensures !LeaveSlot(table, i, offset)[0].free && FirstFree(LeaveSlot(table, i, offset)) != -1
  {
    var t := LeaveSlot(table, i, offset);
    forall u | 0 <= u < |t| ensures Cached(t[u], inodes) {
      assert Cached(table[u], inodes);
    }
    if i != 0 {
      assert t[i].free;
    } else {
      assert t[FirstFree(table)].free;
    }
  }

  /** Every inode number an entry may hold is read as an inode with a number of its own: itself or,
      when there is no such inode, the root's. */
  lemma ReadIsNumbered(inodes: seq<Inode>, number: int)
    requires Numbered(inodes)
    ensures var j := ReadInode(inodes, number).index;
            && 0 <= j < |inodes| && (0 <= number < |inodes| ==> j == number && ReadInode(inodes, number) == inodes[j])
            && (!(0 <= number < |inodes|) ==> j == 0)
  {
  }

  lemma EnterKeeps(inodes: seq<Inode>, t: seq<Slot>, i: nat, number: int)
    requires Numbered(inodes) && Coherent(t, inodes) && i < |t| && !t[0].free && FirstFree(t) != -1
    requires i != 0 ==> t[i].free
    ensures var (x, t') := EnterSlot(t, i, ReadInode(inodes, number));
            && 0 <= x < |t'| == |t| && AtSlot(inodes, t', x, ReadInode(inodes, number).index)
            && (t[x].free || t'[x] == t[x]) && (forall u :: 0 <= u < |t| && u != x ==> t'[u] == t[u])
  {
    ReadIsNumbered(inodes, number);
    var node := ReadInode(inodes, number);
    var (x, t') := EnterSlot(t, i, node);
    assert SlotOf(t, node.index) >= 0 ==> Cached(t[SlotOf(t, node.index)], inodes);
    if SlotOf(t, node.index) == -1 {
      assert node.index != 0;
    }
    forall u | 0 <= u < |t'| ensures Cached(t'[u], inodes) {
      assert Cached(t[u], inodes);
    }
    if x == 0 {
      assert t'[FirstFree(t)].free;
    }
  }

  /** One name further: the slot entered is the one of the inode that `Follow` goes on in. */
  lemma OneFurther(inodes: seq<Inode>, blocks: seq<Block>, table: seq<Slot>, i: nat, cur: int, number: int)
    requires AtSlot(inodes, table, i, cur)
    ensures var t := LeaveSlot(table, i, 0);
            var (x, t') := EnterSlot(t, i, ReadInode(inodes, number));
            && 0 <= x < |t'| == |table| && AtSlot(inodes, t', x, ReadInode(inodes, number).index)
            && (t[x].free || t'[x] == t[x]) && (forall u :: 0 <= u < |t| && u != x ==> t'[u] == t[u])
  {
    SlotHolds(inodes, table, i, cur);
    LeaveKeeps(inodes, table, i, cur, 0);
    EnterKeeps(inodes, LeaveSlot(table, i, 0), i, number);
  }

  /** For every disk, table and path: the walk returns what the lookup returns that is blind to the
      kind of the inodes it goes through. */
  lemma {:induction false} WalkIsFollow(inodes: seq<Inode>, blocks: seq<Block>, table: seq<Slot>, i: nat, cur: int, toks: seq<seq<byte>>, found: Entry)
    requires AtSlot(inodes, table, i, cur)
    ensures WalkFrom(inodes, blocks, table, i, toks, found).entry == Follow(inodes, blocks, cur, toks, found)
    decreases |toks|
  {
    hide Coherent, Numbered, RawEntries, FirstNamed, EnterSlot;
    if toks != [] {
      SlotHolds(inodes, table, i, cur);
      var es := RawEntries(blocks, table[i].node);
      var k := FirstNamed(es, 0, toks[0]);
      if k < |es| {
        OneFurther(inodes, blocks, table, i, cur, es[k].inode);
        var (x, t) := EnterSlot(LeaveSlot(table, i, 0), i, ReadInode(inodes, es[k].inode));
        WalkIsFollow(inodes, blocks, t, x, ReadInode(inodes, es[k].inode).index, toks[1..], es[k]);
      }
    }
  }

  /** What is found does not depend on what was found before. */
  lemma FollowFrom(inodes: seq<Inode>, blocks: seq<Block>, cur: int, toks: seq<seq<byte>>, a: Entry, b: Entry)
    ensures Follow(inodes, blocks, cur, toks, a).Some? <==> Follow(inodes, blocks, cur, toks, b).Some?
  {
  }

  /** That lookup is the lookup in the tree exactly when no regular file leads it to an answer. */
  lemma {:induction false} FollowIsLookupExactly(s: State, g: Ghost, cur: int, toks: seq<seq<byte>>, found: Entry)
    requires Inv(s, g) && 0 <= cur < |s.inodes| && |g.role| == |s.inodes| && g.role[cur].InUse?
    ensures Follow(s.inodes, s.blocks, cur, toks, found) == Lookup(s.inodes, s.blocks, cur, toks, found)
            <==> !Forged(s.inodes, s.blocks, cur, toks)
    decreases |toks|
  {
    hide Inv, FirstNamed;
    if toks != [] {
      var node := s.inodes[cur];
      var es := RawEntries(s.blocks, node);
      var k := FirstNamed(es, 0, toks[0]);
      FollowFrom(s.inodes, s.blocks, cur, toks, found, ROOT_ENTRY);
      if node.kind == DIR && k < |es| {
        EntryInUse(s, g, cur, k);
        var j := es[k].inode;
        FollowFrom(s.inodes, s.blocks, j, toks[1..], es[k], ROOT_ENTRY);
        FollowIsLookupExactly(s, g, j, toks[1..], es[k]);
      } else {
        UsedKind(s, g, cur);
      }
    }
  }

  lemma UsedKind(s: State, g: Ghost, i: int)
    requires Inv(s, g) && 0 <= i < |s.inodes| && |g.role| == |s.inodes| && g.role[i].InUse?
    ensures s.inodes[i].kind == DIR || s.inodes[i].kind == REG
  {
    assert InodeOk(s.inodes[i], i, g.role[i]);
  }

  /** What the walk does to the table: nothing stays open but what was, the root and the target;
      nothing new stays open when it fails. */
  ghost predicate WalkLeaves(inodes: seq<Inode>, w: Walked, base: seq<Slot>)
    requires |w.table| == |base|
  {
    && Coherent(w.table, inodes) && !w.table[0].free
    && (w.freehead == -1 || (0 <= w.freehead < |w.table| && w.table[w.freehead].free))
    && match w.entry
       case None => OpenWithin(w.table, base, 0)
       case Some(e) =>
         var j := ReadInode(inodes, e.inode).index;
         && w.freehead == FirstFree(w.table) && SlotOf(w.table, j) >= 0
         && OpenWithin(w.table, base, SlotOf(w.table, j))
  }

  lemma {:induction false} WalkTable(inodes: seq<Inode>, blocks: seq<Block>, table: seq<Slot>, i: nat, cur: int, toks: seq<seq<byte>>, found: Entry, base: seq<Slot>)
    requires AtSlot(inodes, table, i, cur)
    requires |base| == |table| && OpenWithin(table, base, i) && ReadInode(inodes, found.inode).index == cur
    ensures var w := WalkFrom(inodes, blocks, table, i, toks, found);
            |w.table| == |base| && WalkLeaves(inodes, w, base)
    decreases |toks|
  {
    hide DirEntry;
    if toks == [] {
      assert SlotOf(table, cur) == i by {
        assert !table[i].free && table[i].node.index == cur;
      }
    } else {
      SlotHolds(inodes, table, i, cur);
      var es := RawEntries(blocks, table[i].node);
      var k := FirstNamed(es, 0, toks[0]);
      if k == |es| {
        LeaveKeeps(inodes, table, i, cur, ENTRYSIZE * |es|);
      } else {
        OneFurther(inodes, blocks, table, i, cur, es[k].inode);
        var (x, t) := EnterSlot(LeaveSlot(table, i, 0), i, ReadInode(inodes, es[k].inode));
        WalkTable(inodes, blocks, t, x, ReadInode(inodes, es[k].inode).index, toks[1..], es[k], base);
      }
    }
  }

  // ---- f_opendir as a whole ----

  ghost function OpenSet(table: seq<Slot>): set<int> {
    set t | 0 <= t < |table| && !table[t].free
  }

  /** The table has a slot for the root or, when that is open, for one more directory. */
  predicate RoomToWalk(inodes: seq<Inode>, table: seq<Slot>) {
    |table| > 0 && FirstFree(WithRoot(inodes, table)) != -1
  }

  lemma RootFirst(s: State, g: Ghost)
    requires Inv(s, g) && RoomToWalk(s.inodes, s.table)
    ensures |WithRoot(s.inodes, s.table)| == |s.table| && AtSlot(s.inodes, WithRoot(s.inodes, s.table), 0, 0)
    ensures OpenWithin(WithRoot(s.inodes, s.table), s.table, 0)
  {
    var t := WithRoot(s.inodes, s.table);
    InodesNumbered(s.inodes, g.role);
    TableIsCoherent(s.table, s.inodes, g.role);
    forall u | 0 <= u < |t| ensures Cached(t[u], s.inodes) {
      assert Cached(s.table[u], s.inodes);
    }
  }

  /** The inode an entry leads the walk to. */
  function TargetOf(inodes: seq<Inode>, e: Option<Entry>): int {
    if e.None? then 0 else ReadInode(inodes, e.value.inode).index
  }

  /** A coherent table speaks of inodes in use exactly when the target, the only inode that may have
      come in, is in use. */
  lemma LeftInUse(s: State, g: Ghost, w: Walked)
    requires Inv(s, g) && |w.table| == |s.table| && WalkLeaves(s.inodes, w, s.table)
    ensures 0 <= TargetOf(s.inodes, w.entry) < |g.role|
    ensures TableOk(w.table, s.inodes, g.role) <==> g.role[TargetOf(s.inodes, w.entry)].InUse?
  {
    hide FreeInodes, FreeBlocks, Owners, Deeps, Lasts, DirsMatch, Tree;
    var j := TargetOf(s.inodes, w.entry);
    InodesNumbered(s.inodes, g.role);
    if w.entry.Some? {
      ReadIsNumbered(s.inodes, w.entry.value.inode);
      if TableOk(w.table, s.inodes, g.role) {
        assert SlotOk(w.table[SlotOf(w.table, j)], s.inodes, g.role);
      }
    }
    if g.role[j].InUse? {
      forall u | 0 <= u < |w.table| ensures SlotOk(w.table[u], s.inodes, g.role) {
        assert Cached(w.table[u], s.inodes) && SlotOk(s.table[u], s.inodes, g.role);
      }
    }
  }

  /** `f_opendir` returns what the lookup returns that never asks for a type; that is the entry of
      the path in the tree exactly when no regular file on the way leads to an answer. It leaves the
      disk alone, and keeps the invariant exactly when the inode it ends at is in use. */
  lemma OpendirExactly(s: State, g: Ghost, path: seq<byte>)
    requires Inv(s, g) && RoomToWalk(s.inodes, s.table)
    ensures var toks := Tokens(path, SLASH_QUOTE);
            var (t, e) := Opendir(s, path);
            && t == s.(table := t.table, freehead := t.freehead) && |t.table| == |s.table|
            && e == Follow(s.inodes, s.blocks, 0, toks, ROOT_ENTRY)
            && (e == Lookup(s.inodes, s.blocks, 0, toks, ROOT_ENTRY) <==> !Forged(s.inodes, s.blocks, 0, toks))
            && WalkLeaves(s.inodes, Walked(t.table, t.freehead, e), s.table)
            && 0 <= TargetOf(s.inodes, e) < |g.role|
            && (Inv(t, g) <==> g.role[TargetOf(s.inodes, e)].InUse?)
  {
    hide WalkFrom, Follow, Lookup, WithRoot, Coherent, Owners, Deeps, FreeBlocks, FreeInodes, DirsMatch, Lasts, Tree;
    RootFirst(s, g);
    var base := WithRoot(s.inodes, s.table);
    var toks := Tokens(path, SLASH_QUOTE);
    WalkIsFollow(s.inodes, s.blocks, base, 0, 0, toks, ROOT_ENTRY);
    InodesNumbered(s.inodes, g.role);
    ReadIsNumbered(s.inodes, 0);
    WalkTable(s.inodes, s.blocks, base, 0, 0, toks, ROOT_ENTRY, s.table);
    FollowIsLookupExactly(s, g, 0, toks, ROOT_ENTRY);
    var (t, e) := Opendir(s, path);
    LeftInUse(s, g, Walked(t.table, t.freehead, e));
  }

  /** The lookup in the tree ends at an inode in use. */
  lemma {:induction false} LookupInUse(s: State, g: Ghost, cur: int, toks: seq<seq<byte>>, found: Entry)
    requires Inv(s, g) && 0 <= cur < |s.inodes| && |g.role| == |s.inodes| && g.role[cur].InUse? && found.inode == cur
    requires Lookup(s.inodes, s.blocks, cur, toks, found).Some?
    ensures var j := Lookup(s.inodes, s.blocks, cur, toks, found).value.inode;
            0 <= j < |s.inodes| && g.role[j].InUse? && s.inodes[j].index == j
    decreases |toks|
  {
    hide Inv, FirstNamed;
    if toks == [] {
      UsedNumber(s, g, cur);
    } else {
      var es := RawEntries(s.blocks, s.inodes[cur]);
      var k := FirstNamed(es, 0, toks[0]);
      EntryInUse(s, g, cur, k);
      LookupInUse(s, g, es[k].inode, toks[1..], es[k]);
    }
  }

  lemma UsedNumber(s: State, g: Ghost, i: int)
    requires Inv(s, g) && 0 <= i < |s.inodes| && |g.role| == |s.inodes|
    ensures s.inodes[i].index == i
  {
    assert InodeOk(s.inodes[i], i, g.role[i]);
  }

  /** On a path that no regular file forges, `f_opendir` is the lookup and keeps the invariant. */
  lemma OpendirIsLookup(s: State, g: Ghost, path: seq<byte>)
    requires Inv(s, g) && RoomToWalk(s.inodes, s.table)
    requires !Forged(s.inodes, s.blocks, 0, Tokens(path, SLASH_QUOTE))
    ensures var (t, e) := Opendir(s, path);
            && Inv(t, g) && t == s.(table := t.table, freehead := t.freehead) && |t.table| == |s.table|
            && e == Lookup(s.inodes, s.blocks, 0, Tokens(path, SLASH_QUOTE), ROOT_ENTRY)
            && WalkLeaves(s.inodes, Walked(t.table, t.freehead, e), s.table)
            && (e.Some? ==> 0 <= e.value.inode < |s.inodes| == |g.role| && g.role[e.value.inode].InUse?
                            && s.inodes[e.value.inode].index == e.value.inode)
  {
    hide Disk, FreeInodes, Tree, Opendir, Lookup, Forged;
    OpendirExactly(s, g, path);
    RootInUse(s, g);
    var (t, e) := Opendir(s, path);
    if e.Some? {
      LookupInUse(s, g, 0, Tokens(path, SLASH_QUOTE), ROOT_ENTRY);
    }
  }

  lemma RootInUse(s: State, g: Ghost)
    requires Inv(s, g)
    ensures |g.role| == |s.inodes| > 0 && g.role[0].InUse?
  {
  }

  /** Every slot left open was open before, is the root's or is the target's; on failure no target
      slot stays behind. So the number of open slots grows by at most two, however long the path
      and whatever it leads through. */
  lemma OpendirSlots(s: State, g: Ghost, path: seq<byte>)
    requires Inv(s, g) && RoomToWalk(s.inodes, s.table)
    ensures var (t, e) := Opendir(s, path);
            var target := if e.Some? then {SlotOf(t.table, TargetOf(s.inodes, e))} else {};
            && OpenSet(t.table) <= OpenSet(s.table) + {0} + target
            && |OpenSet(t.table)| <= |OpenSet(s.table)| + (if e.Some? then 2 else 1)
  {
    hide Inv, Opendir, Coherent;
    OpendirExactly(s, g, path);
    var (t, e) := Opendir(s, path);
    OpenWithinSets(t.table, s.table, if e.Some? then SlotOf(t.table, TargetOf(s.inodes, e)) else 0);
  }

  lemma OpenWithinSets(t: seq<Slot>, base: seq<Slot>, x: int)
    requires |t| == |base| && OpenWithin(t, base, x)
    ensures OpenSet(t) <= OpenSet(base) + {0} + {x}
    ensures |OpenSet(t)| <= |OpenSet(base)| + (if x == 0 then 1 else 2)
  {
    var more := {0} + {x};
    assert |more| == if x == 0 then 1 else 2;
    SubsetSize(OpenSet(t), OpenSet(base) + more);
    assert |OpenSet(base) + more| == |OpenSet(base)| + |more| - |OpenSet(base) * more|;
  }

  lemma {:induction false} SubsetSize(a: set<int>, b: set<int>)
    requires a <= b
    ensures |a| <= |b|
  {
    assert b == a + (b - a);
    assert |b| == |a| + |b - a|;
  }
}
