/** The calls of a run, and the guard of each: a condition on the state before the call that says
    which of the shortcomings of the code it would run into. */
module Guards {
  import opened Bytes
  import opened Records
  import opened Operations
  import opened Paths
  import opened Walk
  import opened Transfer
  import opened Calls
  import opened Invariant
  import Opendir
  import FileTree
  import Conservation
  import Birth
  import Release
  import Deletion
  import WriteWhole
  import Appending
  import Intended

  // ---- free blocks, counted on disk ----

  /** The free list has at least n elements. */
  predicate ListAtLeast(blocks: seq<Block>, head: int, n: nat)
    decreases n
  {
    n == 0 || (0 <= head < |blocks| && ListAtLeast(blocks, Link(blocks[head]), n - 1))
  }

  /** Counting along the links agrees with the sequence the invariant speaks of. */
  lemma {:induction false} ListLength(blocks: seq<Block>, own: seq<Owner>, fb: seq<int>, d: nat, n: nat)
    requires FreeBlocks(Top(fb), blocks, own, fb) && d <= |fb|
    ensures ListAtLeast(blocks, Top(fb[..d]), n) <==> n <= d
    decreases n
  {
    if n > 0 && d > 0 {
      assert FreeAt(fb, blocks, own, d - 1);
      assert Top(fb[..d]) == fb[d - 1] && Below(fb, d - 1) == Top(fb[..d - 1]);
      ListLength(blocks, own, fb, d - 1, n - 1);
    }
  }

  lemma FreeCount(s: State, g: Ghost, n: nat)
    requires Inv(s, g)
    ensures ListAtLeast(s.blocks, s.sb.freeBlock, n) <==> n <= |g.fb|
  {
    ListLength(s.blocks, g.own, g.fb, |g.fb|, n);
    assert g.fb[..|g.fb|] == g.fb;
  }

  // ---- free inodes, looked up on disk ----

  /** Inode i is among the first n of the free list. */
  predicate ListsInode(inodes: seq<Inode>, head: int, i: int, n: nat)
    decreases n
  {
    n > 0 && 0 <= head < |inodes| && (head == i || ListsInode(inodes, inodes[head].next, i, n - 1))
  }

  lemma {:induction false} FreeInodeListed(inodes: seq<Inode>, role: seq<Role>, fi: seq<int>, d: nat, i: nat, n: nat)
    requires FreeInodes(Top(fi), inodes, role, fi) && d <= |fi| && i < |inodes|
    requires role[i].Idle? ==> role[i].d < |fi|
    ensures role[i].Idle? && role[i].d < d && d - role[i].d <= n ==> ListsInode(inodes, Top(fi[..d]), i, n)
    ensures ListsInode(inodes, Top(fi[..d]), i, n) ==> role[i].Idle?
    decreases n
  {
    if n > 0 && d > 0 {
      assert IdleAt(fi, inodes, role, d - 1);
      assert Top(fi[..d]) == fi[d - 1] && Below(fi, d - 1) == Top(fi[..d - 1]);
      assert InodeListed(fi, role[i], i);
      FreeInodeListed(inodes, role, fi, d - 1, i, n - 1);
    }
  }

  /** The list has no more elements than there are inodes. */
  lemma ListFits(inodes: seq<Inode>, role: seq<Role>, fi: seq<int>)
    requires FreeInodes(Top(fi), inodes, role, fi)
    ensures |fi| <= |inodes|
  {
    forall d, e | 0 <= d < e < |fi| ensures fi[d] != fi[e] {
      assert IdleAt(fi, inodes, role, d) && IdleAt(fi, inodes, role, e);
    }
    forall d | 0 <= d < |fi| ensures 0 <= fi[d] < |inodes| {
      assert IdleAt(fi, inodes, role, d);
    }
    FileTree.DistinctSize(fi);
    Opendir.SubsetSize((set x | x in fi), Conservation.Numbers(|inodes|));
  }

  /** An inode is in use exactly when following the links on disk does not lead to it. */
  lemma InUseExactly(s: State, g: Ghost, i: nat)
    requires Inv(s, g) && i < |s.inodes|
    ensures |g.role| == |s.inodes| && (g.role[i].InUse? <==> !ListsInode(s.inodes, s.sb.freeInode, i, |s.inodes|))
  {
    hide Disk, Tree;
    ListFits(s.inodes, g.role, g.fi);
    assert InodeListed(g.fi, g.role[i], i);
    assert g.fi[..|g.fi|] == g.fi;
    FreeInodeListed(s.inodes, g.role, g.fi, |g.fi|, i, |s.inodes|);
  }

  // ---- the calls of a run ----

  datatype Op =
    | FOpen(path: seq<byte>, access: Access)
    | FMkdir(path: seq<byte>)
    | FRemove(path: seq<byte>, stale: Block)
    | FWrite(fd: int, data: seq<byte>)
    | FClose(fd: int)
    | FOpendir(path: seq<byte>)
    | FSeek(fd: int, offset: int, whence: Whence)
    | FReaddir(fd: int)

  /** The walk that every call by path begins with can be made, and the inode it ends at is in use. That
      is in question only where it goes through the bytes of a regular file. */
  predicate WalkGuard(s: State, path: seq<byte>) {
    var toks := Tokens(path, SLASH_QUOTE);
    && Opendir.RoomToWalk(s.inodes, s.table)
    && (Forged(s.inodes, s.blocks, 0, toks) ==> EndsInUse(s, Follow(s.inodes, s.blocks, 0, toks, ROOT_ENTRY)))
  }

  predicate EndsInUse(s: State, e: Option<Entry>) {
    e.Some? ==> 0 <= e.value.inode < |s.inodes| && !ListsInode(s.inodes, s.sb.freeInode, e.value.inode, |s.inodes|)
  }

  /** `f_open` in the directory open in slot p: there is a free slot, and a new file finds room in the
      directory and blocks enough. */
  predicate OpenRoom(t: State, p: int, name: seq<byte>, access: Access) {
    && 0 <= p < |t.table| && t.table[p].node.kind == DIR && NameOk(name)
    && 0 <= t.freehead < |t.table|
    && var es := RawEntries(t.blocks, t.table[p].node);
       (FirstRegular(t.inodes, es, 0, name) == |es| && access != READ && t.sb.freeInode != -1 ==> RoomFor(t, p))
  }

  /** And a file that is there is not open already. */
  predicate OpenGuard(t: State, p: int, name: seq<byte>, access: Access) {
    && OpenRoom(t, p, name, access)
    && var es := RawEntries(t.blocks, t.table[p].node);
       var k := FirstRegular(t.inodes, es, 0, name);
       (k < |es| ==> SlotOf(t.table, es[k].inode) == -1)
  }

  /** The directory can take an entry and there are blocks for it and for the new file. */
  predicate RoomFor(t: State, p: nat)
    requires p < |t.table|
  {
    && 0 <= t.table[p].node.size < DIRECT_LIMIT
    && ListAtLeast(t.blocks, t.sb.freeBlock, Birth.BlocksNeeded(t.table[p].node))
  }

  /** `f_mkdir`: as for a new file. */
  predicate MkdirRoom(t: State, p: int, name: seq<byte>) {
    && 0 <= p < |t.table| && t.table[p].node.kind == DIR && NameOk(name)
    && (t.sb.freeInode != -1 ==> RoomFor(t, p) && 0 <= t.sb.freeInode < |t.inodes|)
  }

  /** And the child's `last_block_index` gets set. */
  predicate MkdirGuard(t: State, v: Variant, p: int, name: seq<byte>) {
    MkdirRoom(t, p, name) && (t.sb.freeInode != -1 ==> Birth.ChildLastSet(t, v, p))
  }

  /** `f_remove`: not "." or ".."; a directory to be removed is empty; and the call is sound. */
  predicate RemoveGuard(t: State, v: Variant, p: int, name: seq<byte>, stale: Block) {
    && 0 <= p < |t.table| && t.table[p].node.kind == DIR && name != DOT && name != DOTDOT
    && SizeOk(t.table[p].node) && 0 <= ScanStart(t, v, p) <= Count(t.table[p].node)
    && var es := Entries(t.blocks, t.table[p].node);
       var k := FirstNamed(es, ScanStart(t, v, p), name);
       k < |es| ==>
         var file := ReadInode(t.inodes, es[k].inode);
         SlotOf(t.table, es[k].inode) == -1 ==>
           && CanRelease(v, file) && (file.kind == DIR ==> file.size == 2 * ENTRYSIZE)
           && (v.Repaired? || !GivesUpBlock(t.table[p].node))
           && Release.LinksKept(v, ReturnedBlocks(v, file), stale, Deletion.HeadAfterDrop(t, p))
  }

  /** `f_write` to an open, writable regular file: some data, within the direct blocks and the free
      ones; appended data fits the last block, other data does not inflate the size by a block. */
  predicate WriteGuard(s: State, fd: int, data: seq<byte>) {
    && ValidFd(fd) && |s.table| == FILETABLESIZE
    && var slot := s.table[fd];
       !slot.free && slot.access != READ && slot.node.kind == REG ==>
         && data != [] && WithinDirect(slot, |data|)
         && if slot.access == APPEND then Appending.FitsLastBlock(slot.node, |data|)
            else
              && slot.offset <= slot.node.size && WriteWhole.WriteKeepsCount(slot, |data|)
              && ListAtLeast(s.blocks, s.sb.freeBlock, BlocksWanted(slot, |data|))
  }

  /** As intended: within what the pointers of an inode can lead to and the free blocks, and that is
      all. */
  predicate IntendedWriteGuard(s: State, fd: int, data: seq<byte>) {
    && ValidFd(fd) && |s.table| == FILETABLESIZE
    && var slot := s.table[fd];
       !slot.free && slot.access != READ && slot.node.kind == REG ==>
         && Intended.WithinTree(slot, |data|)
         && ListAtLeast(s.blocks, s.sb.freeBlock, BlocksToGrow(slot, |data|))
  }

  /** The blocks by which a file grows, index blocks included. */
  function BlocksToGrow(slot: Slot, length: nat): nat
    requires Intended.WithinTree(slot, length)
  {
    Max(0, Intended.BlocksWith(Max(slot.node.size, Place(slot) + length)) - Intended.BlocksWith(slot.node.size))
  }

  function BlocksWanted(slot: Slot, length: nat): nat
    requires WithinDirect(slot, length)
  {
    Max(0, WriteWhole.BlocksTaken(slot, length))
  }

  /** A call by path meets its guard in the directory that its walk finds, if any. */
  predicate Guard(s: State, v: Variant, op: Op) {
    |s.table| == FILETABLESIZE &&
    match op
    case FOpen(path, access) =>
      var toks := Tokens(path, SLASH_ONLY);
      && toks != [] && WalkGuard(s, ParentPath(toks))
      && var (t, e) := Walk.Opendir(s, ParentPath(toks));
         (e.Some? ==> OpenGuard(t, DirSlot(t, e.value), NameOf(toks), access))
    case FMkdir(path) =>
      var toks := Tokens(path, SLASH_ONLY);
      && toks != [] && WalkGuard(s, ParentPath(toks))
      && var (t, e) := Walk.Opendir(s, ParentPath(toks));
         (e.Some? ==> MkdirGuard(t, v, DirSlot(t, e.value), NameOf(toks)))
    case FRemove(path, stale) =>
      var toks := Tokens(path, SLASH_QUOTE);
      && toks != [] && WalkGuard(s, ParentPath(toks))
      && var (t, e) := Walk.Opendir(s, ParentPath(toks));
         (e.Some? ==> RemoveGuard(t, v, DirSlot(t, e.value), NameOf(toks), stale))
    case FWrite(fd, data) => ValidFd(fd) && if v.Repaired? then IntendedWriteGuard(s, fd, data) else WriteGuard(s, fd, data)
    case FClose(fd) => true
    case FOpendir(path) => WalkGuard(s, path)
    case FSeek(fd, offset, whence) =>
      ValidFd(fd) && s.table[fd].node.kind == DIR ==> SeekTo(s.table[fd], offset, whence) % ENTRYSIZE == 0
    case FReaddir(fd) => ValidFd(fd) ==> !s.table[fd].free && s.table[fd].node.kind == DIR
  }

  // ---- each call ----

  /** Changing an offset within the file. */
  lemma OffsetKeeps(s: State, g: Ghost, p: nat, offset: int)
    requires Inv(s, g) && p < |s.table| && (s.table[p].free || 0 <= offset <= s.table[p].node.size)
    requires s.table[p].free || s.table[p].node.kind != DIR || offset % ENTRYSIZE == 0
    ensures Inv(WithOffset(s, p, offset), g)
  {
    hide FreeInodes, FreeBlocks, Owners, Deeps, Lasts, DirsMatch, Tree, InodesOk;
    var t := WithOffset(s, p, offset);
    forall u | 0 <= u < |t.table| ensures SlotOk(t.table[u], t.inodes, g.role) {
      assert SlotOk(s.table[u], s.inodes, g.role);
    }
  }

  /** What the walk leaves for the call, when it succeeds. */
  ghost predicate AtDir(t: State, g: Ghost, e: Entry) {
    && Inv(t, g) && !t.table[0].free && t.freehead == FirstFree(t.table)
    && 0 <= DirSlot(t, e) < |t.table| == FILETABLESIZE
    && !t.table[DirSlot(t, e)].free
  }

  lemma WalkKeeps(s: State, g: Ghost, path: seq<byte>)
    requires Inv(s, g) && WalkGuard(s, path)
    ensures var (t, e) := Walk.Opendir(s, path); Inv(t, g) && (e.Some? ==> AtDir(t, g, e.value))
  {
    hide Disk, FreeInodes, Tree, Walk.Opendir, Follow, Lookup, Forged;
    if Forged(s.inodes, s.blocks, 0, Tokens(path, SLASH_QUOTE)) {
      Opendir.OpendirExactly(s, g, path);
      var (t, e) := Walk.Opendir(s, path);
      if e.Some? {
        InUseExactly(s, g, e.value.inode);
        Opendir.UsedNumber(s, g, e.value.inode);
      } else {
        Opendir.RootInUse(s, g);
      }
    } else {
      Opendir.OpendirIsLookup(s, g, path);
    }
  }

  /** What the directory in an open slot is. */
  lemma DirFacts(t: State, g: Ghost, p: nat)
    requires Inv(t, g) && p < |t.table| && !t.table[p].free && t.table[p].node.kind == DIR
    ensures var dir := t.table[p].node;
            && UsedDir(t.inodes, g.role, dir.index) && dir == t.inodes[dir.index] && SizeOk(dir) && DirSizeOk(dir)
            && 0 <= t.table[p].offset <= dir.size && t.table[p].offset % ENTRYSIZE == 0
            && |g.dirs| == |t.inodes| && Entries(t.blocks, dir) == g.dirs[dir.index]
            && 2 <= Count(dir)
  {
    hide FreeInodes, FreeBlocks, Owners, Deeps, Lasts, Tree;
    var dir := t.table[p].node;
    assert SlotOk(t.table[p], t.inodes, g.role) && InodeOk(t.inodes[dir.index], dir.index, g.role[dir.index]);
    assert EntriesMatch(t.inodes[dir.index], t.blocks, g.dirs[dir.index]);
  }

  /** Entry k of an open directory. */
  lemma EntryFacts(t: State, g: Ghost, p: nat, k: nat)
    requires Inv(t, g) && p < |t.table| && !t.table[p].free && t.table[p].node.kind == DIR
    requires SizeOk(t.table[p].node) && k < Count(t.table[p].node)
    ensures var e := Entries(t.blocks, t.table[p].node)[k];
            && 0 <= e.inode < |t.inodes| == |g.role| && g.role[e.inode].InUse? && t.inodes[e.inode].index == e.inode && FileSizeOk(t.inodes[e.inode])
            && 0 < |e.name| < FILENAMEMAX
            && (k == 0 ==> e.name == DOT) && (k == 1 ==> e.name == DOTDOT)
  {
    hide FreeInodes, FreeBlocks, Owners, Deeps, Lasts, DirsMatch;
    DirFacts(t, g, p);
    var d := t.table[p].node.index;
    Opendir.EntryInUse(t, g, d, k);
    assert DotsOk(g.dirs[d], d, t.inodes[d].parent);
    if k >= 2 {
      assert ChildOk(t.inodes, g.role, g.pos, g.dirs[d][k], d, k);
    }
  }

  lemma HeadOk(t: State, g: Ghost)
    requires Inv(t, g)
    ensures t.sb.freeInode != -1 <==> g.fi != []
    ensures t.sb.freeInode != -1 ==> 0 <= t.sb.freeInode < |t.inodes|
  {
    hide FreeBlocks, Owners, Deeps, Lasts, DirsMatch, Tree, TableOk;
    if g.fi != [] {
      assert IdleAt(g.fi, t.inodes, g.role, |g.fi| - 1);
    }
  }

  lemma OpenExistingKeeps(t: State, g: Ghost, j: int, access: Access)
    requires Inv(t, g) && !t.table[0].free && 0 <= t.freehead < |t.table| && t.table[t.freehead].free
    requires 0 < j < |t.inodes| == |g.role| && g.role[j].InUse? && t.inodes[j].index == j && FileSizeOk(t.inodes[j])
    requires SlotOf(t.table, j) == -1
    ensures Inv(OpenExisting(t, t.inodes[j], access), g)
  {
    hide FreeInodes, FreeBlocks, Owners, Deeps, Lasts, DirsMatch, Tree, InodesOk;
    Birth.TableOpens(t.table, t.inodes, g.role, t.freehead, Slot(false, t.inodes[j], 0, access));
  }

  /** Room on disk is room in the sense of the proofs. */
  lemma RoomIsRoom(t: State, g: Ghost, p: nat, name: seq<byte>)
    requires Inv(t, g) && p < |t.table| && !t.table[p].free && t.table[p].node.kind == DIR && NameOk(name)
    requires RoomFor(t, p) && t.sb.freeInode != -1
    ensures Birth.CanCreate(t, g, p, name)
  {
    hide Disk, FreeInodes, Tree;
    HeadOk(t, g);
    FreeCount(t, g, Birth.BlocksNeeded(t.table[p].node));
  }

  /** `f_open` of a file that is there. */
  lemma OpenOldKeeps(t: State, g: Ghost, p: nat, k: nat, access: Access)
    requires Inv(t, g) && !t.table[0].free && 0 <= t.freehead < |t.table| && t.table[t.freehead].free
    requires p < |t.table| && !t.table[p].free && t.table[p].node.kind == DIR
    requires SizeOk(t.table[p].node) && k < Count(t.table[p].node)
    requires var j := Entries(t.blocks, t.table[p].node)[k].inode;
             ReadInode(t.inodes, j).kind == REG && SlotOf(t.table, j) == -1
    ensures var j := Entries(t.blocks, t.table[p].node)[k].inode;
            Inv(OpenExisting(WithOffset(t, p, ENTRYSIZE * (k + 1)), ReadInode(t.inodes, j), access), g)
  {
    hide Disk, FreeInodes, Tree;
    DirFacts(t, g, p);
    EntryFacts(t, g, p, k);
    var j := Entries(t.blocks, t.table[p].node)[k].inode;
    OffsetKeeps(t, g, p, ENTRYSIZE * (k + 1));
    SameSlots(t.table, p, ENTRYSIZE * (k + 1), j);
    RootIsDir(t, g);
    OpenExistingKeeps(WithOffset(t, p, ENTRYSIZE * (k + 1)), g, j, access);
  }

  /** `f_open` of a file that is not there. */
  lemma OpenNewKeeps(t: State, g: Ghost, p: nat, name: seq<byte>, access: Access) returns (h: Ghost)
    requires Inv(t, g) && !t.table[0].free && 0 <= t.freehead < |t.table| && t.table[t.freehead].free
    requires p < |t.table| && !t.table[p].free && t.table[p].node.kind == DIR && NameOk(name)
    requires RoomFor(t, p) && t.sb.freeInode != -1
    ensures CanAddTo(t, p, name) && SizeOk(t.table[p].node)
    ensures CanAddTo(WithOffset(t, p, ENTRYSIZE * Count(t.table[p].node)), p, name)
    ensures Inv(CreateFile(WithOffset(t, p, ENTRYSIZE * Count(t.table[p].node)), p, name, access), h) && LostSet(h.own) == LostSet(g.own)
  {
    hide Disk, FreeInodes, Tree, CreateFile, LostSet;
    DirFacts(t, g, p);
    RoomIsRoom(t, g, p, name);
    Birth.HeadInode(t, g, p, name);
    var c := Count(t.table[p].node);
    OffsetKeeps(t, g, p, ENTRYSIZE * c);
    var u := WithOffset(t, p, ENTRYSIZE * c);
    RoomIsRoom(u, g, p, name);
    Birth.CreateKeeps(u, g, p, name, access);
    Birth.CreateLosesNothing(u, g, p, name);
    h := Birth.GhostAfterCreate(u, g, p, name);
  }

  /** `f_open` in an open directory. */
  lemma OpenInKeeps(t: State, g: Ghost, e: Entry, name: seq<byte>, access: Access) returns (h: Ghost)
    requires AtDir(t, g, e) && OpenGuard(t, DirSlot(t, e), name, access)
    ensures var p := DirSlot(t, e);
            var es := RawEntries(t.blocks, t.table[p].node);
            && (FirstRegular(t.inodes, es, 0, name) == |es| && access != READ && t.sb.freeInode != -1 ==> CanAddTo(t, p, name))
            && Inv(OpenIn(t, p, name, access).0, h) && LostSet(h.own) == LostSet(g.own)
  {
    hide Disk, FreeInodes, Tree, CreateFile, OpenExisting, CanAddTo, LostSet;
    h := g;
    var p := DirSlot(t, e);
    DirFacts(t, g, p);
    var es := RawEntries(t.blocks, t.table[p].node);
    var k := FirstRegular(t.inodes, es, 0, name);
    if k < |es| {
      OpenOldKeeps(t, g, p, k, access);
    } else {
      OffsetKeeps(t, g, p, ENTRYSIZE * |es|);
      if access != READ && t.sb.freeInode != -1 {
        h := OpenNewKeeps(t, g, p, name, access);
      }
    }
  }

  lemma RootIsDir(t: State, g: Ghost)
    requires Inv(t, g)
    ensures |t.inodes| > 0 && t.inodes[0].kind == DIR
  {
  }

  /** Moving an offset does not change who is open where. */
  lemma SameSlots(table: seq<Slot>, p: nat, offset: int, j: int)
    requires p < |table| && SlotOf(table, j) == -1
    ensures SlotOf(table[p := table[p].(offset := offset)], j) == -1
  {
    var table' := table[p := table[p].(offset := offset)];
    assert forall x :: 0 <= x < |table'| && !table'[x].free ==> table'[x].node.index != j;
  }
}
