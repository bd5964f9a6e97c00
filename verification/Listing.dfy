/** `f_readdir`, and what a directory lists after an entry has been removed. */
module Listing {
  import opened Records
  import opened Operations
  import opened Calls
  import opened Invariant
  import Removal
  import Release
  import Deletion

  /** Slot fd is at an entry boundary of a file that uses direct blocks only. */
  predicate AtEntry(slot: Slot) {
    SizeOk(slot.node) && 0 <= slot.offset <= slot.node.size && slot.offset % ENTRYSIZE == 0
  }

  /** The entry that lies at a byte offset of a directory (lines 1752-1757). */
  function EntryAt(blocks: seq<Block>, node: Inode, offset: nat): Entry
    requires offset % ENTRYSIZE == 0 && offset < DIRECT_LIMIT
  {
    EntryPlace(offset);
    var at := offset % BLOCKSIZE;
    DecodeEntry(GetBlock(blocks, node.dblocks[offset / BLOCKSIZE])[at..at + ENTRYSIZE])
  }

  /** `f_readdir` */
  function Readdir(s: State, fd: int): (State, Option<Entry>)
    requires ValidFd(fd) ==> |s.table| == FILETABLESIZE && AtEntry(s.table[fd])
  {
    if !ValidFd(fd) then (s, None)
    else
      var slot := s.table[fd];
      if slot.node.size - slot.offset < ENTRYSIZE then (s, None)
      else (WithOffset(s, fd, slot.offset + ENTRYSIZE), Some(EntryAt(s.blocks, slot.node, slot.offset)))
  }

  /** All entries that calls of `f_readdir` return until one returns NULL, and the state then. */
  function List(s: State, fd: int): (State, seq<Entry>)
    requires ValidFd(fd) && |s.table| == FILETABLESIZE && AtEntry(s.table[fd])
    decreases s.table[fd].node.size - s.table[fd].offset
  {
    var (t, e) := Readdir(s, fd);
    if e.None? then (t, []) else
      var (u, es) := List(t, fd);
      (u, [e.value] + es)
  }

  lemma EntryAtIs(blocks: seq<Block>, node: Inode, k: nat)
    requires SizeOk(node) && k < Count(node)
    ensures EntryAt(blocks, node, ENTRYSIZE * k) == DirEntry(blocks, node, k)
  {
    EntryPlace(ENTRYSIZE * k);
    assert ENTRYSIZE * k / ENTRYSIZE == k;
  }

  lemma ReaddirReturns(s: State, fd: int, k: nat)
    requires ValidFd(fd) && |s.table| == FILETABLESIZE && AtEntry(s.table[fd]) && s.table[fd].offset == ENTRYSIZE * k
    ensures k <= Count(s.table[fd].node)
    ensures Readdir(s, fd) == if k < Count(s.table[fd].node)
              then (WithOffset(s, fd, ENTRYSIZE * (k + 1)), Some(DirEntry(s.blocks, s.table[fd].node, k))) else (s, None)
  {
    hide EntryAt, DirEntry;
    if k < Count(s.table[fd].node) {
      EntryAtIs(s.blocks, s.table[fd].node, k);
    }
  }

  lemma SameOffset(s: State, fd: nat, offset: int)
    requires fd < |s.table| && s.table[fd].offset == offset
    ensures WithOffset(s, fd, offset) == s
  {
    assert s.table[fd].(offset := offset) == s.table[fd];
    assert s.table[fd := s.table[fd]] == s.table;
  }

  /** From entry k on, the calls return entries k, k + 1, ... in order and then NULL, and leave the
      offset behind the last one. */
  lemma {:induction false} ListIsSuffix(s: State, fd: int, k: nat)
    requires ValidFd(fd) && |s.table| == FILETABLESIZE && AtEntry(s.table[fd]) && s.table[fd].offset == ENTRYSIZE * k
    ensures var node := s.table[fd].node;
            && k <= Count(node)
            && List(s, fd) == (WithOffset(s, fd, ENTRYSIZE * Count(node)), Entries(s.blocks, node)[k..])
    decreases s.table[fd].node.size - s.table[fd].offset
  {
    hide Readdir, DirEntry;
    var node := s.table[fd].node;
    ReaddirReturns(s, fd, k);
    if k < Count(node) {
      var t := WithOffset(s, fd, ENTRYSIZE * (k + 1));
      ListIsSuffix(t, fd, k + 1);
      assert WithOffset(t, fd, ENTRYSIZE * Count(node)) == WithOffset(s, fd, ENTRYSIZE * Count(node));
      var es := Entries(s.blocks, node);
      assert es[k..] == [es[k]] + es[k + 1..];
      assert Readdir(s, fd) == (t, Some(es[k]));
    } else {
      SameOffset(s, fd, ENTRYSIZE * k);
      assert Readdir(s, fd) == (s, None);
      assert List(s, fd) == (s, []);
      assert Entries(s.blocks, node)[k..] == [];
    }
  }

  /** Rewound, they return the entries of the directory: those the invariant speaks of. */
  lemma ListIsDirectory(s: State, g: Ghost, fd: int)
    requires Inv(s, g) && ValidFd(fd) && !s.table[fd].free && s.table[fd].node.kind == DIR
    ensures var (d, r) := (s.table[fd].node.index, WithOffset(s, fd, 0));
            && |r.table| == FILETABLESIZE && AtEntry(r.table[fd]) && 0 <= d < |g.dirs|
            && List(r, fd) == (WithOffset(s, fd, r.table[fd].node.size), g.dirs[d])
  {
    hide FreeInodes, FreeBlocks, Owners, Deeps, Lasts, Tree;
    var r := WithOffset(s, fd, 0);
    var node := s.table[fd].node;
    assert SlotOk(s.table[fd], s.inodes, g.role) && InodeOk(s.inodes[node.index], node.index, g.role[node.index]);
    assert EntriesMatch(s.inodes[node.index], s.blocks, g.dirs[node.index]);
    ListIsSuffix(r, fd, 0);
    assert Entries(s.blocks, node) == g.dirs[node.index];
    assert WithOffset(r, fd, ENTRYSIZE * Count(node)) == WithOffset(s, fd, node.size);
  }

  /** What the removed-from directory is and holds. */
  lemma DirAfterRemove(s: State, g: Ghost, v: Variant, p: nat, k: nat, stale: Block)
    requires Deletion.Removable(s, g, v, p, k)
    ensures var dir := s.table[p].node;
            var d := dir.index;
            var u := Deletion.Removed(s, g, v, p, k, stale);
            && SizeOk(dir) && DirSizeOk(dir) && 0 <= d < |s.inodes| == |u.inodes| && s.inodes[d] == dir && k < Count(dir)
            && u.inodes[d] == ShrunkDir(v, dir)
            && d < |g.dirs| && EntriesMatch(dir, s.blocks, g.dirs[d])
            && |g.dirs[d]| == Count(dir) && EntriesMatch(ShrunkDir(v, dir), u.blocks, Removal.RemoveSwap(g.dirs[d], k))
  {
    hide FreeInodes, FreeBlocks, Owners, Deeps, Lasts, Tree, DropEntry, ReleaseFile, TableOk, InodesOk, Release.LinksKept;
    var dir, j := s.table[p].node, Deletion.Victim(s, g, p, k);
    var d := dir.index;
    Deletion.VictimFacts(s, g, p, k);
    Deletion.DropStage(s, g, v, p, k);
    Removal.OpenDirKnown(s, g, p, k);
    var h1 := Removal.GhostAfterDrop(g, dir, k);
    Deletion.ReleaseKeeps(DropEntry(s, v, p, k), h1, v, j, s.inodes[j], stale, v.Repaired? || !GivesUpBlock(dir));
    var u := Deletion.Removed(s, g, v, p, k, stale);
    assert u.inodes[d] == ShrunkDir(v, dir);
    assert EntriesMatch(u.inodes[d], u.blocks, h1.dirs[d]);
  }

  /** The bytes of the directory after `f_remove`, in either variant and however the rest of the
      call goes: the entries are the old ones less the one removed, the last one having moved into
      its place, "." and ".." are still first, and there is one block less exactly when the last
      entry was alone in its block. */
  lemma EntriesAfterRemove(s: State, g: Ghost, v: Variant, p: nat, k: nat, stale: Block)
    requires Deletion.Removable(s, g, v, p, k)
    ensures var d := s.table[p].node.index;
            var u := Deletion.Removed(s, g, v, p, k, stale);
            && |u.inodes| == |s.inodes| && SizeOk(s.inodes[d]) && SizeOk(u.inodes[d])
            && var before, after := Entries(s.blocks, s.inodes[d]), Entries(u.blocks, u.inodes[d]);
               && k < |before|
               && after == Removal.RemoveSwap(before, k)
               && multiset(after) == multiset(before) - multiset{before[k]}
               && 2 <= |after| && after[0] == before[0] && after[1] == before[1]
               && Owned(u.inodes[d]) == Owned(s.inodes[d]) - (if |after| % ENTRIES_PER_BLOCK == 0 then 1 else 0)
  {
    hide Inv, Deletion.Removed, ShrunkDir, Removal.RemoveSwap, DirEntry, Owned;
    var dir := s.table[p].node;
    var d := dir.index;
    DirAfterRemove(s, g, v, p, k, stale);
    var u := Deletion.Removed(s, g, v, p, k, stale);
    var before, after := Entries(s.blocks, s.inodes[d]), Entries(u.blocks, u.inodes[d]);
    assert before == g.dirs[d] && after == Removal.RemoveSwap(g.dirs[d], k);
    Removal.RemoveSwapIsRemoval(before, k);
    Removal.OwnedAfterDrop(v, dir);
  }
}
