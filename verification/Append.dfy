/** The step `f_open` and `f_mkdir` share: a directory takes one more entry. */
module Append {
  import opened Bytes
  import opened Records
  import opened Operations
  import opened Invariant
  import opened Roles

  /** Slot p holds an open directory that can take one more entry. */
  predicate OpenDir(s: State, p: nat) {
    && p < |s.table| && !s.table[p].free && s.table[p].node.kind == DIR
    && 0 <= s.table[p].node.size < DIRECT_LIMIT
  }

  function EntryBlock(s: State, p: nat): int
    requires OpenDir(s, p)
  {
    var dir := s.table[p].node;
    if dir.size % BLOCKSIZE == 0 then s.sb.freeBlock else dir.last
  }

  /** The directory after it has taken the entry. */
  function GrownDir(s: State, p: nat): Inode
    requires OpenDir(s, p)
  {
    var dir := s.table[p].node;
    if dir.size % BLOCKSIZE == 0
    then dir.(size := dir.size + ENTRYSIZE, last := s.sb.freeBlock, dblocks := dir.dblocks[dir.size / BLOCKSIZE := s.sb.freeBlock])
    else dir.(size := dir.size + ENTRYSIZE)
  }

  ghost predicate CanAppend(s: State, g: Ghost, p: nat, e: Entry) {
    && Disk(s, g) && OpenDir(s, p) && NameOk(e.name)
    && UsedDir(s.inodes, g.role, s.table[p].node.index) && s.table[p].node.size % ENTRYSIZE == 0
    && (s.table[p].node.size % BLOCKSIZE == 0 ==> g.fb != [])
  }

  /** The roles after the step. */
  ghost function GhostAfterAppend(s: State, g: Ghost, p: nat, e: Entry): Ghost
    requires CanAppend(s, g, p, e)
  {
    OpenDirFacts(s, g, p);
    var dir := s.table[p].node;
    var g1 := g.(dirs := g.dirs[dir.index := g.dirs[dir.index] + [e]]);
    if dir.size % BLOCKSIZE == 0
    then g1.(fb := g.fb[..|g.fb| - 1], own := g.own[Top(g.fb) := By(dir.index, dir.size / BLOCKSIZE)])
    else g1
  }

  /** What is known of an open directory. */
  lemma OpenDirFacts(s: State, g: Ghost, p: nat)
    requires Disk(s, g) && OpenDir(s, p)
    ensures var dir := s.table[p].node;
            && UsedDir(s.inodes, g.role, dir.index) && s.inodes[dir.index] == dir
            && DirSizeOk(dir) && EntriesMatch(dir, s.blocks, g.dirs[dir.index])
            && (dir.size % BLOCKSIZE != 0 ==> dir.last == dir.dblocks[dir.size / BLOCKSIZE])
            && (dir.size % BLOCKSIZE != 0 ==> OwnsAt(dir, g.own, dir.index, dir.size / BLOCKSIZE))
            && Owned(dir) == (dir.size + BLOCKSIZE - 1) / BLOCKSIZE
            && |g.own| == |s.blocks|
            && (g.fb != [] ==> s.sb.freeBlock == Top(g.fb) && 0 <= Top(g.fb) < |s.blocks| && g.own[Top(g.fb)].Free?)
  {
    if g.fb != [] {
      assert FreeAt(g.fb, s.blocks, g.own, |g.fb| - 1);
    }
    var dir := s.table[p].node;
    assert SlotOk(s.table[p], s.inodes, g.role);
    assert InodeOk(s.inodes[dir.index], dir.index, g.role[dir.index]);
    assert EntriesMatch(s.inodes[dir.index], s.blocks, g.dirs[dir.index]) && LastOk(s.inodes[dir.index]);
    if dir.size % BLOCKSIZE != 0 {
      OwnsItsBlock(s.inodes, g.role, g.own, dir.index, dir.size / BLOCKSIZE);
    }
  }

  /** The state after the step, field by field. */
  lemma AppendForm(s: State, p: nat, e: Entry)
    requires OpenDir(s, p) && s.table[p].node.size % ENTRYSIZE == 0 && |e.name| < FILENAMEMAX
    requires 0 <= EntryBlock(s, p) < |s.blocks| && 0 <= s.table[p].node.index < |s.inodes|
    ensures var dir := s.table[p].node;
            var t := AppendEntry(s, p, e);
            var eb := EntryBlock(s, p);
            && t.inodes == s.inodes[dir.index := GrownDir(s, p)]
            && t.blocks == s.blocks[eb := Splice(s.blocks[eb], dir.size % BLOCKSIZE, EntryBytes(e))]
            && t.table == s.table[p := s.table[p].(node := GrownDir(s, p))]
            && t.freehead == s.freehead
            && t.sb == (if dir.size % BLOCKSIZE == 0 then PopFreeBlock(s) else s.sb)
            && (dir.size % BLOCKSIZE != 0 ==> t.dsb == s.dsb)
  {
    var dir := s.table[p].node;
    if dir.size % BLOCKSIZE == 0 {
      var n := dir.size / BLOCKSIZE + 1;
      var s1 := AllocateNext(s, p, n);
      var dir1: Inode := dir.(dblocks := dir.dblocks[n - 1 := s.sb.freeBlock]);
      assert s1.table == s.table[p := s.table[p].(node := dir1)];
      assert s1.inodes == s.inodes[dir.index := dir1];
      assert dir1.dblocks[n - 1 := s.sb.freeBlock] == dir1.dblocks;
      assert s1.inodes[dir.index := GrownDir(s, p)] == s.inodes[dir.index := GrownDir(s, p)];
      assert s1.table[p := s1.table[p].(node := GrownDir(s, p))] == s.table[p := s.table[p].(node := GrownDir(s, p))];
    } else {
      var data := Splice(GetBlock(s.blocks, dir.last), dir.size % BLOCKSIZE, EntryBytes(e));
      assert Splice(GetBlock(s.blocks, dir.last), 0, data) == data;
    }
  }

  lemma GrowEntries(node: Inode, node': Inode, blocks: seq<Block>, es: seq<Entry>, e: Entry)
    requires EntriesMatch(node, blocks, es) && DirSizeOk(node) && SizeOk(node') && node'.size == node.size + ENTRYSIZE
    requires forall k :: 0 <= k < Count(node) ==> node'.dblocks[k / ENTRIES_PER_BLOCK] == node.dblocks[k / ENTRIES_PER_BLOCK]
    requires EntryIn(GetBlock(blocks, node'.dblocks[Count(node) / ENTRIES_PER_BLOCK]), Count(node) % ENTRIES_PER_BLOCK) == e
    ensures EntriesMatch(node', blocks, es + [e])
  {
    assert Count(node') == Count(node) + 1;
    forall k | 0 <= k < |es| + 1 ensures DirEntry(blocks, node', k) == (es + [e])[k] {
      if k < |es| {
        assert DirEntry(blocks, node, k) == es[k];
      }
    }
  }

  /** A write past the entries of a block leaves the entries of its directory. */
  lemma EntriesBelow(node: Inode, blocks: seq<Block>, es: seq<Entry>, b: int, j: nat, e: Entry)
    requires EntriesMatch(node, blocks, es) && 0 <= b < |blocks| && j < ENTRIES_PER_BLOCK && NameOk(e.name)
    requires forall k :: 0 <= k < |es| && node.dblocks[k / ENTRIES_PER_BLOCK] == b ==> k % ENTRIES_PER_BLOCK != j
    ensures EntriesMatch(node, blocks[b := Splice(blocks[b], ENTRYSIZE * j, EntryBytes(e))], es)
  {
    var blocks' := blocks[b := Splice(blocks[b], ENTRYSIZE * j, EntryBytes(e))];
    forall k | 0 <= k < |es| ensures DirEntry(blocks', node, k) == es[k] {
      assert DirEntry(blocks, node, k) == es[k];
      if node.dblocks[k / ENTRIES_PER_BLOCK] == b {
        EntryStored(blocks[b], j, e, k % ENTRIES_PER_BLOCK);
      }
    }
  }

  /** The entry lands in slot j of a block none of whose current entries is in slot j. */
  lemma EntryWritten(node: Inode, node': Inode, blocks: seq<Block>, es: seq<Entry>, b: int, e: Entry)
    requires EntriesMatch(node, blocks, es) && DirSizeOk(node) && SizeOk(node') && node'.size == node.size + ENTRYSIZE
    requires 0 <= b < |blocks| && NameOk(e.name)
    requires forall k :: 0 <= k < Count(node) ==> node'.dblocks[k / ENTRIES_PER_BLOCK] == node.dblocks[k / ENTRIES_PER_BLOCK]
    requires node'.dblocks[Count(node) / ENTRIES_PER_BLOCK] == b
    requires forall k :: 0 <= k < Count(node) && node.dblocks[k / ENTRIES_PER_BLOCK] == b ==>
               k % ENTRIES_PER_BLOCK != Count(node) % ENTRIES_PER_BLOCK
    ensures EntriesMatch(node', blocks[b := Splice(blocks[b], ENTRYSIZE * (Count(node) % ENTRIES_PER_BLOCK), EntryBytes(e))], es + [e])
  {
    EntryPlace(node.size);
    var j := Count(node) % ENTRIES_PER_BLOCK;
    var x := Splice(blocks[b], ENTRYSIZE * j, EntryBytes(e));
    EntriesBelow(node, blocks, es, b, j, e);
    EntryStored(blocks[b], j, e, j);
    GrowEntries(node, node', blocks[b := x], es, e);
  }

  /** The entries of the grown directory. */
  lemma AppendEntries(s: State, g: Ghost, p: nat, e: Entry)
    requires CanAppend(s, g, p, e)
    ensures var dir := s.table[p].node;
            var eb := EntryBlock(s, p);
            && 0 <= eb < |s.blocks|
            && EntriesMatch(GrownDir(s, p), s.blocks[eb := Splice(s.blocks[eb], dir.size % BLOCKSIZE, EntryBytes(e))],
                            g.dirs[dir.index] + [e])
  {
    OpenDirFacts(s, g, p);
    var dir := s.table[p].node;
    var eb := EntryBlock(s, p);
    EntryPlace(dir.size);
    forall k | 0 <= k < Count(dir) && dir.dblocks[k / ENTRIES_PER_BLOCK] == eb
      ensures k % ENTRIES_PER_BLOCK != Count(dir) % ENTRIES_PER_BLOCK
    {
      EntryBlockOwned(s.inodes, g.role, g.own, dir.index, k);
    }
    EntryWritten(dir, GrownDir(s, p), s.blocks, g.dirs[dir.index], eb, e);
  }

  /** The roles of the blocks: a block off the free list, or the block already there. */
  lemma AppendRoles(s: State, g: Ghost, p: nat, e: Entry, x: Block)
    requires CanAppend(s, g, p, e)
    ensures var dir := s.table[p].node;
            var h := GhostAfterAppend(s, g, p, e);
            var eb := EntryBlock(s, p);
            var full := dir.size % BLOCKSIZE == 0;
            && 0 <= eb < |s.blocks| && (g.own[eb].By? ==> g.own[eb].i == dir.index) && !g.own[eb].Deep?
            && FreeBlocks(if full then Link(s.blocks[eb]) else s.sb.freeBlock, s.blocks[eb := x], h.own, h.fb)
            && Owners(s.inodes[dir.index := GrownDir(s, p)], g.role, h.own)
  {
    OpenDirFacts(s, g, p);
    var dir := s.table[p].node;
    var h := GhostAfterAppend(s, g, p, e);
    var eb := EntryBlock(s, p);
    if dir.size % BLOCKSIZE == 0 {
      TakeBlock(s.blocks, g.own, g.fb, By(dir.index, dir.size / BLOCKSIZE));
      WriteOwnedBlock(Link(s.blocks[eb]), s.blocks, h.own, h.fb, eb, x);
      GainBlock(s.inodes, g.role, g.own, dir.index, GrownDir(s, p));
    } else {
      WriteOwnedBlock(s.sb.freeBlock, s.blocks, g.own, g.fb, eb, x);
      SameBlocks(s.inodes, g.role, g.own, dir.index, GrownDir(s, p));
    }
  }

  /** Updating an open inode on disk and in its slot keeps the table coherent. */
  lemma TableFollows(table: seq<Slot>, inodes: seq<Inode>, role: seq<Role>, p: int, slot: Slot)
    requires TableOk(table, inodes, role) && 0 <= p < |table| && !table[p].free
    requires slot.node.index == table[p].node.index && !slot.free
    requires 0 <= slot.offset <= slot.node.size && (slot.node.kind == DIR ==> slot.offset % ENTRYSIZE == 0)
    requires 0 <= slot.node.index < |inodes|
    ensures TableOk(table[p := slot], inodes[slot.node.index := slot.node], role)
  {
    var inodes' := inodes[slot.node.index := slot.node];
    assert SlotOk(table[p], inodes, role);
    var table' := table[p := slot];
    forall t | 0 <= t < |table| ensures SlotOk(table'[t], inodes', role) {
      assert SlotOk(table[t], inodes, role);
    }
  }

  /** The other directories do not own the block the entry goes to. */
  lemma AppendKeepsDirs(s: State, g: Ghost, p: nat, e: Entry, dir': Inode, eb: int, x: Block)
    requires CanAppend(s, g, p, e) && 0 <= eb < |s.blocks|
    requires g.own[eb].By? ==> g.own[eb].i == s.table[p].node.index
    requires EntriesMatch(dir', s.blocks[eb := x], g.dirs[s.table[p].node.index] + [e])
    ensures DirsMatch(s.inodes[s.table[p].node.index := dir'], s.blocks[eb := x], g.role, GhostAfterAppend(s, g, p, e).dirs)
  {
    var d := s.table[p].node.index;
    var inodes', blocks', dirs' := s.inodes[d := dir'], s.blocks[eb := x], GhostAfterAppend(s, g, p, e).dirs;
    forall i | 0 <= i < |inodes'| && g.role[i].InUse? && inodes'[i].kind == DIR ensures EntriesMatch(inodes'[i], blocks', dirs'[i]) {
      if i != d {
        assert InodeOk(s.inodes[i], i, g.role[i]) && EntriesMatch(s.inodes[i], s.blocks, g.dirs[i]);
        EntriesUntouched(s.inodes, s.blocks, g.role, g.own, i, g.dirs[i], eb, x);
      }
    }
  }

  /** Replacing one directory inode by an equally sound one. */
  lemma InodesFollow(inodes: seq<Inode>, role: seq<Role>, d: int, dir: Inode)
    requires InodesOk(inodes, role) && Lasts(inodes, role) && UsedDir(inodes, role, d)
    requires InodeOk(dir, d, role[d]) && dir.kind == DIR && dir.parent == inodes[d].parent
    ensures InodesOk(inodes[d := dir], role)
    ensures LastOk(dir) ==> Lasts(inodes[d := dir], role)
  {
    var inodes' := inodes[d := dir];
    forall i | 0 <= i < |inodes'| ensures InodeOk(inodes'[i], i, role[i]) {
      if i != d {
        assert InodeOk(inodes[i], i, role[i]);
      }
    }
    if LastOk(dir) {
      forall i | 0 <= i < |inodes'| && role[i].InUse? && inodes'[i].kind == DIR ensures LastOk(inodes'[i]) {
        if i != d {
          assert LastOk(inodes[i]);
        }
      }
    }
  }

  /** The grown directory is sound. */
  lemma GrownDirOk(s: State, g: Ghost, p: nat)
    requires Disk(s, g) && OpenDir(s, p)
    ensures var dir := s.table[p].node;
            && UsedDir(s.inodes, g.role, dir.index)
            && InodeOk(GrownDir(s, p), dir.index, g.role[dir.index]) && LastOk(GrownDir(s, p))
            && GrownDir(s, p).kind == DIR && GrownDir(s, p).parent == s.inodes[dir.index].parent
            && 0 <= s.table[p].offset <= dir.size && s.table[p].offset % ENTRYSIZE == 0
  {
    OpenDirFacts(s, g, p);
    assert SlotOk(s.table[p], s.inodes, g.role);
    var dir := s.table[p].node;
    assert (dir.size + ENTRYSIZE) % BLOCKSIZE != 0 ==> (dir.size + ENTRYSIZE) / BLOCKSIZE == dir.size / BLOCKSIZE by {
      EntryPlace(dir.size);
    }
  }

  /** The entry goes to no block beyond the direct ones. */
  lemma AppendDeeps(s: State, g: Ghost, p: nat, e: Entry, eb: int, x: Block)
    requires CanAppend(s, g, p, e) && 0 <= eb < |s.blocks| == |g.own| && !g.own[eb].Deep? && eb == EntryBlock(s, p)
    ensures Deeps(s.inodes[s.table[p].node.index := GrownDir(s, p)], s.blocks[eb := x], g.role, GhostAfterAppend(s, g, p, e).own)
  {
    hide FreeBlocks, Owners, Lasts, DirsMatch, Deeps;
    OpenDirFacts(s, g, p);
    GrownDirOk(s, g, p);
    var d := s.table[p].node.index;
    DeepsAside(s.inodes, s.blocks, g.role, g.own, d, GrownDir(s, p), g.role[d], s.blocks[eb := x], GhostAfterAppend(s, g, p, e).own);
    assert g.role[d := g.role[d]] == g.role;
  }

  lemma AppendKeepsDisk(s: State, g: Ghost, p: nat, e: Entry)
    requires CanAppend(s, g, p, e)
    ensures Disk(AppendEntry(s, p, e), GhostAfterAppend(s, g, p, e))
  {
    var d := s.table[p].node.index;
    var eb := EntryBlock(s, p);
    AppendEntries(s, g, p, e);
    AppendForm(s, p, e);
    GrownDirOk(s, g, p);
    var x := AppendEntry(s, p, e).blocks[eb];
    AppendRoles(s, g, p, e, x);
    AppendKeepsDirs(s, g, p, e, GrownDir(s, p), eb, x);
    AppendDeeps(s, g, p, e, eb, x);
    TableFollows(s.table, s.inodes, g.role, p, s.table[p].(node := GrownDir(s, p)));
    InodesFollow(s.inodes, g.role, d, GrownDir(s, p));
  }
}
