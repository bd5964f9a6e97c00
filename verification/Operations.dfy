/** What each file-system call does to the mounted state, branch by branch as the C code
    does it. `Repaired` changes only the lines listed at the functions that take a variant. */
module Operations {
  import opened Bytes
  import opened BlockMap
  import opened Records
  import FileTree

  datatype Variant = AsWritten | Repaired

  // ---- writes to the disk and to the table ----

  /** `write_data_to_block`: the first |content| bytes of a block. */
  function SaveBlock(s: State, b: int, content: seq<byte>): State
    requires |content| <= BLOCKSIZE
  {
    if 0 <= b < |s.blocks| then s.(blocks := s.blocks[b := Splice(s.blocks[b], 0, content)]) else s
  }

  /** `update_single_inode_ondisk` */
  function SaveInode(s: State, i: int, node: Inode): State {
    if 0 <= i < |s.inodes| then s.(inodes := s.inodes[i := node]) else s
  }

  function SetSlot(s: State, p: nat, slot: Slot): State
    requires p < |s.table|
  {
    s.(table := s.table[p := slot])
  }

  /** Changes an open inode both in its slot and on disk. */
  function SaveOpenInode(s: State, p: nat, node: Inode): State
    requires p < |s.table|
  {
    SaveInode(SetSlot(s, p, s.table[p].(node := node)), node.index, node)
  }

  // ---- data blocks ----

  /** The superblock after the head of the free-block list is taken. */
  function PopFreeBlock(s: State): Superblock {
    s.sb.(freeBlock := Link(GetBlock(s.blocks, s.sb.freeBlock)))
  }

  function RequestNewBlock(s: State): State {
    s.(sb := PopFreeBlock(s), dsb := PopFreeBlock(s))
  }

  /** Where the writer puts the n-th block (counting from 1) of a file that has more than ten. */
  function WriterIndex(n: nat): nat
    requires n > N_DBLOCKS
  {
    (n - N_DBLOCKS) / FANOUT
  }

  function WriterSlot(n: nat): nat
    requires n > N_DBLOCKS
  {
    (n - N_DBLOCKS) % FANOUT
  }

  /** The inode after line 1261 and the index block that line 1332 then changes. */
  function WithIndexBlock(node: Inode, n: nat, b: int32): Inode
    requires n > N_DBLOCKS && WriterIndex(n) < N_IBLOCKS
  {
    if WriterSlot(n) == 0 then node.(iblocks := node.iblocks[WriterIndex(n) := b]) else node
  }

  /** `update_inodes_datablocks` for a direct or a single-indirect block of the file open in slot p. */
  function UpdateInodesDatablocks(s: State, p: nat, n: nat, b: int32): State
    requires p < |s.table| && 1 <= n && (n > N_DBLOCKS ==> WriterIndex(n) + 1 < N_IBLOCKS)
  {
    var node := s.table[p].node;
    if n <= N_DBLOCKS then
      SaveOpenInode(s, p, node.(dblocks := node.dblocks[n - 1 := b]))
    else
      var ib := node.iblocks[WriterIndex(n) + 1];
      SaveBlock(s, ib, Splice(GetBlock(s.blocks, ib), 4 * WriterSlot(n), WordBytes(b)))
  }

  /** `find_next_datablock` when the offset is at or past the old end of file: allocate and install. */
  function AllocateNext(s: State, p: nat, n: nat): State
    requires p < |s.table| && 1 <= n && (n > N_DBLOCKS ==> WriterIndex(n) + 1 < N_IBLOCKS)
  {
    var b := s.sb.freeBlock;
    var s1 := RequestNewBlock(s);
    var s2 := if n > N_DBLOCKS && WriterSlot(n) == 0
              then SaveOpenInode(s1, p, WithIndexBlock(s1.table[p].node, n, b)) else s1;
    UpdateInodesDatablocks(s2, p, n, b)
  }

  /** `find_next_datablock` before the old end of file: look the block up. */
  function LookupNext(s: State, node: Inode, n: nat): int32
    requires 1 <= n && (n > N_DBLOCKS ==> WriterIndex(n) < N_IBLOCKS && WriterSlot(n) > 0)
  {
    if n <= N_DBLOCKS then node.dblocks[n - 1]
    else Word(GetBlock(s.blocks, node.iblocks[WriterIndex(n)]), WriterSlot(n) - 1)
  }

  // ---- creating entries ----

  /** The part `f_open` and `f_mkdir` share: a new last entry of the directory open in slot p. */
  function AppendEntry(s: State, p: nat, e: Entry): State
    requires p < |s.table| && 0 <= s.table[p].node.size < DIRECT_LIMIT
    requires |e.name| < FILENAMEMAX
    requires s.table[p].node.size % ENTRYSIZE == 0
  {
    var node := s.table[p].node;
    if node.size % BLOCKSIZE == 0 then
      var n := node.size / BLOCKSIZE + 1;
      var b := s.sb.freeBlock;
      var s1 := SaveBlock(AllocateNext(s, p, n), b, EntryBytes(e));
      var node1 := s1.table[p].node;
      SaveOpenInode(s1, p, node1.(size := node1.size + ENTRYSIZE, last := b, dblocks := node1.dblocks[n - 1 := b]))
    else
      var data := Splice(GetBlock(s.blocks, node.last), node.size % BLOCKSIZE, EntryBytes(e));
      SaveOpenInode(SaveBlock(s, node.last, data), p, node.(size := node.size + ENTRYSIZE))
  }

  predicate CanAddTo(s: State, p: nat, name: seq<byte>) {
    && p < |s.table| && 0 <= s.table[p].node.size < DIRECT_LIMIT && s.table[p].node.size % ENTRYSIZE == 0
    && 0 <= s.sb.freeInode < |s.inodes|
    && |name| < FILENAMEMAX
  }

  /** The state in which the new inode is off the free list and its entry is written. */
  function WithNewEntry(s: State, p: nat, name: seq<byte>): State
    requires CanAddTo(s, p, name)
  {
    var ni := s.sb.freeInode;
    AppendEntry(s.(sb := s.sb.(freeInode := s.inodes[ni].next)), p, Entry(ni, name))
  }

  /** `f_open` for a name that is not there, in the directory open in slot p. */
  function CreateFile(s: State, p: nat, name: seq<byte>, access: Access): State
    requires CanAddTo(s, p, name) && 0 <= s.freehead < |s.table|
  {
    var ni := s.sb.freeInode;
    var s1 := WithNewEntry(s, p, name);
    var node := if ni < |s1.inodes| then s1.inodes[ni] else s.inodes[ni];
    var file := node.(kind := REG, parent := s.table[p].node.index, size := 0, next := -1,
                      dblocks := node.dblocks[0 := s1.sb.freeBlock]);
    var s2 := SaveInode(s1, ni, file);
    var sb := PopFreeBlock(s2);
    var table := if s.freehead < |s2.table| then s2.table[s.freehead := Slot(false, file, 0, access)] else s2.table;
    s2.(sb := sb, dsb := sb, table := table, freehead := FirstFree(table))
  }

  /** `f_mkdir` in the directory open in slot p. Line 1152-1153 sets the child's
      `last_block_index`; the branch for a full block (1112-1126) does not. Repaired: both do. */
  function MakeDir(s: State, v: Variant, p: nat, name: seq<byte>): State
    requires CanAddTo(s, p, name)
  {
    var ni := s.sb.freeInode;
    var dir := s.table[p].node;
    var s1 := WithNewEntry(s, p, name);
    var cb := s1.sb.freeBlock;
    var node := s.inodes[ni].(size := 2 * ENTRYSIZE, kind := DIR, parent := dir.index,
                              dblocks := s.inodes[ni].dblocks[0 := cb]);
    var child := if dir.size % BLOCKSIZE != 0 || v.Repaired? then node.(last := cb) else node;
    var data := GetBlock(s1.blocks, cb);
    var sb := PopFreeBlock(s1);
    var s2 := SaveBlock(s1, cb, DotEntries(data, ni, dir.index));
    SaveInode(s2.(sb := sb, dsb := sb), ni, child)
  }

  /** The first block of a new directory. */
  function DotEntries(data: Block, self: int32, parent: int32): Block {
    Splice(Splice(data, 0, EntryBytes(Entry(self, DOT))), ENTRYSIZE, EntryBytes(Entry(parent, DOTDOT)))
  }

  // ---- removing entries ----

  /** The model says what becomes of the blocks of this file. As written, of up to ten. */
  predicate CanRelease(v: Variant, node: Inode) {
    FileSizeOk(node) && (v.AsWritten? ==> SizeOk(node))
  }

  /** The number of direct blocks `f_remove` returns for a file. Line 1650 ignores the block that
      `f_open` gave an empty file. Repaired: that block is counted. */
  function ReturnedBlocks(v: Variant, node: Inode): (n: nat)
    requires CanRelease(v, node)
    ensures n <= N_DBLOCKS
  {
    var n := BlocksFor(node.size);
    if v.Repaired? && n == 0 then 1 else if n < N_DBLOCKS then n else N_DBLOCKS
  }

  /** The loop of lines 1654-1667. Line 1664 writes a buffer that line 1622 has released, here
      `stale`, instead of the block whose link it has just set. Repaired: it writes that block. */
  function ReleaseBlocks(s: State, v: Variant, file: Inode, i: nat, n: nat, stale: Block): State
    requires i <= n <= N_DBLOCKS
    decreases n - i
  {
    if i == n then s
    else
      var b := file.dblocks[i];
      var content := if v.Repaired? then Splice(GetBlock(s.blocks, b), 0, WordBytes(s.sb.freeBlock)) else stale;
      ReleaseBlocks(SaveBlock(s, b, content).(sb := s.sb.(freeBlock := b)), v, file, i + 1, n, stale)
  }

  /** Block b goes to the head of the free list. */
  function ReturnBlock(s: State, b: int32): State {
    SaveBlock(s, b, Splice(GetBlock(s.blocks, b), 0, WordBytes(s.sb.freeBlock))).(sb := s.sb.(freeBlock := b))
  }

  function ReturnBlocks(s: State, list: seq<int32>): State
    decreases |list|
  {
    if list == [] then s else ReturnBlocks(ReturnBlock(s, list[0]), list[1..])
  }

  /** The index blocks and the data blocks that they lead to. */
  function DeepNumbers(blocks: seq<Block>, node: Inode): seq<int32>
    requires FileSizeOk(node)
  {
    FileTree.BeyondNumbers(blocks, node, BlocksFor(node.size))
  }

  /** The entry that moves and the blocks that change when entry k of a directory goes. */
  function MovedEntry(s: State, node: Inode): Entry
    requires SizeOk(node) && 1 <= Count(node)
  {
    DirEntry(s.blocks, node, Count(node) - 1)
  }

  function LastEntryBlock(node: Inode): int32
    requires SizeOk(node) && 1 <= Count(node)
  {
    node.dblocks[(Count(node) - 1) / ENTRIES_PER_BLOCK]
  }

  /** Whether the last entry is alone in its block. */
  predicate GivesUpBlock(node: Inode) {
    (Count(node) - 1) % ENTRIES_PER_BLOCK == 0
  }

  /** Block kb after the moved entry has been copied over slot k % 8 (lines 1584-1600). */
  function EntryReplaced(target: Block, k: nat, moved: Entry): Block
    requires |moved.name| < FILENAMEMAX
  {
    var at := ENTRYSIZE * (k % ENTRIES_PER_BLOCK);
    Splice(target, at, OverwriteEntry(target[at..at + ENTRYSIZE], moved))
  }

  /** The directory inode after `f_remove`. `last_block_index` stays (line 1604 is a TODO).
      Repaired: when a block was given up it names the block before it. */
  function ShrunkDir(v: Variant, node: Inode): Inode
    requires SizeOk(node) && 1 <= Count(node)
  {
    var m := Count(node) - 1;
    var node1 := node.(size := node.size - ENTRYSIZE);
    if v.Repaired? && GivesUpBlock(node) && m > 0 then node1.(last := node.dblocks[m / ENTRIES_PER_BLOCK - 1]) else node1
  }

  /** The directory part of `f_remove` (lines 1564-1631): the last entry moves over entry k of the
      directory open in slot p, and a last block left without entries goes to the free list. */
  function DropEntry(s: State, v: Variant, p: nat, k: nat): State
    requires p < |s.table| && SizeOk(s.table[p].node) && k < Count(s.table[p].node)
    requires |MovedEntry(s, s.table[p].node).name| < FILENAMEMAX
  {
    var node := s.table[p].node;
    var kb, lb := node.dblocks[k / ENTRIES_PER_BLOCK], LastEntryBlock(node);
    var lastBlock := GetBlock(s.blocks, lb);
    var s1 := SaveBlock(s, kb, EntryReplaced(GetBlock(s.blocks, kb), k, MovedEntry(s, node)));
    var s2 := if GivesUpBlock(node)
              then SaveBlock(s1, lb, Splice(lastBlock, 0, WordBytes(s.sb.freeBlock))).(sb := s.sb.(freeBlock := lb))
              else s1;
    SaveOpenInode(SetSlot(s2, p, s2.table[p].(offset := ENTRYSIZE * k)), p, ShrunkDir(v, node))
  }

  /** The inode and block part of `f_remove` (lines 1633-1673). Repaired: the blocks beyond the direct
      ones are returned too, once their numbers have all been read. */
  function ReleaseFile(s: State, v: Variant, file: Inode, stale: Block): State
    requires CanRelease(v, file)
  {
    var s1 := SaveInode(s, file.index, file.(next := s.sb.freeInode)).(sb := s.sb.(freeInode := file.index));
    var s2 := ReleaseBlocks(s1, v, file, 0, ReturnedBlocks(v, file), stale);
    var s3 := if v.Repaired? then ReturnBlocks(s2, DeepNumbers(s.blocks, file)) else s2;
    s3.(dsb := s3.sb)
  }

  /** Where `f_remove` starts its scan. Line 1533 reads on from wherever the directory's offset
      is. Repaired: from the first entry, as line 249 does in `f_open`. */
  function ScanStart(s: State, v: Variant, p: nat): int
    requires p < |s.table|
  {
    if v.Repaired? then 0 else s.table[p].offset / ENTRYSIZE
  }

  predicate CanRemoveFrom(s: State, v: Variant, p: nat, name: seq<byte>) {
    && p < |s.table| && SizeOk(s.table[p].node)
    && 0 <= ScanStart(s, v, p) <= Count(s.table[p].node)
    && var es := Entries(s.blocks, s.table[p].node);
       var k := FirstNamed(es, ScanStart(s, v, p), name);
       && (forall j :: 0 <= j < |es| ==> |es[j].name| < FILENAMEMAX)
       && (k < |es| ==> 0 <= es[k].inode < |s.inodes|
                        && (SlotOf(s.table, s.inodes[es[k].inode].index) == -1 ==> CanRelease(v, s.inodes[es[k].inode])))
  }

  /** `f_remove` of a name in the directory open in slot p: new state and success. */
  function RemoveName(s: State, v: Variant, p: nat, name: seq<byte>, stale: Block): (State, bool)
    requires CanRemoveFrom(s, v, p, name)
  {
    var es := Entries(s.blocks, s.table[p].node);
    var k := FirstNamed(es, ScanStart(s, v, p), name);
    if k == |es| then (SetSlot(s, p, s.table[p].(offset := ENTRYSIZE * |es|)), false)
    else
      var file := s.inodes[es[k].inode];
      if SlotOf(s.table, file.index) != -1 then (SetSlot(s, p, s.table[p].(offset := ENTRYSIZE * (k + 1))), false)
      else (ReleaseFile(DropEntry(s, v, p, k), v, file, stale), true)
  }
}
