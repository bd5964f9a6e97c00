/** What every run must keep: each inode and each block has exactly one role, the two free
    lists are acyclic and complete, directories form a tree, and the open-file table agrees
    with the disk. Every conjunct is a predicate on the parts of the state it speaks about. */
module Invariant {
  import opened BlockMap
  import opened Records
  import opened FileTree

  /** The role of a data block: d places above the bottom of the free list; the k-th block of
      inode i, among its ten direct ones; a block deeper in the tree of inode i, that is an index
      block or a data block that an index block leads to; or none of these. */
  datatype Owner = Free(d: nat) | Lost | By(i: nat, k: nat) | Deep(i: nat, x: Node)

  /** The block has an owner. */
  predicate Taken(o: Owner) { o.By? || o.Deep? }

  ghost function FreeSet(own: seq<Owner>): set<int> { set b | 0 <= b < |own| && own[b].Free? }

  /** The blocks that are neither free nor in any file. */
  ghost function LostSet(own: seq<Owner>): set<int> { set b | 0 <= b < |own| && own[b].Lost? }

  /** The role of an inode: in use, or d places above the bottom of the free list. */
  datatype Role = InUse | Idle(d: nat)

  /** The abstract view that the bytes on disk encode: the two free lists, last element first to
      be taken; the role of every inode and block; the slot of every inode in its parent and its
      depth in the tree; and the entries of every directory. */
  datatype Ghost = Ghost(fi: seq<int>, fb: seq<int>, role: seq<Role>, own: seq<Owner>,
                         pos: seq<int>, rank: seq<nat>, dirs: seq<seq<Entry>>)

  /** The list head that the superblock stores. */
  function Top(q: seq<int>): int { if q == [] then -1 else q[|q| - 1] }

  /** The next-pointer stored in the element d places above the bottom. */
  function Below(q: seq<int>, d: nat): int
    requires d < |q|
  {
    if d == 0 then -1 else q[d - 1]
  }

  // ---- inodes ----

  /** The number of data blocks of an inode; `f_open` gives even an empty file one. */
  function DataCount(node: Inode): nat {
    if node.kind == REG && node.size == 0 then 1
    else if node.size <= 0 then 0
    else BlocksFor(node.size)
  }

  /** The number of direct blocks an inode owns. */
  function Owned(node: Inode): (r: nat)
    ensures r <= N_DBLOCKS
  {
    if DataCount(node) < N_DBLOCKS then DataCount(node) else N_DBLOCKS
  }

  predicate DirSizeOk(node: Inode) {
    2 * ENTRYSIZE <= node.size && node.size % ENTRYSIZE == 0
  }

  predicate InodeOk(node: Inode, i: int, r: Role) {
    && node.index == i
    && FileSizeOk(node)
    && (r.InUse? ==> node.kind == DIR || node.kind == REG)
    && (r.InUse? && node.kind == DIR ==> SizeOk(node) && DirSizeOk(node))
  }

  ghost predicate InodesOk(inodes: seq<Inode>, role: seq<Role>) {
    && 1 <= |inodes| == |role| <= 0x7FFF_FFFF
    && (forall i {:trigger InodeOk(inodes[i], i, role[i])} :: 0 <= i < |inodes| ==> InodeOk(inodes[i], i, role[i]))
    && role[0].InUse? && inodes[0].kind == DIR && inodes[0].parent == 0
  }

  predicate UsedDir(inodes: seq<Inode>, role: seq<Role>, i: int) {
    0 <= i < |inodes| && i < |role| && role[i].InUse? && inodes[i].kind == DIR
  }

  predicate IdleAt(fi: seq<int>, inodes: seq<Inode>, role: seq<Role>, d: nat)
    requires d < |fi| && |role| == |inodes|
  {
    0 <= fi[d] < |inodes| && role[fi[d]] == Idle(d) && inodes[fi[d]].next == Below(fi, d)
  }

  predicate InodeListed(fi: seq<int>, r: Role, i: int) {
    r.Idle? ==> r.d < |fi| && fi[r.d] == i
  }

  /** The inode free list threaded through `next_inode` is exactly `fi`. */
  ghost predicate FreeInodes(head: int, inodes: seq<Inode>, role: seq<Role>, fi: seq<int>) {
    && |role| == |inodes|
    && head == Top(fi)
    && (forall d {:trigger IdleAt(fi, inodes, role, d)} :: 0 <= d < |fi| ==> IdleAt(fi, inodes, role, d))
    && (forall i {:trigger InodeListed(fi, role[i], i)} :: 0 <= i < |inodes| ==> InodeListed(fi, role[i], i))
  }

  // ---- blocks ----

  predicate FreeAt(fb: seq<int>, blocks: seq<Block>, own: seq<Owner>, d: nat)
    requires d < |fb| && |own| == |blocks|
  {
    0 <= fb[d] < |blocks| && own[fb[d]] == Free(d) && Link(blocks[fb[d]]) == Below(fb, d)
  }

  predicate BlockListed(fb: seq<int>, o: Owner, b: int) {
    o.Free? ==> o.d < |fb| && fb[o.d] == b
  }

  /** The block free list threaded through the first int of each free block is exactly `fb`. */
  ghost predicate FreeBlocks(head: int, blocks: seq<Block>, own: seq<Owner>, fb: seq<int>) {
    && |own| == |blocks| <= 0x7FFF_FFFF
    && head == Top(fb)
    && (forall d {:trigger FreeAt(fb, blocks, own, d)} :: 0 <= d < |fb| ==> FreeAt(fb, blocks, own, d))
    && (forall b {:trigger BlockListed(fb, own[b], b)} :: 0 <= b < |own| ==> BlockListed(fb, own[b], b))
  }

  predicate OwnsAt(node: Inode, own: seq<Owner>, i: nat, k: nat)
    requires k < N_DBLOCKS
  {
    0 <= node.dblocks[k] < |own| && own[node.dblocks[k]] == By(i, k)
  }

  predicate OwnsAll(node: Inode, own: seq<Owner>, i: nat) {
    forall k {:trigger OwnsAt(node, own, i, k)} :: 0 <= k < Owned(node) ==> OwnsAt(node, own, i, k)
  }

  predicate OwnerOk(inodes: seq<Inode>, role: seq<Role>, o: Owner, b: int)
    requires o.By?
  {
    && o.i < |inodes| && o.i < |role| && role[o.i].InUse?
    && o.k < Owned(inodes[o.i])
    && inodes[o.i].dblocks[o.k] == b
  }

  /** Inode i owns exactly the blocks its first Owned(i) direct pointers name, and nobody else does. */
  ghost predicate Owners(inodes: seq<Inode>, role: seq<Role>, own: seq<Owner>) {
    && |role| == |inodes|
    && (forall i {:trigger OwnsAll(inodes[i], own, i)} ::
          0 <= i < |inodes| && role[i].InUse? ==> OwnsAll(inodes[i], own, i))
    && (forall b {:trigger OwnerOk(inodes, role, own[b], b)} :: 0 <= b < |own| && own[b].By? ==> OwnerOk(inodes, role, own[b], b))
  }

  // ---- blocks beyond the direct ones ----

  /** Block x is reached through an index block or is one. */
  predicate IsDeep(x: Node) { x.InRange() && !(x.Data? && x.k < N_DBLOCKS) }

  predicate DeepNeeded(node: Inode, x: Node) { IsDeep(x) && x.First() < DataCount(node) }

  predicate DeepAt(node: Inode, blocks: seq<Block>, own: seq<Owner>, i: nat, x: Node)
    requires x.InRange()
  {
    0 <= Number(blocks, node, x) < |own| && own[Number(blocks, node, x)] == Deep(i, x)
  }

  ghost predicate DeepAll(node: Inode, blocks: seq<Block>, own: seq<Owner>, i: nat) {
    forall x {:trigger DeepAt(node, blocks, own, i, x)} :: DeepNeeded(node, x) ==> DeepAt(node, blocks, own, i, x)
  }

  predicate DeepOk(inodes: seq<Inode>, blocks: seq<Block>, role: seq<Role>, o: Owner, b: int)
    requires o.Deep?
  {
    && o.i < |inodes| && o.i < |role| && role[o.i].InUse?
    && DeepNeeded(inodes[o.i], o.x)
    && Number(blocks, inodes[o.i], o.x) == b
  }

  /** Inode i owns exactly the index blocks and the further data blocks that its size calls for,
      each where the index block above it says, and nobody else does. */
  ghost predicate Deeps(inodes: seq<Inode>, blocks: seq<Block>, role: seq<Role>, own: seq<Owner>) {
    && |role| == |inodes| && |own| == |blocks|
    && (forall i {:trigger DeepAll(inodes[i], blocks, own, i)} ::
          0 <= i < |inodes| && role[i].InUse? ==> DeepAll(inodes[i], blocks, own, i))
    && (forall b {:trigger DeepOk(inodes, blocks, role, own[b], b)} ::
          0 <= b < |own| && own[b].Deep? ==> DeepOk(inodes, blocks, role, own[b], b))
  }

  // ---- directories ----

  /** `last_block_index` is the block of the last entry. */
  predicate LastOk(node: Inode) {
    0 < node.size <= DIRECT_LIMIT && node.last == node.dblocks[(node.size - 1) / BLOCKSIZE]
  }

  ghost predicate Lasts(inodes: seq<Inode>, role: seq<Role>) {
    |role| == |inodes| && forall i {:trigger LastOk(inodes[i])} :: 0 <= i < |inodes| && role[i].InUse? && inodes[i].kind == DIR ==> LastOk(inodes[i])
  }

  ghost predicate EntriesMatch(node: Inode, blocks: seq<Block>, es: seq<Entry>) {
    && SizeOk(node) && |es| == Count(node)
    && forall k :: 0 <= k < |es| ==> DirEntry(blocks, node, k) == es[k]
  }

  /** The blocks of every directory hold its entries. */
  ghost predicate DirsMatch(inodes: seq<Inode>, blocks: seq<Block>, role: seq<Role>, dirs: seq<seq<Entry>>) {
    && |role| == |inodes| == |dirs|
    && forall i {:trigger EntriesMatch(inodes[i], blocks, dirs[i])} ::
         0 <= i < |inodes| && role[i].InUse? && inodes[i].kind == DIR ==> EntriesMatch(inodes[i], blocks, dirs[i])
  }

  /** Slots 0 and 1 are "." and "..". */
  predicate DotsOk(es: seq<Entry>, i: int, parent: int) {
    && 2 <= |es|
    && es[0].inode == i && es[0].name == DOT
    && es[1].inode == parent && es[1].name == DOTDOT
  }

  /** Entry k of directory i names a used inode whose parent is i and whose slot is k. */
  predicate ChildOk(inodes: seq<Inode>, role: seq<Role>, pos: seq<int>, e: Entry, i: int, k: int)
    requires |role| == |pos| == |inodes|
  {
    && NameOk(e.name)
    && 0 < e.inode < |inodes| && role[e.inode].InUse?
    && inodes[e.inode].parent == i && pos[e.inode] == k
  }

  predicate Named(inodes: seq<Inode>, role: seq<Role>, pos: seq<int>, rank: seq<nat>, dirs: seq<seq<Entry>>, j: int)
    requires |role| == |pos| == |rank| == |dirs| == |inodes| && 0 <= j < |inodes|
  {
    var p := inodes[j].parent;
    && UsedDir(inodes, role, p)
    && 2 <= pos[j] < |dirs[p]|
    && dirs[p][pos[j]].inode == j
    && rank[j] == rank[p] + 1
  }

  /** Every directory holds ".", ".." and entries that correspond one to one to the used inodes
      whose parent it is; ranks grow by one from parent to child, so the links form a tree. */
  ghost predicate Tree(inodes: seq<Inode>, role: seq<Role>, pos: seq<int>, rank: seq<nat>, dirs: seq<seq<Entry>>) {
    && |role| == |pos| == |rank| == |dirs| == |inodes| > 0
    && (forall i {:trigger DotsOk(dirs[i], i, inodes[i].parent)} ::
          0 <= i < |inodes| && role[i].InUse? && inodes[i].kind == DIR ==> DotsOk(dirs[i], i, inodes[i].parent))
    && (forall i, k {:trigger ChildOk(inodes, role, pos, dirs[i][k], i, k)} ::
          0 <= i < |inodes| && role[i].InUse? && inodes[i].kind == DIR && 2 <= k < |dirs[i]|
          ==> ChildOk(inodes, role, pos, dirs[i][k], i, k))
    && (forall j {:trigger Named(inodes, role, pos, rank, dirs, j)} :: 0 < j < |inodes| && role[j].InUse? ==> Named(inodes, role, pos, rank, dirs, j))
    && rank[0] == 0
  }

  // ---- the open-file table ----

  /** An open slot caches the inode on disk, of a used inode, and its offset is inside the file. */
  predicate SlotOk(slot: Slot, inodes: seq<Inode>, role: seq<Role>) {
    !slot.free ==>
      && 0 <= slot.node.index < |inodes| && slot.node.index < |role| && role[slot.node.index].InUse?
      && slot.node == inodes[slot.node.index]
      && 0 <= slot.offset <= slot.node.size
      && (slot.node.kind == DIR ==> slot.offset % ENTRYSIZE == 0)
  }

  predicate NoDuplicates(table: seq<Slot>) {
    forall t, u :: 0 <= t < u < |table| && !table[t].free && !table[u].free ==> table[t].node.index != table[u].node.index
  }

  /** The table is coherent with the disk, no inode is open twice, and the root is open in slot 0 or nowhere,
      and nothing else ever is in slot 0. */
  ghost predicate TableOk(table: seq<Slot>, inodes: seq<Inode>, role: seq<Role>) {
    && |table| == FILETABLESIZE
    && (forall t {:trigger SlotOk(table[t], inodes, role)} :: 0 <= t < |table| ==> SlotOk(table[t], inodes, role))
    && NoDuplicates(table)
    && (forall t :: 0 <= t < |table| && !table[t].free ==> (table[t].node.index == 0 <==> t == 0))
  }

  // ---- all together ----

  /** Everything but the tree, the inode free list and the superblock on disk: what the steps in
      the middle of a call already keep. */
  ghost predicate Disk(s: State, g: Ghost) {
    && InodesOk(s.inodes, g.role)
    && FreeBlocks(s.sb.freeBlock, s.blocks, g.own, g.fb)
    && Owners(s.inodes, g.role, g.own)
    && Deeps(s.inodes, s.blocks, g.role, g.own)
    && Lasts(s.inodes, g.role)
    && DirsMatch(s.inodes, s.blocks, g.role, g.dirs)
    && TableOk(s.table, s.inodes, g.role)
  }

  ghost predicate Inv(s: State, g: Ghost) {
    && s.dsb == s.sb
    && Disk(s, g)
    && FreeInodes(s.sb.freeInode, s.inodes, g.role, g.fi)
    && Tree(s.inodes, g.role, g.pos, g.rank, g.dirs)
  }

  /** All of it except what it says of `last_block_index`. */
  ghost predicate AllButLasts(s: State, g: Ghost) {
    && s.dsb == s.sb
    && InodesOk(s.inodes, g.role)
    && FreeBlocks(s.sb.freeBlock, s.blocks, g.own, g.fb)
    && Owners(s.inodes, g.role, g.own)
    && Deeps(s.inodes, s.blocks, g.role, g.own)
    && DirsMatch(s.inodes, s.blocks, g.role, g.dirs)
    && TableOk(s.table, s.inodes, g.role)
    && FreeInodes(s.sb.freeInode, s.inodes, g.role, g.fi)
    && Tree(s.inodes, g.role, g.pos, g.rank, g.dirs)
  }

  /** A state some assignment of roles explains. */
  ghost predicate Valid(s: State) {
    exists g :: Inv(s, g)
  }

  /** A state in which, moreover, every block is free or in one file. */
  ghost predicate NoneLost(s: State) {
    exists g :: Inv(s, g) && LostSet(g.own) == {}
  }
}
