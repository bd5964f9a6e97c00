/** `f_write` keeps the invariant and the bytes of the file. Between its steps the size field may
    run ahead of the data, so the proof follows the size that the data justifies. */
module WriteSteps {
  import opened Bytes
  import opened BlockMap
  import opened Records
  import opened Invariant
  import opened Roles
  import opened Append
  import opened Transfer

  /** Slot fd holds an open regular file. */
  ghost predicate OpenReg(s: State, g: Ghost, fd: nat) {
    fd < |s.table| && !s.table[fd].free && s.table[fd].node.kind == REG && Inv(s, g)
  }

  // ---- one change of the open file ----

  /** The state after the open file, its blocks and the free list have changed. */
  function FileChanged(s: State, fd: nat, slot: Slot, blocks: seq<Block>, head: int32): State
    requires fd < |s.table| && 0 <= slot.node.index < |s.inodes|
  {
    var sb := s.sb.(freeBlock := head);
    s.(table := s.table[fd := slot], inodes := s.inodes[slot.node.index := slot.node], blocks := blocks, sb := sb, dsb := sb)
  }

  lemma FileKeepsTree(inodes: seq<Inode>, role: seq<Role>, pos: seq<int>, rank: seq<nat>, dirs: seq<seq<Entry>>, i: int, node: Inode)
    requires Tree(inodes, role, pos, rank, dirs) && 0 <= i < |inodes|
    requires node.kind == inodes[i].kind && node.parent == inodes[i].parent
    ensures Tree(inodes[i := node], role, pos, rank, dirs)
  {
    var inodes' := inodes[i := node];
    forall d | 0 <= d < |inodes'| && role[d].InUse? && inodes'[d].kind == DIR ensures DotsOk(dirs[d], d, inodes'[d].parent) {
      assert DotsOk(dirs[d], d, inodes[d].parent);
    }
    forall d, k | 0 <= d < |inodes'| && role[d].InUse? && inodes'[d].kind == DIR && 2 <= k < |dirs[d]|
      ensures ChildOk(inodes', role, pos, dirs[d][k], d, k)
    {
      assert ChildOk(inodes, role, pos, dirs[d][k], d, k);
    }
    forall j | 0 < j < |inodes'| && role[j].InUse? ensures Named(inodes', role, pos, rank, dirs, j) {
      assert Named(inodes, role, pos, rank, dirs, j);
    }
  }

  lemma FileKeepsDirs(inodes: seq<Inode>, blocks: seq<Block>, blocks': seq<Block>, role: seq<Role>, own: seq<Owner>,
                      dirs: seq<seq<Entry>>, i: int, node: Inode)
    requires InodesOk(inodes, role) && Owners(inodes, role, own) && |own| == |blocks| == |blocks'|
    requires DirsMatch(inodes, blocks, role, dirs) && Lasts(inodes, role) && 0 <= i < |inodes|
    requires inodes[i].kind == REG && node.kind == REG
    requires forall b :: 0 <= b < |own| && own[b].By? && own[b].i != i ==> blocks'[b] == blocks[b]
    ensures DirsMatch(inodes[i := node], blocks', role, dirs) && Lasts(inodes[i := node], role)
  {
    var inodes' := inodes[i := node];
    forall d | 0 <= d < |inodes'| && role[d].InUse? && inodes'[d].kind == DIR ensures EntriesMatch(inodes'[d], blocks', dirs[d]) {
      assert InodeOk(inodes[d], d, role[d]) && EntriesMatch(inodes[d], blocks, dirs[d]);
      forall k | 0 <= k < Count(inodes[d])
        ensures GetBlock(blocks', inodes[d].dblocks[k / ENTRIES_PER_BLOCK]) == GetBlock(blocks, inodes[d].dblocks[k / ENTRIES_PER_BLOCK])
      {
        EntryBlockOwned(inodes, role, own, d, k);
      }
      EntriesFrame(inodes[d], blocks, inodes[d], blocks', dirs[d]);
    }
    forall d | 0 <= d < |inodes'| && role[d].InUse? && inodes'[d].kind == DIR ensures LastOk(inodes'[d]) {
      assert LastOk(inodes[d]);
    }
  }

  lemma FileKeepsInodes(inodes: seq<Inode>, role: seq<Role>, i: int, node: Inode)
    requires InodesOk(inodes, role) && 0 <= i < |inodes| && role[i].InUse? && inodes[i].kind == REG
    requires node.kind == REG && node.index == i && FileSizeOk(node)
    ensures InodesOk(inodes[i := node], role)
  {
    var inodes' := inodes[i := node];
    forall j | 0 <= j < |inodes'| ensures InodeOk(inodes'[j], j, role[j]) {
      assert InodeOk(inodes[j], j, role[j]);
    }
  }

  /** Any change of an open file that leaves the other files' blocks alone and has sound roles. */
  lemma FileStep(s: State, g: Ghost, fd: nat, slot: Slot, blocks: seq<Block>, head: int32, own: seq<Owner>, fb: seq<int>)
    requires OpenReg(s, g, fd)
    requires slot.node.index == s.table[fd].node.index && slot.node.parent == s.table[fd].node.parent && slot.node.kind == REG
    requires !slot.free && FileSizeOk(slot.node) && 0 <= slot.offset <= slot.node.size
    requires 0 <= slot.node.index < |s.inodes|
    requires |blocks| == |s.blocks| && FreeBlocks(head, blocks, own, fb)
    requires Owners(s.inodes[slot.node.index := slot.node], g.role, own)
    requires Deeps(s.inodes[slot.node.index := slot.node], blocks, g.role, own)
    requires forall b :: 0 <= b < |g.own| && Taken(g.own[b]) && g.own[b].i != slot.node.index ==> blocks[b] == s.blocks[b]
    ensures Inv(FileChanged(s, fd, slot, blocks, head), g.(own := own, fb := fb))
  {
    var i := slot.node.index;
    assert SlotOk(s.table[fd], s.inodes, g.role);
    FileKeepsInodes(s.inodes, g.role, i, slot.node);
    FileKeepsDirs(s.inodes, s.blocks, blocks, g.role, g.own, g.dirs, i, slot.node);
    FileKeepsTree(s.inodes, g.role, g.pos, g.rank, g.dirs, i, slot.node);
    TableFollows(s.table, s.inodes, g.role, fd, slot);
    WriteUsedInode(s.sb.freeInode, s.inodes, g.role, g.fi, i, slot.node);
  }

  /** An open file that uses direct blocks only, before and after: the deeper blocks are those of others. */
  lemma DeepsOfOthers(s: State, g: Ghost, fd: nat, slot: Slot, blocks: seq<Block>, own: seq<Owner>)
    requires OpenReg(s, g, fd) && SizeOk(s.table[fd].node) && SizeOk(slot.node) && 0 <= slot.node.index < |s.inodes|
    requires slot.node.index == s.table[fd].node.index && |blocks| == |s.blocks| == |own|
    requires forall b :: 0 <= b < |own| && b < |g.own| && (g.own[b].Deep? || own[b].Deep?) ==> own[b] == g.own[b] && blocks[b] == s.blocks[b]
    ensures Deeps(s.inodes[slot.node.index := slot.node], blocks, g.role, own)
  {
    hide FreeInodes, FreeBlocks, Owners, Deeps, Lasts, DirsMatch, Tree, InodesOk;
    var i := slot.node.index;
    assert SlotOk(s.table[fd], s.inodes, g.role);
    OwnLength(s, g);
    SmallIsShallow(s.inodes[i], g.role[i]);
    SmallIsShallow(slot.node, g.role[i]);
    DeepsAside(s.inodes, s.blocks, g.role, g.own, i, slot.node, g.role[i], blocks, own);
    assert g.role[i := g.role[i]] == g.role;
  }

  lemma OwnLength(s: State, g: Ghost)
    requires Inv(s, g)
    ensures |g.own| == |s.blocks| && |g.role| == |s.inodes|
  {
  }

  // ---- the three ways a block is written ----

  /** What the open file is and what it owns. */
  lemma OpenRegFacts(s: State, g: Ghost, fd: nat)
    requires OpenReg(s, g, fd)
    ensures var slot := s.table[fd];
            var i := slot.node.index;
            && 0 <= i < |s.inodes| && g.role[i].InUse? && slot.node == s.inodes[i] && FileSizeOk(slot.node)
            && 0 <= slot.offset <= slot.node.size
            && 1 <= Owned(slot.node)
            && OwnsAll(slot.node, g.own, i) && |g.own| == |s.blocks|
            && (g.fb != [] ==> s.sb.freeBlock == Top(g.fb) && 0 <= Top(g.fb) < |s.blocks| && g.own[Top(g.fb)].Free?)
  {
    var i := s.table[fd].node.index;
    assert SlotOk(s.table[fd], s.inodes, g.role) && InodeOk(s.inodes[i], i, g.role[i]);
    assert OwnsAll(s.inodes[i], g.own, i);
    if g.fb != [] {
      assert FreeAt(g.fb, s.blocks, g.own, |g.fb| - 1);
    }
  }

  /** Writing a block the file has. */
  lemma RewriteBlock(s: State, g: Ghost, fd: nat, k: nat, x: Block, slot: Slot)
    requires OpenReg(s, g, fd) && SizeOk(s.table[fd].node) && k < Owned(s.table[fd].node)
    requires !slot.free && SizeOk(slot.node) && 0 <= slot.offset <= slot.node.size
    requires Owned(slot.node) == Owned(s.table[fd].node)
    requires slot.node == s.table[fd].node.(size := slot.node.size, last := slot.node.last)
    ensures k < N_DBLOCKS && 0 <= slot.node.index < |s.inodes| && 0 <= slot.node.dblocks[k] < |s.blocks|
    ensures g.own[slot.node.dblocks[k]] == By(slot.node.index, k)
    ensures Inv(FileChanged(s, fd, slot, s.blocks[slot.node.dblocks[k] as int := x], s.sb.freeBlock), g)
  {
    OpenRegFacts(s, g, fd);
    var i, b := slot.node.index, slot.node.dblocks[k];
    assert OwnsAt(s.table[fd].node, g.own, i, k);
    WriteOwnedBlock(s.sb.freeBlock, s.blocks, g.own, g.fb, b, x);
    SameBlocks(s.inodes, g.role, g.own, i, slot.node);
    DeepsOfOthers(s, g, fd, slot, s.blocks[b as int := x], g.own);
    FileStep(s, g, fd, slot, s.blocks[b as int := x], s.sb.freeBlock, g.own, g.fb);
    assert g.(own := g.own, fb := g.fb) == g;
  }

  /** A block off the free list as the file's next one. */
  lemma ExtendBlock(s: State, g: Ghost, fd: nat, x: Block, slot: Slot)
    requires OpenReg(s, g, fd) && SizeOk(s.table[fd].node) && g.fb != []
    requires !slot.free && SizeOk(slot.node) && 0 <= slot.offset <= slot.node.size
    requires Owned(slot.node) == Owned(s.table[fd].node) + 1
    requires var m := Owned(s.table[fd].node);
             m < N_DBLOCKS && slot.node == s.table[fd].node.(size := slot.node.size, last := slot.node.last,
               dblocks := s.table[fd].node.dblocks[m := s.sb.freeBlock])
    ensures 0 <= slot.node.index < |s.inodes| && 0 <= s.sb.freeBlock < |s.blocks| && g.own[s.sb.freeBlock].Free?
    ensures var m := Owned(s.table[fd].node);
            Inv(FileChanged(s, fd, slot, s.blocks[s.sb.freeBlock as int := x], Link(s.blocks[s.sb.freeBlock])),
                g.(own := g.own[s.sb.freeBlock as int := By(slot.node.index, m)], fb := g.fb[..|g.fb| - 1]))
  {
    OpenRegFacts(s, g, fd);
    var i, b, m := slot.node.index, s.sb.freeBlock, Owned(s.table[fd].node);
    TakeBlock(s.blocks, g.own, g.fb, By(i, m));
    var own, fb := g.own[b as int := By(i, m)], g.fb[..|g.fb| - 1];
    WriteOwnedBlock(Link(s.blocks[b]), s.blocks, own, fb, b, x);
    GainBlock(s.inodes, g.role, g.own, i, slot.node);
    DeepsOfOthers(s, g, fd, slot, s.blocks[b as int := x], own);
    FileStep(s, g, fd, slot, s.blocks[b as int := x], Link(s.blocks[b]), own, fb);
  }

  /** A block off the free list in place of the file's k-th, which is lost. */
  lemma ReplaceFileBlock(s: State, g: Ghost, fd: nat, k: nat, x: Block, slot: Slot)
    requires OpenReg(s, g, fd) && SizeOk(s.table[fd].node) && g.fb != [] && k < Owned(s.table[fd].node)
    requires !slot.free && SizeOk(slot.node) && 0 <= slot.offset <= slot.node.size
    requires Owned(slot.node) == Owned(s.table[fd].node)
    requires slot.node == s.table[fd].node.(size := slot.node.size, last := slot.node.last,
               dblocks := s.table[fd].node.dblocks[k := s.sb.freeBlock])
    ensures 0 <= slot.node.index < |s.inodes| && 0 <= s.sb.freeBlock < |s.blocks| && g.own[s.sb.freeBlock].Free?
    ensures 0 <= s.table[fd].node.dblocks[k] < |s.blocks| && g.own[s.table[fd].node.dblocks[k]] == By(slot.node.index, k)
    ensures Inv(FileChanged(s, fd, slot, s.blocks[s.sb.freeBlock as int := x], Link(s.blocks[s.sb.freeBlock])),
                g.(own := g.own[s.table[fd].node.dblocks[k] as int := Lost][s.sb.freeBlock as int := By(slot.node.index, k)],
                   fb := g.fb[..|g.fb| - 1]))
  {
    OpenRegFacts(s, g, fd);
    var i, b, was := slot.node.index, s.sb.freeBlock, s.table[fd].node.dblocks[k];
    assert OwnsAt(s.table[fd].node, g.own, i, k);
    var fb := g.fb[..|g.fb| - 1];
    var own1 := g.own[b as int := By(i, k)];
    TakeBlock(s.blocks, g.own, g.fb, By(i, k));
    RelabelBlock(Link(s.blocks[b]), s.blocks, own1, fb, was, Lost);
    var own := g.own[was as int := Lost][b as int := By(i, k)];
    assert own1[was as int := Lost] == own;
    WriteOwnedBlock(Link(s.blocks[b]), s.blocks, own, fb, b, x);
    ReplaceBlock(s.inodes, g.role, g.own, i, slot.node, k);
    DeepsOfOthers(s, g, fd, slot, s.blocks[b as int := x], own);
    FileStep(s, g, fd, slot, s.blocks[b as int := x], Link(s.blocks[b]), own, fb);
  }

  // ---- the size the data justifies ----

  /** The state with the open file's size field set to z. */
  function Shadow(s: State, fd: nat, z: int): State
    requires fd < |s.table| && 0 <= s.table[fd].node.index < |s.inodes|
  {
    var node := s.table[fd].node.(size := z);
    s.(table := s.table[fd := s.table[fd].(node := node)], inodes := s.inodes[node.index := node])
  }

  /** In the middle of a write: but for the size field, which should be z, all is well. */
  ghost predicate Writing(s: State, g: Ghost, fd: nat, z: int) {
    && fd < |s.table| && 0 <= s.table[fd].node.index < |s.inodes|
    && s.inodes[s.table[fd].node.index] == s.table[fd].node
    && OpenReg(Shadow(s, fd, z), g, fd)
  }

  lemma ShadowOfChange(s: State, fd: nat, z: int, slot: Slot, blocks: seq<Block>, head: int32, z': int)
    requires fd < |s.table| && 0 <= s.table[fd].node.index < |s.inodes| && slot.node.index == s.table[fd].node.index
    ensures Shadow(FileChanged(s, fd, slot, blocks, head), fd, z')
              == FileChanged(Shadow(s, fd, z), fd, slot.(node := slot.node.(size := z')), blocks, head)
  {
    var a := Shadow(FileChanged(s, fd, slot, blocks, head), fd, z');
    var b := FileChanged(Shadow(s, fd, z), fd, slot.(node := slot.node.(size := z')), blocks, head);
    assert a.table == b.table && a.inodes == b.inodes;
  }

  // ---- bytes ----

  /** Writing the first bytes of one owned or free block, as the file's block n. */
  ghost predicate BlockWritten(s: State, t: State, fd: nat, n: nat, x: Block)
    requires fd < |s.table| && fd < |t.table| && n < N_DBLOCKS
  {
    var b := t.table[fd].node.dblocks[n];
    && 0 <= b < |s.blocks| && t.blocks == s.blocks[b as int := x]
    && t.table[fd].node.dblocks == s.table[fd].node.dblocks[n := b]
  }

  /** Bytes of the other blocks of the file are as before; those of block n are x. */
  lemma BytesAfter(s: State, t: State, g: Ghost, fd: nat, z: int, n: nat, x: Block, k: nat)
    requires Writing(s, g, fd, z) && fd < |t.table| && n < N_DBLOCKS && BlockWritten(s, t, fd, n, x)
    requires var b := t.table[fd].node.dblocks[n];
             b < |g.own| && (g.own[b].Free? || g.own[b] == By(s.table[fd].node.index, n))
    requires k < DIRECT_LIMIT && (k / BLOCKSIZE == n || k / BLOCKSIZE < Owned(s.table[fd].node.(size := z)))
    ensures ByteAt(t.blocks, t.table[fd].node, k)
              == if k / BLOCKSIZE == n then x[k % BLOCKSIZE] else ByteAt(s.blocks, s.table[fd].node, k)
  {
    OpenRegFacts(Shadow(s, fd, z), g, fd);
    if k / BLOCKSIZE != n {
      assert OwnsAt(s.table[fd].node.(size := z), g.own, s.table[fd].node.index, k / BLOCKSIZE);
    }
  }

  // ---- one block of a write ----

  /** The file's k-th block becomes x: an own block rewritten or a free one (`grows`) put there. */
  function BlockPut(s: State, fd: nat, k: nat, x: Block, slot: Slot, grows: bool): State
    requires fd < |s.table| && 0 <= slot.node.index < |s.inodes| && k < N_DBLOCKS && 0 <= slot.node.dblocks[k] < |s.blocks|
  {
    var b := slot.node.dblocks[k] as int;
    FileChanged(s, fd, slot, s.blocks[b := x], if grows then Link(s.blocks[b]) else s.sb.freeBlock)
  }

  /** The slot is the old one but for offset, size, last block and, when growing, pointer k. */
  predicate NextSlot(s: State, fd: nat, k: nat, slot: Slot, grows: bool)
    requires fd < |s.table| && k < N_DBLOCKS
  {
    var node := s.table[fd].node;
    var dblocks := if grows then node.dblocks[k := s.sb.freeBlock] else node.dblocks;
    && slot == s.table[fd].(offset := slot.offset, node := slot.node)
    && slot.node == node.(size := slot.node.size, last := slot.node.last, dblocks := dblocks)
  }

  /** How the roles of blocks move: a new block leaves the free list; the block it replaces, if
      any, is lost; the other files keep theirs. */
  ghost predicate RolesMove(g: Ghost, h: Ghost, i: int, grows: bool, was: int) {
    && h == g.(own := h.own, fb := h.fb) && |h.own| == |g.own|
    && |h.fb| == (if grows then |g.fb| - 1 else |g.fb|)
    && (forall c :: 0 <= c < |g.own| && Taken(g.own[c]) && g.own[c].i != i ==> h.own[c] == g.own[c])
    && (forall c :: 0 <= c < |g.own| ==> (h.own[c].Lost? <==> g.own[c].Lost? || c == was))
  }

  lemma PutBlock(s: State, g: Ghost, fd: nat, z: int, k: nat, x: Block, slot: Slot, z': int, grows: bool) returns (h: Ghost)
    requires Writing(s, g, fd, z) && k < N_DBLOCKS && NextSlot(s, fd, k, slot, grows)
    requires SizeOk(s.table[fd].node.(size := z)) && SizeOk(slot.node.(size := z'))
    requires 0 <= slot.offset <= z' && (grows ==> g.fb != [])
    requires var m, m' := Owned(s.table[fd].node.(size := z)), Owned(slot.node.(size := z'));
             if k < m then m' == m else grows && k == m && m' == m + 1
    ensures 0 <= slot.node.dblocks[k] < |s.blocks| && |g.own| == |s.blocks|
    ensures g.own[slot.node.dblocks[k]] == By(slot.node.index, k) || (grows && g.own[slot.node.dblocks[k]].Free?)
    ensures Writing(BlockPut(s, fd, k, x, slot, grows), h, fd, z')
    ensures RolesMove(g, h, slot.node.index, grows,
                      if grows && k < Owned(s.table[fd].node.(size := z)) then s.table[fd].node.dblocks[k] else -1)
  {
    var s0 := Shadow(s, fd, z);
    var slot0 := slot.(node := slot.node.(size := z'));
    var m := Owned(s.table[fd].node.(size := z));
    OpenRegFacts(s0, g, fd);
    var b := slot.node.dblocks[k] as int;
    if !grows {
      h := g;
      RewriteBlock(s0, g, fd, k, x, slot0);
      ShadowOfChange(s, fd, z, slot, s.blocks[b := x], s.sb.freeBlock, z');
    } else if k == m {
      h := g.(own := g.own[b := By(slot.node.index, k)], fb := g.fb[..|g.fb| - 1]);
      ExtendBlock(s0, g, fd, x, slot0);
      ShadowOfChange(s, fd, z, slot, s.blocks[b := x], Link(s.blocks[b]), z');
    } else {
      ReplaceFileBlock(s0, g, fd, k, x, slot0);
      h := g.(own := g.own[s.table[fd].node.dblocks[k] as int := Lost][b := By(slot.node.index, k)], fb := g.fb[..|g.fb| - 1]);
      ShadowOfChange(s, fd, z, slot, s.blocks[b := x], Link(s.blocks[b]), z');
    }
  }

  // ---- the loop ----

  lemma BlocksOfAligned(n: nat, c: nat)
    requires 1 <= n && c <= BLOCKSIZE
    ensures BlocksFor(BLOCKSIZE * (n - 1) + c) == if c == 0 then n - 1 else n
  {
  }

  lemma BlocksMonotone(y: nat, z: nat)
    requires y <= z
    ensures BlocksFor(y) <= BlocksFor(z)
  {
  }

  /** The loop is about to write block n (from 1): the offset is at its start, the data justifies
      the larger of the old size and the offset. */
  ghost predicate AtBlock(s: State, g: Ghost, fd: nat, n: nat, oldSize: nat, rest: nat) {
    && fd < |s.table| && Writing(s, g, fd, Max(oldSize, s.table[fd].offset))
    && s.table[fd].access != APPEND
    && 2 <= n && s.table[fd].offset == BLOCKSIZE * (n - 1) && s.table[fd].offset + rest <= DIRECT_LIMIT && oldSize <= DIRECT_LIMIT
    && BlocksFor(Max(oldSize, s.table[fd].offset + rest)) <= BlocksFor(Max(oldSize, s.table[fd].offset)) + |g.fb|
  }

  /** What one turn writes. */
  function StepContent(was: Block, data: seq<byte>, done: nat): Block
    requires done <= |data|
  {
    Splice(was, 0, data[done..done + Min(BLOCKSIZE, |data| - done)])
  }

  /** The slot after one turn. */
  function StepSlot(s: State, fd: nat, length: nat, n: nat, grows: bool): Slot
    requires fd < |s.table| && 1 <= n <= N_DBLOCKS
  {
    var slot := s.table[fd];
    var c := Min(BLOCKSIZE, length);
    var dblocks := if grows then slot.node.dblocks[n - 1 := s.sb.freeBlock] else slot.node.dblocks;
    slot.(offset := slot.offset + c,
          node := slot.node.(size := Max(slot.node.size, slot.offset + c), last := dblocks[n - 1], dblocks := dblocks))
  }

  lemma StepForm(s: State, fd: nat, data: seq<byte>, done: nat, n: nat, oldSize: int)
    requires fd < |s.table| && done < |data| && 1 <= n <= N_DBLOCKS && s.table[fd].access != APPEND && s.dsb == s.sb
    requires 0 <= s.table[fd].node.index < |s.inodes|
    requires var grows := s.table[fd].offset >= oldSize;
             0 <= StepSlot(s, fd, |data| - done, n, grows).node.dblocks[n - 1] < |s.blocks|
    ensures var grows := s.table[fd].offset >= oldSize;
            var slot := StepSlot(s, fd, |data| - done, n, grows);
            WriteStep(s, fd, data, done, n, oldSize)
              == BlockPut(s, fd, n - 1, StepContent(s.blocks[slot.node.dblocks[n - 1]], data, done), slot, grows)
  {
    var grows := s.table[fd].offset >= oldSize;
    var slot := StepSlot(s, fd, |data| - done, n, grows);
    var t := WriteStep(s, fd, data, done, n, oldSize);
    var u := BlockPut(s, fd, n - 1, StepContent(s.blocks[slot.node.dblocks[n - 1]], data, done), slot, grows);
    assert t.table == u.table && t.inodes == u.inodes && t.blocks == u.blocks;
  }

  /** Up to byte `upto`, t's file is s's with `data` at position `at`. */
  ghost predicate BytesWritten(s: State, t: State, fd: nat, at: nat, data: seq<byte>, upto: nat)
    requires fd < |s.table| && fd < |t.table| && upto <= DIRECT_LIMIT
  {
    forall k {:trigger ByteAt(t.blocks, t.table[fd].node, k)} :: 0 <= k < upto ==>
      ByteAt(t.blocks, t.table[fd].node, k) == if at <= k < at + |data| then data[k - at] else ByteAt(s.blocks, s.table[fd].node, k)
  }

  /** The blocks of the other files are as they were. */
  ghost predicate OthersUntouched(s: State, t: State, g: Ghost, i: int) {
    |t.blocks| == |s.blocks| == |g.own| &&
    forall b :: 0 <= b < |g.own| && Taken(g.own[b]) && g.own[b].i != i ==> t.blocks[b] == s.blocks[b]
  }

  lemma InBlock(k: nat, n: nat)
    requires 1 <= n
    ensures k / BLOCKSIZE == n - 1 <==> BLOCKSIZE * (n - 1) <= k < BLOCKSIZE * n
    ensures k / BLOCKSIZE == n - 1 ==> k % BLOCKSIZE == k - BLOCKSIZE * (n - 1)
  {
  }

  lemma BelowOwned(k: nat, node: Inode)
    requires SizeOk(node) && k < node.size
    ensures k / BLOCKSIZE < Owned(node)
  {
  }

  /** The numbers of blocks before and after one turn. */
  lemma StepBlocks(s: State, g: Ghost, fd: nat, n: nat, oldSize: nat, rest: nat)
    requires AtBlock(s, g, fd, n, oldSize, rest) && rest > 0
    ensures n <= N_DBLOCKS
    ensures var off := s.table[fd].offset;
            var c := Min(BLOCKSIZE, rest);
            var z, z' := Max(oldSize, off), Max(oldSize, off + c);
            && 0 < z && BlocksFor(z') == (if off >= oldSize then n else BlocksFor(z)) && n <= BlocksFor(z')
            && (off >= oldSize ==> BlocksFor(z) == n - 1 && g.fb != [])
  {
    var off := s.table[fd].offset;
    var c := Min(BLOCKSIZE, rest);
    BlocksOfAligned(n, 0);
    BlocksOfAligned(n, c);
    if off >= oldSize {
      BlocksMonotone(off + c, Max(oldSize, off + rest));
    } else {
      BlocksOfAligned(n, 1);
      BlocksMonotone(off + 1, oldSize);
      BlocksMonotone(off + c, Max(oldSize, off + c));
      if off + c > oldSize {
        BlocksMonotone(oldSize, off + c);
      }
    }
  }

  /** Where one turn writes. */
  lemma StepTarget(s: State, g: Ghost, fd: nat, n: nat, oldSize: nat, rest: nat)
    requires AtBlock(s, g, fd, n, oldSize, rest) && rest > 0
    ensures n <= N_DBLOCKS
    ensures var grows := s.table[fd].offset >= oldSize;
            var b := StepSlot(s, fd, rest, n, grows).node.dblocks[n - 1];
            && 0 <= b < |s.blocks| && |g.own| == |s.blocks|
            && (if grows then b == s.sb.freeBlock && g.own[b].Free?
                else b == s.table[fd].node.dblocks[n - 1] && g.own[b] == By(s.table[fd].node.index, n - 1))
  {
    var off := s.table[fd].offset;
    var z := Max(oldSize, off);
    StepBlocks(s, g, fd, n, oldSize, rest);
    OpenRegFacts(Shadow(s, fd, z), g, fd);
    if off < oldSize {
      assert OwnsAt(s.table[fd].node.(size := z), g.own, s.table[fd].node.index, n - 1);
    }
  }

  /** One turn keeps what the data justifies. */
  lemma StepRoles(s: State, g: Ghost, fd: nat, data: seq<byte>, done: nat, n: nat, oldSize: nat) returns (h: Ghost)
    requires done < |data| && AtBlock(s, g, fd, n, oldSize, |data| - done)
    ensures n <= N_DBLOCKS
    ensures var off := s.table[fd].offset;
            var c := Min(BLOCKSIZE, |data| - done);
            var t := WriteStep(s, fd, data, done, n, oldSize);
            && Writing(t, h, fd, Max(oldSize, off + c))
            && RolesMove(g, h, s.table[fd].node.index, off >= oldSize, -1)
  {
    hide WriteStep, Disk, InodesOk, FreeInodes, FreeBlocks, Owners, Deeps, Lasts, DirsMatch, Tree, TableOk;
    var off := s.table[fd].offset;
    var rest := |data| - done;
    var c := Min(BLOCKSIZE, rest);
    var grows := off >= oldSize;
    StepBlocks(s, g, fd, n, oldSize, rest);
    StepTarget(s, g, fd, n, oldSize, rest);
    StepForm(s, fd, data, done, n, oldSize);
    var slot := StepSlot(s, fd, rest, n, grows);
    var x := StepContent(s.blocks[slot.node.dblocks[n - 1]], data, done);
    h := PutBlock(s, g, fd, Max(oldSize, off), n - 1, x, slot, Max(oldSize, off + c), grows);
  }

  /** What one turn writes where, field by field. */
  lemma StepWrites(s: State, g: Ghost, fd: nat, data: seq<byte>, done: nat, n: nat, oldSize: nat)
    requires done < |data| && AtBlock(s, g, fd, n, oldSize, |data| - done)
    ensures n <= N_DBLOCKS
    ensures var off := s.table[fd].offset;
            var c := Min(BLOCKSIZE, |data| - done);
            var t := WriteStep(s, fd, data, done, n, oldSize);
            var slot := StepSlot(s, fd, |data| - done, n, off >= oldSize);
            var b := slot.node.dblocks[n - 1];
            && |t.table| == |s.table| && t.table[fd] == slot
            && 0 <= b < |s.blocks| == |g.own|
            && BlockWritten(s, t, fd, n - 1, StepContent(s.blocks[b], data, done))
            && (g.own[b].Free? || g.own[b] == By(s.table[fd].node.index, n - 1))
            && (off < oldSize ==> b == s.table[fd].node.dblocks[n - 1])
  {
    hide WriteStep, Disk, InodesOk, FreeInodes, FreeBlocks, Owners, Deeps, Lasts, DirsMatch, Tree, TableOk;
    StepTarget(s, g, fd, n, oldSize, |data| - done);
    StepForm(s, fd, data, done, n, oldSize);
  }

  /** The byte k of the file after one turn. */
  lemma StepByte(s: State, t: State, g: Ghost, fd: nat, data: seq<byte>, done: nat, n: nat, oldSize: nat, k: nat)
    requires done < |data| && AtBlock(s, g, fd, n, oldSize, |data| - done) && n <= N_DBLOCKS
    requires fd < |t.table| && 0 <= t.table[fd].node.dblocks[n - 1] < |s.blocks| == |g.own|
    requires var b := t.table[fd].node.dblocks[n - 1];
             && BlockWritten(s, t, fd, n - 1, StepContent(s.blocks[b], data, done))
             && (g.own[b].Free? || g.own[b] == By(s.table[fd].node.index, n - 1))
             && (s.table[fd].offset < oldSize ==> b == s.table[fd].node.dblocks[n - 1])
    requires k < Max(oldSize, s.table[fd].offset + Min(BLOCKSIZE, |data| - done)) && k < DIRECT_LIMIT
    ensures var off := s.table[fd].offset;
            var c := Min(BLOCKSIZE, |data| - done);
            ByteAt(t.blocks, t.table[fd].node, k)
              == if off <= k < off + c then data[done..done + c][k - off] else ByteAt(s.blocks, s.table[fd].node, k)
  {
    var z := Max(oldSize, s.table[fd].offset);
    InBlock(k, n);
    if k < z {
      BelowOwned(k, s.table[fd].node.(size := z));
    }
    BytesAfter(s, t, g, fd, z, n - 1, StepContent(s.blocks[t.table[fd].node.dblocks[n - 1]], data, done), k);
  }

  lemma StepAside(s: State, t: State, g: Ghost, fd: nat, n: nat, x: Block)
    requires fd < |s.table| && fd < |t.table| && 1 <= n <= N_DBLOCKS && BlockWritten(s, t, fd, n - 1, x) && |g.own| == |s.blocks|
    requires var o := g.own[t.table[fd].node.dblocks[n - 1]]; o.Free? || (0 <= s.table[fd].node.index && o == By(s.table[fd].node.index, n - 1))
    ensures OthersUntouched(s, t, g, s.table[fd].node.index)
  {
  }

  lemma StepBytes(s: State, t: State, g: Ghost, fd: nat, data: seq<byte>, done: nat, n: nat, oldSize: nat)
    requires done < |data| && AtBlock(s, g, fd, n, oldSize, |data| - done) && n <= N_DBLOCKS
    requires fd < |t.table| && 0 <= t.table[fd].node.dblocks[n - 1] < |s.blocks| == |g.own|
    requires var b := t.table[fd].node.dblocks[n - 1];
             && BlockWritten(s, t, fd, n - 1, StepContent(s.blocks[b], data, done))
             && (g.own[b].Free? || g.own[b] == By(s.table[fd].node.index, n - 1))
             && (s.table[fd].offset < oldSize ==> b == s.table[fd].node.dblocks[n - 1])
    ensures var off := s.table[fd].offset;
            var c := Min(BLOCKSIZE, |data| - done);
            && OthersUntouched(s, t, g, s.table[fd].node.index)
            && Max(oldSize, off + c) <= DIRECT_LIMIT
            && BytesWritten(s, t, fd, off, data[done..done + c], Max(oldSize, off + c))
  {
    hide Inv, ByteAt, StepContent, BlockWritten, OthersUntouched;
    var off := s.table[fd].offset;
    var c := Min(BLOCKSIZE, |data| - done);
    StepAside(s, t, g, fd, n, StepContent(s.blocks[t.table[fd].node.dblocks[n - 1]], data, done));
    var seg := data[done..done + c];
    forall k | 0 <= k < Max(oldSize, off + c)
      ensures ByteAt(t.blocks, t.table[fd].node, k)
                == if off <= k < off + |seg| then seg[k - off] else ByteAt(s.blocks, s.table[fd].node, k)
    {
      StepByte(s, t, g, fd, data, done, n, oldSize, k);
    }
  }

  /** The roles after any number of blocks: nothing is lost, the other files keep theirs. */
  ghost predicate RolesKept(g: Ghost, h: Ghost, i: int) {
    && h == g.(own := h.own, fb := h.fb) && |h.own| == |g.own|
    && (forall c :: 0 <= c < |g.own| && Taken(g.own[c]) && g.own[c].i != i ==> h.own[c] == g.own[c])
    && (forall c :: 0 <= c < |g.own| ==> (h.own[c].Lost? <==> g.own[c].Lost?))
  }

  /** From s to t the loop has written `seg` at the offset of s, and nothing else. */
  ghost predicate Progress(s: State, g: Ghost, fd: nat, seg: seq<byte>, oldSize: nat, t: State, h: Ghost) {
    && fd < |s.table| == |t.table| && 0 <= s.table[fd].offset
    && var off, i := s.table[fd].offset, s.table[fd].node.index;
       var e := off + |seg|;
       && t.table[fd].offset == e && t.table[fd].node.index == i && t.table[fd].access == s.table[fd].access
       && t.table[fd].node.size == Max(s.table[fd].node.size, e)
       && Max(oldSize, e) <= DIRECT_LIMIT
       && RolesKept(g, h, i) && OthersUntouched(s, t, g, i)
       && |h.fb| + BlocksFor(Max(oldSize, e)) == |g.fb| + BlocksFor(Max(oldSize, off))
       && BytesWritten(s, t, fd, off, seg, Max(oldSize, e))
  }

  lemma BytesWrittenTrans(s: State, t: State, u: State, fd: nat, at: nat, d1: seq<byte>, d2: seq<byte>, upto1: nat, upto2: nat)
    requires fd < |s.table| && fd < |t.table| && fd < |u.table| && upto1 <= upto2 <= DIRECT_LIMIT
    requires BytesWritten(s, t, fd, at, d1, upto1) && BytesWritten(t, u, fd, at + |d1|, d2, upto2)
    requires upto2 <= Max(upto1, at + |d1| + |d2|) && at + |d1| <= upto1
    ensures BytesWritten(s, u, fd, at, d1 + d2, upto2)
  {
    forall k | 0 <= k < upto2
      ensures ByteAt(u.blocks, u.table[fd].node, k)
                == if at <= k < at + |d1 + d2| then (d1 + d2)[k - at] else ByteAt(s.blocks, s.table[fd].node, k)
    {
      if k < upto1 {
        assert ByteAt(t.blocks, t.table[fd].node, k) == if at <= k < at + |d1| then d1[k - at] else ByteAt(s.blocks, s.table[fd].node, k);
      }
    }
  }

  lemma ProgressTrans(s: State, g: Ghost, fd: nat, d1: seq<byte>, d2: seq<byte>, oldSize: nat, t: State, h: Ghost, u: State, f: Ghost)
    requires Progress(s, g, fd, d1, oldSize, t, h) && Progress(t, h, fd, d2, oldSize, u, f)
    ensures Progress(s, g, fd, d1 + d2, oldSize, u, f)
  {
    hide BytesWritten, BlocksFor;
    var off := s.table[fd].offset;
    BytesWrittenTrans(s, t, u, fd, off, d1, d2, Max(oldSize, off + |d1|), Max(oldSize, off + |d1| + |d2|));
  }

  /** One turn makes progress. */
  lemma StepProgress(s: State, g: Ghost, fd: nat, data: seq<byte>, done: nat, n: nat, oldSize: nat) returns (h: Ghost)
    requires done < |data| && AtBlock(s, g, fd, n, oldSize, |data| - done)
    ensures n <= N_DBLOCKS
    ensures var c := Min(BLOCKSIZE, |data| - done);
            var t := WriteStep(s, fd, data, done, n, oldSize);
            && Progress(s, g, fd, data[done..done + c], oldSize, t, h)
            && Writing(t, h, fd, Max(oldSize, s.table[fd].offset + c))
  {
    hide WriteStep, Inv, Disk, InodesOk, FreeInodes, FreeBlocks, Owners, Deeps, Lasts, DirsMatch, Tree, TableOk;
    h := StepRoles(s, g, fd, data, done, n, oldSize);
    StepWrites(s, g, fd, data, done, n, oldSize);
    StepBytes(s, WriteStep(s, fd, data, done, n, oldSize), g, fd, data, done, n, oldSize);
    StepBlocks(s, g, fd, n, oldSize, |data| - done);
  }

  lemma NextBlock(s: State, g: Ghost, fd: nat, seg: seq<byte>, n: nat, oldSize: nat, rest: nat, t: State, h: Ghost)
    requires AtBlock(s, g, fd, n, oldSize, rest) && rest > BLOCKSIZE == |seg|
    requires Progress(s, g, fd, seg, oldSize, t, h) && Writing(t, h, fd, Max(oldSize, s.table[fd].offset + BLOCKSIZE))
    ensures AtBlock(t, h, fd, n + 1, oldSize, rest - BLOCKSIZE)
  {
  }

  lemma LoopUnfold(s: State, fd: nat, data: seq<byte>, done: nat, n: nat, oldSize: int)
    requires fd < |s.table| && done < |data| && 1 <= n && BLOCKSIZE * (n - 1) + |data| - done <= DIRECT_LIMIT
    ensures n <= N_DBLOCKS && fd < |WriteStep(s, fd, data, done, n, oldSize).table|
    ensures var c := Min(BLOCKSIZE, |data| - done);
            WriteLoop(s, fd, data, done, n, oldSize) == WriteLoop(WriteStep(s, fd, data, done, n, oldSize), fd, data, done + c, n + 1, oldSize)
  {
  }

  lemma LoopEnd(s: State, fd: nat, data: seq<byte>, n: nat, oldSize: int)
    requires fd < |s.table| && 1 <= n && BLOCKSIZE * (n - 1) <= DIRECT_LIMIT
    ensures WriteLoop(s, fd, data, |data|, n, oldSize) == s
  {
  }

  /** A turn and the turns after it. */
  lemma LoopJoin(s: State, g: Ghost, fd: nat, data: seq<byte>, done: nat, c: nat, oldSize: nat, s1: State, h1: Ghost, t: State, h: Ghost)
    requires done + c <= |data|
    requires Progress(s, g, fd, data[done..done + c], oldSize, s1, h1) && Progress(s1, h1, fd, data[done + c..], oldSize, t, h)
    ensures Progress(s, g, fd, data[done..], oldSize, t, h)
  {
    ProgressTrans(s, g, fd, data[done..done + c], data[done + c..], oldSize, s1, h1, t, h);
    assert data[done..done + c] + data[done + c..] == data[done..];
  }

  /** The last turn. */
  lemma LastTurn(s: State, g: Ghost, fd: nat, data: seq<byte>, done: nat, n: nat, oldSize: nat, t: State, e: nat) returns (h: Ghost)
    requires done < |data| <= done + BLOCKSIZE && AtBlock(s, g, fd, n, oldSize, |data| - done)
    requires BLOCKSIZE * (n - 1) + |data| - done <= DIRECT_LIMIT && e == s.table[fd].offset + |data| - done
    requires t == WriteLoop(s, fd, data, done, n, oldSize)
    ensures Progress(s, g, fd, data[done..], oldSize, t, h)
    ensures Writing(t, h, fd, Max(oldSize, e))
  {
    hide WriteStep, Inv, Disk, InodesOk, FreeInodes, FreeBlocks, Owners, Deeps, Lasts, DirsMatch, Tree, TableOk;
    var rest := |data| - done;
    LoopUnfold(s, fd, data, done, n, oldSize);
    LoopEnd(WriteStep(s, fd, data, done, n, oldSize), fd, data, n + 1, oldSize);
    h := StepProgress(s, g, fd, data, done, n, oldSize);
    assert data[done..done + rest] == data[done..];
  }

  /** A turn before the last. */
  lemma FirstTurn(s: State, g: Ghost, fd: nat, data: seq<byte>, done: nat, n: nat, oldSize: nat) returns (s1: State, h1: Ghost)
    requires done + BLOCKSIZE < |data| && AtBlock(s, g, fd, n, oldSize, |data| - done)
    requires BLOCKSIZE * (n - 1) + |data| - done <= DIRECT_LIMIT
    ensures fd < |s1.table|
    ensures WriteLoop(s, fd, data, done, n, oldSize) == WriteLoop(s1, fd, data, done + BLOCKSIZE, n + 1, oldSize)
    ensures Progress(s, g, fd, data[done..done + BLOCKSIZE], oldSize, s1, h1)
    ensures AtBlock(s1, h1, fd, n + 1, oldSize, |data| - done - BLOCKSIZE)
    ensures s1.table[fd].offset == s.table[fd].offset + BLOCKSIZE
  {
    hide WriteStep, Inv, Disk, InodesOk, FreeInodes, FreeBlocks, Owners, Deeps, Lasts, DirsMatch, Tree, TableOk;
    LoopUnfold(s, fd, data, done, n, oldSize);
    s1 := WriteStep(s, fd, data, done, n, oldSize);
    h1 := StepProgress(s, g, fd, data, done, n, oldSize);
    NextBlock(s, g, fd, data[done..done + BLOCKSIZE], n, oldSize, |data| - done, s1, h1);
  }

  /** The loop writes the rest of the data, up to byte e of the file, where it belongs. */
  lemma {:induction false} LoopKeeps(s: State, g: Ghost, fd: nat, data: seq<byte>, done: nat, n: nat, oldSize: nat, t: State, e: nat) returns (h: Ghost)
    requires done < |data| && AtBlock(s, g, fd, n, oldSize, |data| - done)
    requires BLOCKSIZE * (n - 1) + |data| - done <= DIRECT_LIMIT && e == s.table[fd].offset + |data| - done
    requires t == WriteLoop(s, fd, data, done, n, oldSize)
    ensures Progress(s, g, fd, data[done..], oldSize, t, h)
    ensures Writing(t, h, fd, Max(oldSize, e))
    decreases |data| - done
  {
    hide WriteStep, Inv, Disk, InodesOk, FreeInodes, FreeBlocks, Owners, Deeps, Lasts, DirsMatch, Tree, TableOk;
    if |data| <= done + BLOCKSIZE {
      h := LastTurn(s, g, fd, data, done, n, oldSize, t, e);
    } else {
      var s1, h1 := FirstTurn(s, g, fd, data, done, n, oldSize);
      h := LoopKeeps(s1, h1, fd, data, done + BLOCKSIZE, n + 1, oldSize, t, e);
      LoopJoin(s, g, fd, data, done, BLOCKSIZE, oldSize, s1, h1, t, h);
    }
  }
}
