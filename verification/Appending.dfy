/** `f_write` in APPEND mode: right when the data fits into the last block. `Spilling` says what it
    does in every case. */
module Appending {
  import opened Bytes
  import opened Records
  import opened Operations
  import opened Invariant
  import opened Transfer
  import opened WriteSteps
  import opened WriteWhole

  /** Slot fd holds a regular file open for APPEND, and the data ends within the direct blocks. */
  ghost predicate CanAppendData(s: State, g: Ghost, fd: nat, data: seq<byte>) {
    && OpenReg(s, g, fd) && s.table[fd].access == APPEND
    && data != [] && WithinDirect(s.table[fd], |data|)
  }

  /** The data fits into a last block that the file has. */
  predicate FitsLastBlock(node: Inode, length: nat)
    requires SizeOk(node)
  {
    (node.size == 0 || node.size % BLOCKSIZE != 0) && length <= BLOCKSIZE - node.size % BLOCKSIZE
  }

  function AppendedSlot(slot: Slot, length: nat): Slot {
    slot.(offset := slot.node.size + length, node := slot.node.(size := slot.node.size + length))
  }

  lemma LastBlockNumbers(sz: nat, a: nat)
    requires (sz == 0 || sz % BLOCKSIZE != 0) && 0 < a <= BLOCKSIZE - sz % BLOCKSIZE
    ensures var m := if sz == 0 then 1 else BlocksFor(sz);
            sz / BLOCKSIZE == m - 1 && BlocksFor(sz + a) == m
  {
    var k, o := sz / BLOCKSIZE, sz % BLOCKSIZE;
    assert sz == BLOCKSIZE * k + o;
    BlocksOfAligned(k + 1, o + a);
    BlocksOfAligned(k + 1, o);
  }

  lemma AppendForm(s: State, fd: nat, data: seq<byte>)
    requires fd < |s.table| && WithinDirect(s.table[fd], |data|) && s.table[fd].access == APPEND && s.dsb == s.sb
    requires 0 <= s.table[fd].node.index < |s.inodes| && data != [] && FitsLastBlock(s.table[fd].node, |data|)
    requires s.table[fd].node.size < DIRECT_LIMIT
    requires 0 <= s.table[fd].node.dblocks[s.table[fd].node.size / BLOCKSIZE] < |s.blocks|
    ensures var slot := s.table[fd];
            && Write(s, fd, data).1 == |data|
            && Write(s, fd, data).0
                 == BlockPut(s, fd, slot.node.size / BLOCKSIZE, FirstContent(s.blocks, slot, data), AppendedSlot(slot, |data|), false)
  {
    hide TailBlock;
    var slot := s.table[fd];
    TailOfEnd(s.blocks, slot.node);
    var x := FirstContent(s.blocks, slot, data);
    var k := slot.node.size / BLOCKSIZE;
    var s1 := WriteFirst(s, fd, data);
    assert Splice(s.blocks[slot.node.dblocks[k]], 0, x) == x;
    assert WriteLoop(s1, fd, data, |data|, 1, slot.node.size) == s1;
    var t := SetSlot(s1, fd, s1.table[fd].(offset := slot.node.size + |data|));
    var u := BlockPut(s, fd, k, x, AppendedSlot(slot, |data|), false);
    assert t.table == u.table && t.inodes == u.inodes && t.blocks == u.blocks;
  }

  lemma AppendByte(s: State, t: State, g: Ghost, fd: nat, data: seq<byte>, q: nat)
    requires CanAppendData(s, g, fd, data) && FitsLastBlock(s.table[fd].node, |data|) && s.table[fd].node.size < DIRECT_LIMIT
    requires fd < |t.table| && 0 <= s.table[fd].node.index
    requires var slot, k := s.table[fd], s.table[fd].node.size / BLOCKSIZE;
             && 0 <= t.table[fd].node.dblocks[k] < |s.blocks| == |g.own|
             && g.own[t.table[fd].node.dblocks[k]] == By(slot.node.index, k)
             && t.table[fd].node.dblocks == slot.node.dblocks
             && BlockWritten(s, t, fd, k, FirstContent(s.blocks, slot, data))
    requires q < s.table[fd].node.size + |data| && q < DIRECT_LIMIT
    ensures ByteAt(t.blocks, t.table[fd].node, q)
              == if q < s.table[fd].node.size then ByteAt(s.blocks, s.table[fd].node, q) else data[q - s.table[fd].node.size]
  {
    hide Inv, TailBlock;
    var slot := s.table[fd];
    var sz := slot.node.size;
    var k := sz / BLOCKSIZE;
    ShadowOfOwnSize(s, g, fd);
    LastBlockNumbers(sz, |data|);
    TailOfEnd(s.blocks, slot.node);
    InBlock(q, k + 1);
    InBlock(sz, k + 1);
    if q < sz {
      BelowOwned(q, slot.node);
    }
    assert slot.node.(size := sz) == slot.node;
    BytesAfter(s, t, g, fd, sz, k, FirstContent(s.blocks, slot, data), q);
  }

  /** Appending data that fits into the last block refines the byte-string specification, keeps the
      invariant, and changes the role of no block. */
  lemma AppendFits(s: State, g: Ghost, fd: nat, data: seq<byte>)
    requires CanAppendData(s, g, fd, data) && FitsLastBlock(s.table[fd].node, |data|)
    ensures var (t, r) := Write(s, fd, data);
            && r == |data| && Inv(t, g) && fd < |t.table|
            && s.table[fd].node.size + |data| <= DIRECT_LIMIT
            && Refines(s, t, fd, s.table[fd].node.size, data)
            && OthersUntouched(s, t, g, s.table[fd].node.index)
  {
    hide FirstContent, Write, Disk;
    var slot := s.table[fd];
    var sz := slot.node.size;
    var k := sz / BLOCKSIZE;
    OpenRegFacts(s, g, fd);
    LastBlockNumbers(sz, |data|);
    assert OwnsAt(slot.node, g.own, slot.node.index, k);
    var x := FirstContent(s.blocks, slot, data);
    AppendForm(s, fd, data);
    RewriteBlock(s, g, fd, k, x, AppendedSlot(slot, |data|));
    var t := Write(s, fd, data).0;
    forall q | 0 <= q < sz + |data|
      ensures ByteAt(t.blocks, t.table[fd].node, q) == if sz <= q < sz + |data| then data[q - sz] else ByteAt(s.blocks, slot.node, q)
    {
      AppendByte(s, t, g, fd, data, q);
    }
  }

  /** At a block boundary there is no last block: the data goes to the block that the next, unused
      pointer happens to name, which the file does not own. */
  lemma AppendAtBoundary(s: State, g: Ghost, fd: nat, data: seq<byte>)
    requires CanAppendData(s, g, fd, data) && |data| <= BLOCKSIZE
    requires 0 < s.table[fd].node.size && s.table[fd].node.size % BLOCKSIZE == 0
    ensures var slot := s.table[fd];
            var b := slot.node.dblocks[slot.node.size / BLOCKSIZE];
            var t := Write(s, fd, data).0;
            && (0 <= b < |s.blocks| == |g.own| ==>
                  && t.blocks[b] == data + Zeros(BLOCKSIZE - |data|)
                  && (g.own[b].By? ==> g.own[b].i != slot.node.index || g.own[b].k != slot.node.size / BLOCKSIZE))
  {
    hide TailBlock, Disk;
    var slot := s.table[fd];
    OpenRegFacts(s, g, fd);
    TailOfEnd(s.blocks, slot.node);
    var b := slot.node.dblocks[slot.node.size / BLOCKSIZE];
    var x := FirstContent(s.blocks, slot, data);
    var s1 := WriteFirst(s, fd, data);
    assert WriteLoop(s1, fd, data, |data|, 1, slot.node.size) == s1;
    if 0 <= b < |s.blocks| {
      assert x == data + Zeros(BLOCKSIZE - |data|);
      assert Splice(s.blocks[b], 0, x) == x;
      NotOwnedBeyond(s, g, slot.node.index, slot.node.size / BLOCKSIZE, b);
    }
  }

  lemma NotOwnedBeyond(s: State, g: Ghost, i: nat, k: nat, b: nat)
    requires Inv(s, g) && i < |s.inodes| && SizeOk(s.inodes[i]) && k >= Owned(s.inodes[i]) && b < |g.own|
    ensures g.own[b] != By(i, k)
  {
    if g.own[b].By? {
      assert OwnerOk(s.inodes, g.role, g.own[b], b);
    }
  }

  /** When the data spills over by at most a block, the block counter has started again at the first
      block: the file now begins with the part of the data that should have followed its last block.
      This needs nothing of where the first part went; `Spilling` has every length. */
  lemma AppendSpills(s: State, g: Ghost, fd: nat, data: seq<byte>)
    requires CanAppendData(s, g, fd, data) && !RefusesWrite(s, s.table[fd], |data|)
    requires var fs := BLOCKSIZE - s.table[fd].node.size % BLOCKSIZE; fs < |data| <= fs + BLOCKSIZE
    ensures var fs := BLOCKSIZE - s.table[fd].node.size % BLOCKSIZE;
            var t := Write(s, fd, data).0;
            fd < |t.table| && forall k :: 0 <= k < |data| - fs ==> ByteAt(t.blocks, t.table[fd].node, k) == data[fs + k]
  {
    hide WriteFirst, WriteStep, TailBlock, FirstContent, Disk;
    var slot := s.table[fd];
    var fs := BLOCKSIZE - slot.node.size % BLOCKSIZE;
    OpenRegFacts(s, g, fd);
    assert OwnsAt(slot.node, g.own, slot.node.index, 0);
    HeadInRange(s, g);
    FirstAppend(s, fd, data);
    var s1 := WriteFirst(s, fd, data);
    FirstTurnAt(s1, fd, data, fs, slot.node.size);
    var s2 := WriteStep(s1, fd, data, fs, 1, slot.node.size);
    assert WriteLoop(s2, fd, data, |data|, 2, slot.node.size) == s2;
    assert WriteLoop(s1, fd, data, fs, 1, slot.node.size) == s2;
  }

  /** The first block of an append leaves pointers, free list and access as they are. */
  lemma FirstAppend(s: State, fd: nat, data: seq<byte>)
    requires fd < |s.table| && WithinDirect(s.table[fd], |data|) && s.table[fd].access == APPEND
    ensures var t := WriteFirst(s, fd, data);
            && t.sb == s.sb && |t.blocks| == |s.blocks| && t.table[fd].access == APPEND
            && t.table[fd].node.dblocks == s.table[fd].node.dblocks
  {
    hide TailBlock, FirstContent;
  }

  /** A turn of the loop for block 1. */
  lemma FirstTurnAt(s: State, fd: nat, data: seq<byte>, done: nat, oldSize: int)
    requires fd < |s.table| && done < |data| <= done + BLOCKSIZE
    requires 0 <= s.sb.freeBlock < |s.blocks| && 0 <= s.table[fd].node.dblocks[0] < |s.blocks|
    ensures var t := WriteStep(s, fd, data, done, 1, oldSize);
            && |t.table| == |s.table|
            && forall k :: 0 <= k < |data| - done ==> ByteAt(t.blocks, t.table[fd].node, k) == data[done + k]
  {
    var t := WriteStep(s, fd, data, done, 1, oldSize);
    var b := if s.table[fd].offset >= oldSize then s.sb.freeBlock else s.table[fd].node.dblocks[0];
    assert t.table[fd].node.dblocks[0] == b;
    assert t.blocks[b] == Splice(s.blocks[b], 0, data[done..]);
  }

  lemma HeadInRange(s: State, g: Ghost)
    requires Inv(s, g)
    ensures s.sb.freeBlock == -1 || 0 <= s.sb.freeBlock < |s.blocks|
  {
    if g.fb != [] {
      assert FreeAt(g.fb, s.blocks, g.own, |g.fb| - 1);
    }
  }
}
