/** Whether the reader finds a block where the writer has put it. */
module Install {
  import opened Bytes
  import opened BlockMap
  import opened Records
  import opened Operations

  /** Slot p caches the on-disk inode of its file, and n is a block number that the writer handles:
      direct, or single-indirect with its index block inside the inode. */
  predicate CanInstall(s: State, p: nat, n: nat) {
    && p < |s.table| && 1 <= n && (n > N_DBLOCKS ==> WriterIndex(n) + 1 < N_IBLOCKS)
    && 0 <= s.table[p].node.index < |s.inodes| && s.inodes[s.table[p].node.index] == s.table[p].node
  }

  lemma MappedDirect(blocks: seq<Block>, node: Inode, b: nat)
    requires b < N_DBLOCKS
    ensures Mapped(blocks, node, b) == node.dblocks[b]
  {
    PathInRangeExactly(b);
  }

  lemma MappedSingle(blocks: seq<Block>, node: Inode, b: nat)
    requires SINGLE_START <= b < DOUBLE_START
    ensures Mapped(blocks, node, b)
              == Word(GetBlock(blocks, node.iblocks[(b - SINGLE_START) / FANOUT]), (b - SINGLE_START) % FANOUT)
  {
    PathInRangeExactly(b);
  }

  /** Only a direct pointer differs: every other block of the file maps as before. */
  lemma DirectFrame(blocks: seq<Block>, node: Inode, k: nat, v: int32, b: nat)
    requires k < N_DBLOCKS && b < TRIPLE_BROKEN && b != k
    ensures Mapped(blocks, node.(dblocks := node.dblocks[k := v]), b) == Mapped(blocks, node, b)
  {
    PathInRangeExactly(b);
  }

  /** Installing one of the first ten blocks: the reader finds it, every other block of the file
      maps as before, and no other inode and no block changes. */
  lemma InstallDirect(s: State, p: nat, n: nat)
    requires CanInstall(s, p, n) && n <= N_DBLOCKS
    ensures var t := AllocateNext(s, p, n);
            var i, node := s.table[p].node.index, t.table[p].node;
            && Mapped(t.blocks, node, n - 1) == s.sb.freeBlock
            && (forall b {:trigger Mapped(t.blocks, node, b)} :: 0 <= b < TRIPLE_BROKEN && b != n - 1 ==>
                  Mapped(t.blocks, node, b) == Mapped(s.blocks, s.table[p].node, b))
            && t.blocks == s.blocks && t.inodes == s.inodes[i := node]
            && t.table == s.table[p := s.table[p].(node := node)]
  {
    hide Mapped;
    var t := AllocateNext(s, p, n);
    var node: Inode := s.table[p].node.(dblocks := s.table[p].node.dblocks[n - 1 := s.sb.freeBlock]);
    assert t.table[p].node == node && t.blocks == s.blocks;
    MappedDirect(s.blocks, node, n - 1);
    forall b | 0 <= b < TRIPLE_BROKEN && b != n - 1 ensures Mapped(s.blocks, node, b) == Mapped(s.blocks, s.table[p].node, b) {
      DirectFrame(s.blocks, s.table[p].node, n - 1, s.sb.freeBlock, b);
    }
  }

  /** The writer and the reader of a single-indirect block look at different ints. */
  lemma IndirectDigits(n: nat)
    requires n > N_DBLOCKS
    ensures (n - 1 - SINGLE_START) % FANOUT != WriterSlot(n)
    ensures WriterSlot(n) > 0 ==> (n - 1 - SINGLE_START) / FANOUT == WriterIndex(n) && (n - 1 - SINGLE_START) % FANOUT == WriterSlot(n) - 1
    ensures WriterSlot(n) == 0 ==> (n - 1 - SINGLE_START) / FANOUT == WriterIndex(n) - 1
    ensures WriterSlot(n) < FANOUT && (n - 1 - SINGLE_START) % FANOUT < FANOUT
    ensures WriterIndex(n) < N_IBLOCKS ==> n - 1 < DOUBLE_START && (n - 1 - SINGLE_START) / FANOUT < N_IBLOCKS
  {
  }

  /** The blocks after an int of index block ib has been written, if there is such a block. */
  function IndexWritten(blocks: seq<Block>, ib: int, i: nat, v: int32): seq<Block>
    requires i < FANOUT
  {
    if 0 <= ib < |blocks| then blocks[ib := Splice(blocks[ib], 4 * i, WordBytes(v))] else blocks
  }

  /** Where the writer records block number b as the n-th block of a file, past the tenth: as int
      (n - 10) % 128 of the index block that pointer (n - 10) / 128 + 1 names; and when that is int 0, in
      the pointer before, too. */
  lemma InstallIndirectForm(s: State, p: nat, n: nat)
    requires CanInstall(s, p, n) && n > 10
    ensures var t, was, b := AllocateNext(s, p, n), s.table[p].node, s.sb.freeBlock;
            var x, w := (n - 10) / 128, (n - 10) % 128;
            && x + 1 < |was.iblocks| && |t.table| == |s.table|
            && t.table[p].node == (if w == 0 then was.(iblocks := was.iblocks[x := b]) else was)
            && t.blocks == IndexWritten(s.blocks, was.iblocks[x + 1], w, b)
  {
    var node := WithIndexBlock(s.table[p].node, n, s.sb.freeBlock);
    var ib := node.iblocks[WriterIndex(n) + 1];
    if 0 <= ib < |s.blocks| {
      var y: Block := Splice(s.blocks[ib], 4 * WriterSlot(n), WordBytes(s.sb.freeBlock));
      assert Splice(s.blocks[ib], 0, y) == y;
    }
  }

  /** Past the tenth block, what the reader finds is what it found before. */
  lemma InstallIndirectMissed(s: State, p: nat, n: nat)
    requires CanInstall(s, p, n) && n > N_DBLOCKS
    ensures var t := AllocateNext(s, p, n);
            Mapped(t.blocks, t.table[p].node, n - 1) == Mapped(s.blocks, s.table[p].node, n - 1)
  {
    hide Mapped, AllocateNext, IndexWritten, Word, GetBlock;
    IndirectDigits(n);
    InstallIndirectForm(s, p, n);
    var node, b := s.table[p].node, s.sb.freeBlock;
    var node' := WithIndexBlock(node, n, b);
    var x, w := (n - 1 - SINGLE_START) / FANOUT, (n - 1 - SINGLE_START) % FANOUT;
    var ib := node'.iblocks[WriterIndex(n) + 1];
    assert node'.iblocks[x] == node.iblocks[x];
    MappedSingle(s.blocks, node, n - 1);
    MappedSingle(IndexWritten(s.blocks, ib, WriterSlot(n), b), node', n - 1);
    IndexBlocksFrame(s.blocks, ib, WriterSlot(n), b, node.iblocks[x], w);
  }

  lemma IndexBlocksFrame(blocks: seq<Block>, ib: int, i: nat, v: int32, c: int, w: nat)
    requires i < FANOUT && w < FANOUT && i != w
    ensures Word(GetBlock(IndexWritten(blocks, ib, i, v), c), w) == Word(GetBlock(blocks, c), w)
  {
    if 0 <= ib < |blocks| && c == ib {
      IndexBlockFrame(blocks[ib], i, v, w);
    }
  }

  lemma IndexBlockFrame(block: Block, i: nat, v: int32, w: nat)
    requires i < FANOUT && w < FANOUT && i != w
    ensures Word(Splice(block, 4 * i, WordBytes(v)), w) == Word(block, w)
  {
    WordAfterSplice(block, 4 * i, v, 4 * w);
  }

  /** The reader finds the new block exactly when it is one of the first ten, or was by chance
      already recorded where the reader looks. */
  lemma InstallAgreesExactly(s: State, p: nat, n: nat)
    requires CanInstall(s, p, n)
    ensures var t := AllocateNext(s, p, n);
            Mapped(t.blocks, t.table[p].node, n - 1) == s.sb.freeBlock <==>
            n <= N_DBLOCKS || Mapped(s.blocks, s.table[p].node, n - 1) == s.sb.freeBlock
  {
    hide Mapped, AllocateNext;
    if n <= N_DBLOCKS {
      InstallDirect(s, p, n);
    } else {
      InstallIndirectMissed(s, p, n);
    }
  }

  /** When overwriting, the writer's lookup and the reader agree for every direct block and for
      every single-indirect one whose number from 1 is not ten more than a multiple of 128. */
  lemma LookupAgrees(s: State, node: Inode, n: nat)
    requires 1 <= n && (n > N_DBLOCKS ==> WriterIndex(n) < N_IBLOCKS && WriterSlot(n) > 0)
    ensures LookupNext(s, node, n) == Mapped(s.blocks, node, n - 1)
  {
    hide Mapped;
    if n <= N_DBLOCKS {
      MappedDirect(s.blocks, node, n - 1);
    } else {
      IndirectDigits(n);
      MappedSingle(s.blocks, node, n - 1);
    }
  }

  // ---- the damage ----

  /** A file that never had an index block has zeros there, so its eleventh block is recorded in
      data block 0, the first block of the root directory: over the name of its first entry. */
  lemma EleventhBlockHitsRoot(s: State, p: nat)
    requires CanInstall(s, p, 11) && s.table[p].node.iblocks[1] == 0 && |s.blocks| > 0
    ensures var t := AllocateNext(s, p, 11);
            && t.blocks == s.blocks[0 := Splice(s.blocks[0], 4, WordBytes(s.sb.freeBlock))]
            && EntryIn(t.blocks[0], 0).inode == EntryIn(s.blocks[0], 0).inode
            && (s.sb.freeBlock >= 0 ==>
                  (EntryIn(t.blocks[0], 0).name == DOT <==> s.sb.freeBlock % 0x1_0000 == 46))
  {
    var t := AllocateNext(s, p, 11);
    var b := s.sb.freeBlock;
    var y: Block := Splice(s.blocks[0], 4, WordBytes(b));
    assert Splice(s.blocks[0], 0, y) == y;
    assert t.blocks == s.blocks[0 := y];
    var q := y[0..ENTRYSIZE];
    assert q[4..][..4] == y[4..8] == WordBytes(b);
    WordOfSlice(y, 0, ENTRYSIZE, 0);
    WordOfSlice(s.blocks[0], 0, ENTRYSIZE, 0);
    WordAfterSplice(s.blocks[0], 4, b, 0);
    if b >= 0 {
      DotBytes(q[4..], b);
    }
  }

  /** Which block numbers, stored as an int, read as the name ".". */
  lemma DotBytes(q: seq<byte>, b: int32)
    requires |q| >= 4 && b >= 0 && q[..4] == WordBytes(b)
    ensures CString(q) == DOT <==> b % 0x1_0000 == 46
  {
    assert q[0] == q[..4][0] == b % 0x100 && q[1] == q[..4][1] == b / 0x100 % 0x100;
    assert b % 0x1_0000 == 0x100 * (b / 0x100 % 0x100) + b % 0x100;
    if q[0] == 46 && q[1] == 0 {
      NulAtIs(q, 0, 1);
      assert q[..1] == [q[0]];
    }
    if CString(q) == DOT {
      assert q[..1] == DOT;
      assert NulAt(q, 0) == NulAt(q, 1) == 1;
    }
  }
}
