/** `f_write` as a whole: what every call does to the file, and exactly when that is to put the
    data where it belongs. */
module WriteWhole {
  import opened Bytes
  import opened BlockMap
  import opened Records
  import opened Operations
  import opened Invariant
  import Roles
  import opened Transfer
  import opened WriteSteps

  /** Slot fd holds a regular file open for WRITE or READANDWRITE, the data is not empty and ends
      within the direct blocks, and there are free blocks enough. */
  ghost predicate CanWrite(s: State, g: Ghost, fd: nat, data: seq<byte>) {
    && OpenReg(s, g, fd)
    && (s.table[fd].access == WRITE || s.table[fd].access == READANDWRITE)
    && data != [] && WithinDirect(s.table[fd], |data|) && s.table[fd].offset <= s.table[fd].node.size
    && BlocksTaken(s.table[fd], |data|) <= |g.fb|
  }

  /** The write goes on at the end of a file whose last block has room: that block is replaced. */
  predicate ReplacesBlock(slot: Slot) {
    slot.offset == slot.node.size && (slot.node.size == 0 || slot.node.size % BLOCKSIZE != 0)
  }

  /** The number of blocks the call takes off the free list. */
  function BlocksTaken(slot: Slot, length: nat): int
    requires WithinDirect(slot, length)
  {
    BlocksFor(Max(slot.node.size, slot.offset + length)) - Owned(slot.node) + (if ReplacesBlock(slot) then 1 else 0)
  }

  /** The blocks numbered from 0 around the offset. */
  lemma FirstBlockNumbers(sz: nat, off: nat, a: nat)
    requires off <= sz && 0 < a <= BLOCKSIZE - off % BLOCKSIZE
    ensures var k := off / BLOCKSIZE;
            var m := if sz == 0 then 1 else BlocksFor(sz);
            var m' := BlocksFor(Max(sz, off + a));
            && (off == sz && sz > 0 && sz % BLOCKSIZE == 0 ==> k == m && m' == m + 1)
            && (!(off == sz && sz > 0 && sz % BLOCKSIZE == 0) ==> k < m && m' == m)
            && k < m'
  {
    var k, o := off / BLOCKSIZE, off % BLOCKSIZE;
    assert off == BLOCKSIZE * k + o;
    BlocksOfAligned(k + 1, o + a);
    if off == sz {
      BlocksOfAligned(k + 1, o);
    } else {
      BlocksMonotone(off + 1, sz);
      BlocksOfAligned(k + 1, o + 1);
      BlocksMonotone(off + a, Max(sz, off + a));
      if sz < off + a {
        BlocksMonotone(sz, off + a);
      }
    }
  }

  /** The slot after the first block. */
  function FirstSlot(s: State, fd: nat, length: nat): Slot
    requires fd < |s.table| && WithinDirect(s.table[fd], length)
  {
    var slot := s.table[fd];
    var a := FirstPart(slot, length);
    var k := slot.offset / BLOCKSIZE;
    var dblocks := if slot.offset >= slot.node.size then slot.node.dblocks[k := s.sb.freeBlock] else slot.node.dblocks;
    slot.(offset := slot.offset + a, node := slot.node.(size := slot.node.size + a, dblocks := dblocks))
  }

  lemma FirstForm(s: State, fd: nat, data: seq<byte>)
    requires fd < |s.table| && WithinDirect(s.table[fd], |data|) && s.table[fd].access != APPEND && s.dsb == s.sb
    requires 0 <= s.table[fd].node.index < |s.inodes|
    requires 0 <= FirstSlot(s, fd, |data|).node.dblocks[s.table[fd].offset / BLOCKSIZE] < |s.blocks|
    ensures WriteFirst(s, fd, data)
              == BlockPut(s, fd, s.table[fd].offset / BLOCKSIZE, FirstContent(s.blocks, s.table[fd], data),
                          FirstSlot(s, fd, |data|), s.table[fd].offset >= s.table[fd].node.size)
  {
    hide TailBlock;
    var slot := FirstSlot(s, fd, |data|);
    var t := WriteFirst(s, fd, data);
    var x := FirstContent(s.blocks, s.table[fd], data);
    var u := BlockPut(s, fd, s.table[fd].offset / BLOCKSIZE, x, slot, s.table[fd].offset >= s.table[fd].node.size);
    assert Splice(s.blocks[slot.node.dblocks[s.table[fd].offset / BLOCKSIZE]], 0, x) == x;
    assert t.table == u.table && t.inodes == u.inodes && t.blocks == u.blocks;
  }

  lemma ShadowOfOwnSize(s: State, g: Ghost, fd: nat)
    requires OpenReg(s, g, fd)
    ensures Writing(s, g, fd, s.table[fd].node.size)
  {
    hide Disk, FreeInodes, Tree;
    OpenRegFacts(s, g, fd);
    assert Shadow(s, fd, s.table[fd].node.size) == s by {
      assert s.table[fd].node.(size := s.table[fd].node.size) == s.table[fd].node;
      assert s.table[fd := s.table[fd]] == s.table;
      assert s.inodes[s.table[fd].node.index := s.inodes[s.table[fd].node.index]] == s.inodes;
    }
  }

  /** The block that a first write replaces, or -1: the one `f_open` had given, or the partly
      filled last block when writing goes on at the end of the file. */
  function ReplacedBlock(slot: Slot): int
    requires SizeOk(slot.node) && 0 <= slot.offset < DIRECT_LIMIT
  {
    if ReplacesBlock(slot) then slot.node.dblocks[slot.offset / BLOCKSIZE] else -1
  }

  lemma FirstIsNext(s: State, fd: nat, length: nat)
    requires fd < |s.table| && WithinDirect(s.table[fd], length)
    ensures s.table[fd].offset / BLOCKSIZE < N_DBLOCKS
    ensures NextSlot(s, fd, s.table[fd].offset / BLOCKSIZE, FirstSlot(s, fd, length), s.table[fd].offset >= s.table[fd].node.size)
  {
  }

  /** The number of blocks before and after the first block is written. */
  lemma FirstCounts(s: State, g: Ghost, fd: nat, data: seq<byte>)
    requires CanWrite(s, g, fd, data)
    ensures var slot, slot' := s.table[fd], FirstSlot(s, fd, |data|);
            var z, z', k := slot.node.size, Max(slot.node.size, slot.offset + FirstPart(slot, |data|)), slot.offset / BLOCKSIZE;
            var grows := slot.offset >= slot.node.size;
            var m, m' := Owned(slot.node.(size := z)), Owned(slot'.node.(size := z'));
            && SizeOk(slot.node.(size := z)) && SizeOk(slot'.node.(size := z')) && 0 <= slot'.offset <= z' && (grows ==> g.fb != [])
            && (if k < m then m' == m else grows && k == m && m' == m + 1)
            && ReplacedBlock(slot) == (if grows && k < m then slot.node.dblocks[k] else -1)
  {
    hide Disk, FreeInodes, Tree, TailBlock, OwnsAll, Link, FileSizeOk;
    var slot := s.table[fd];
    var a := FirstPart(slot, |data|);
    OpenRegFacts(s, g, fd);
    FirstBlockNumbers(slot.node.size, slot.offset, a);
    BlocksMonotone(slot.offset + a, slot.offset + |data|);
  }

  /** The first block keeps what the data justifies. */
  lemma FirstRoles(s: State, g: Ghost, fd: nat, data: seq<byte>) returns (h: Ghost)
    requires CanWrite(s, g, fd, data)
    ensures var slot := s.table[fd];
            var a := FirstPart(slot, |data|);
            var t := WriteFirst(s, fd, data);
            var slot' := FirstSlot(s, fd, |data|);
            var k := slot.offset / BLOCKSIZE;
            && |t.table| == |s.table| && t.table[fd] == slot'
            && Writing(t, h, fd, Max(slot.node.size, slot.offset + a))
            && RolesMove(g, h, slot.node.index, slot.offset == slot.node.size, ReplacedBlock(slot))
            && 0 <= slot'.node.dblocks[k] < |s.blocks| == |g.own|
            && (g.own[slot'.node.dblocks[k]].Free? || g.own[slot'.node.dblocks[k]] == By(slot.node.index, k))
            && BlockWritten(s, t, fd, k, FirstContent(s.blocks, slot, data))
  {
    hide Disk, FreeInodes, Tree, TailBlock, WriteFirst, FirstContent, OwnsAll, Link, FileSizeOk, NextSlot, Owned, ReplacedBlock;
    var slot := s.table[fd];
    var a := FirstPart(slot, |data|);
    var k := slot.offset / BLOCKSIZE;
    ShadowOfOwnSize(s, g, fd);
    OpenRegFacts(s, g, fd);
    FirstCounts(s, g, fd, data);
    var grows := slot.offset >= slot.node.size;
    var slot' := FirstSlot(s, fd, |data|);
    FirstIsNext(s, fd, |data|);
    h := PutBlock(s, g, fd, slot.node.size, k, FirstContent(s.blocks, slot, data), slot', Max(slot.node.size, slot.offset + a), grows);
    FirstForm(s, fd, data);
  }

  /** Byte q of the file after a write: the data where it belongs, but before it, in the block it
      starts in, the bytes of the tail block, and after it, in that block, zeros. */
  function ResultByte(s: State, slot: Slot, data: seq<byte>, q: nat): byte
    requires WithinDirect(slot, |data|) && q < DIRECT_LIMIT
  {
    var off := slot.offset;
    if off <= q < off + |data| then data[q - off]
    else if q / BLOCKSIZE != off / BLOCKSIZE then ByteAt(s.blocks, slot.node, q)
    else if q < off then GetBlock(s.blocks, TailBlock(s.blocks, slot.node))[q % BLOCKSIZE]
    else 0
  }

  /** The part of the data that goes to the first block, and the rest. */
  lemma FirstContentByte(blocks: seq<Block>, slot: Slot, data: seq<byte>, j: nat)
    requires WithinDirect(slot, |data|) && slot.access != APPEND && j < BLOCKSIZE
    ensures var o, a := slot.offset % BLOCKSIZE, FirstPart(slot, |data|);
            FirstContent(blocks, slot, data)[j]
              == if j < o then GetBlock(blocks, TailBlock(blocks, slot.node))[j] else if j < o + a then data[j - o] else 0
  {
    hide TailBlock;
  }

  lemma FirstByteAt(s: State, t: State, g: Ghost, fd: nat, data: seq<byte>, q: nat)
    requires CanWrite(s, g, fd, data) && fd < |t.table| && 0 <= s.table[fd].node.index
    requires var slot, k := s.table[fd], s.table[fd].offset / BLOCKSIZE;
             && 0 <= t.table[fd].node.dblocks[k] < |s.blocks| == |g.own|
             && (g.own[t.table[fd].node.dblocks[k]].Free? || g.own[t.table[fd].node.dblocks[k]] == By(slot.node.index, k))
             && BlockWritten(s, t, fd, k, FirstContent(s.blocks, slot, data))
    requires q < Max(s.table[fd].node.size, s.table[fd].offset + FirstPart(s.table[fd], |data|)) && q < DIRECT_LIMIT
    ensures ByteAt(t.blocks, t.table[fd].node, q)
              == ResultByte(s, s.table[fd], data[..FirstPart(s.table[fd], |data|)], q)
  {
    hide Inv, TailBlock, FirstContent;
    var slot := s.table[fd];
    var off, a := slot.offset, FirstPart(slot, |data|);
    var k := off / BLOCKSIZE;
    ShadowOfOwnSize(s, g, fd);
    InBlock(q, k + 1);
    InBlock(off, k + 1);
    if q < slot.node.size {
      BelowOwned(q, slot.node);
    }
    assert slot.node.(size := slot.node.size) == slot.node;
    BytesAfter(s, t, g, fd, slot.node.size, k, FirstContent(s.blocks, slot, data), q);
    FirstContentByte(s.blocks, slot, data, q % BLOCKSIZE);
  }

  /** From s to t the whole call has done what it does, whatever that is worth. */
  ghost predicate Written(s: State, g: Ghost, fd: nat, data: seq<byte>, t: State, h: Ghost) {
    && fd < |s.table| == |t.table| && WithinDirect(s.table[fd], |data|)
    && var slot := s.table[fd];
       var i, e := slot.node.index, slot.offset + |data|;
       && t.table[fd].offset == e && t.table[fd].node.index == i && t.table[fd].access == slot.access
       && t.table[fd].node.size == Max(slot.node.size + FirstPart(slot, |data|), e)
       && Max(slot.node.size, e) <= DIRECT_LIMIT
       && OthersUntouched(s, t, g, i)
       && h == g.(own := h.own, fb := h.fb) && |h.own| == |g.own|
       && (forall c :: 0 <= c < |g.own| && Taken(g.own[c]) && g.own[c].i != i ==> h.own[c] == g.own[c])
       && (forall c :: 0 <= c < |g.own| ==> (h.own[c].Lost? <==> g.own[c].Lost? || c == ReplacedBlock(slot)))
       && (forall q {:trigger ByteAt(t.blocks, t.table[fd].node, q)} :: 0 <= q < Max(slot.node.size, e) ==>
             ByteAt(t.blocks, t.table[fd].node, q) == ResultByte(s, slot, data, q))
  }

  lemma FirstOthers(s: State, t: State, g: Ghost, h: Ghost, fd: nat, k: nat, x: Block, grows: bool, was: int)
    requires fd < |s.table| && fd < |t.table| && k < N_DBLOCKS && BlockWritten(s, t, fd, k, x) && |g.own| == |s.blocks|
    requires var b := t.table[fd].node.dblocks[k]; 0 <= b < |g.own| && (Taken(g.own[b]) ==> g.own[b].i == s.table[fd].node.index)
    ensures OthersUntouched(s, t, g, s.table[fd].node.index)
  {
  }

  /** Data that ends in the first block. */
  lemma WriteInOneBlock(s: State, g: Ghost, fd: nat, data: seq<byte>) returns (h: Ghost)
    requires CanWrite(s, g, fd, data) && FirstPart(s.table[fd], |data|) == |data|
    ensures var t := WriteFirst(s, fd, data);
            Written(s, g, fd, data, t, h) && Writing(t, h, fd, Max(s.table[fd].node.size, s.table[fd].offset + |data|))
  {
    hide Inv, WriteFirst, FirstContent, TailBlock, ResultByte;
    h := FirstRoles(s, g, fd, data);
    var slot := s.table[fd];
    var t := WriteFirst(s, fd, data);
    var k := slot.offset / BLOCKSIZE;
    FirstOthers(s, t, g, h, fd, k, FirstContent(s.blocks, slot, data), slot.offset == slot.node.size, ReplacedBlock(slot));
    forall q | 0 <= q < Max(slot.node.size, slot.offset + |data|)
      ensures ByteAt(t.blocks, t.table[fd].node, q) == ResultByte(s, slot, data, q)
    {
      OpenRegFacts(s, g, fd);
      FirstByteAt(s, t, g, fd, data, q);
      assert data[..|data|] == data;
    }
  }

  /** After the first block, the loop has the rest to write. */
  lemma LoopReady(s: State, g: Ghost, fd: nat, data: seq<byte>, t: State, h: Ghost)
    requires CanWrite(s, g, fd, data) && FirstPart(s.table[fd], |data|) < |data|
    requires fd < |t.table| && t.table[fd] == FirstSlot(s, fd, |data|)
    requires Writing(t, h, fd, Max(s.table[fd].node.size, s.table[fd].offset + FirstPart(s.table[fd], |data|)))
    requires |h.fb| == (if s.table[fd].offset == s.table[fd].node.size then |g.fb| - 1 else |g.fb|)
    ensures var slot := s.table[fd];
            var a := FirstPart(slot, |data|);
            && AtBlock(t, h, fd, LoopStart(slot), slot.node.size, |data| - a)
            && BLOCKSIZE * (LoopStart(slot) - 1) + |data| - a <= DIRECT_LIMIT
  {
    hide Inv;
    var slot := s.table[fd];
    var sz, off, a := slot.node.size, slot.offset, FirstPart(slot, |data|);
    OpenRegFacts(s, g, fd);
    FirstBlockNumbers(sz, off, a);
    assert off == BLOCKSIZE * (off / BLOCKSIZE) + off % BLOCKSIZE;
    BlocksMonotone(sz, Max(sz, off + |data|));
  }

  /** Data that goes on into further blocks. */
  lemma WriteOverBlocks(s: State, g: Ghost, fd: nat, data: seq<byte>, t: State) returns (h: Ghost)
    requires CanWrite(s, g, fd, data) && FirstPart(s.table[fd], |data|) < |data|
    requires var slot := s.table[fd];
             t == WriteLoop(WriteFirst(s, fd, data), fd, data, FirstPart(slot, |data|), LoopStart(slot), slot.node.size)
    ensures Written(s, g, fd, data, t, h) && Writing(t, h, fd, Max(s.table[fd].node.size, s.table[fd].offset + |data|))
  {
    hide Inv, WriteFirst, WriteLoop, FirstContent, TailBlock, ResultByte, BlocksFor;
    var slot := s.table[fd];
    var a, e := FirstPart(slot, |data|), slot.offset + |data|;
    var h1 := FirstRoles(s, g, fd, data);
    var s1 := WriteFirst(s, fd, data);
    LoopReady(s, g, fd, data, s1, h1);
    h := LoopKeeps(s1, h1, fd, data, a, LoopStart(slot), slot.node.size, t, e);
    FirstOthers(s, s1, g, h1, fd, slot.offset / BLOCKSIZE, FirstContent(s.blocks, slot, data), slot.offset == slot.node.size, ReplacedBlock(slot));
    forall q | 0 <= q < Max(slot.node.size, e) ensures ByteAt(t.blocks, t.table[fd].node, q) == ResultByte(s, slot, data, q) {
      OverBlocksByte(s, g, fd, data, s1, t, q);
    }
  }

  lemma OverBlocksByte(s: State, g: Ghost, fd: nat, data: seq<byte>, s1: State, t: State, q: nat)
    requires CanWrite(s, g, fd, data) && FirstPart(s.table[fd], |data|) < |data| && 0 <= s.table[fd].node.index
    requires fd < |s1.table| && fd < |t.table|
    requires var slot, k := s.table[fd], s.table[fd].offset / BLOCKSIZE;
             && 0 <= s1.table[fd].node.dblocks[k] < |s.blocks| == |g.own|
             && (g.own[s1.table[fd].node.dblocks[k]].Free? || g.own[s1.table[fd].node.dblocks[k]] == By(slot.node.index, k))
             && BlockWritten(s, s1, fd, k, FirstContent(s.blocks, slot, data))
    requires var slot, a := s.table[fd], FirstPart(s.table[fd], |data|);
             var e := slot.offset + |data|;
             && Max(slot.node.size, e) <= DIRECT_LIMIT
             && BytesWritten(s1, t, fd, slot.offset + a, data[a..], Max(slot.node.size, e))
    requires q < Max(s.table[fd].node.size, s.table[fd].offset + |data|)
    ensures ByteAt(t.blocks, t.table[fd].node, q) == ResultByte(s, s.table[fd], data, q)
  {
    hide Inv, FirstContent, TailBlock;
    var slot, a := s.table[fd], FirstPart(s.table[fd], |data|);
    var off := slot.offset;
    InBlock(q, off / BLOCKSIZE + 1);
    InBlock(off, off / BLOCKSIZE + 1);
    if q < Max(slot.node.size, off + a) {
      FirstByteAt(s, s1, g, fd, data, q);
    }
  }

  // ---- the call ----

  /** The early failure of lines 465-471. */
  predicate RefusesWrite(s: State, slot: Slot, length: nat) {
    BLOCKSIZE - Place(slot) % BLOCKSIZE < length && s.sb.freeBlock == -1
  }

  lemma FinalOffset(s: State, fd: nat, e: int)
    requires fd < |s.table| && s.table[fd].offset == e
    ensures SetSlot(s, fd, s.table[fd].(offset := e)) == s
  {
    assert s.table[fd].(offset := e) == s.table[fd];
    assert s.table[fd := s.table[fd]] == s.table;
  }

  /** What `f_write` does in WRITE or READANDWRITE mode. */
  lemma WriteDoes(s: State, g: Ghost, fd: nat, data: seq<byte>) returns (h: Ghost)
    requires CanWrite(s, g, fd, data) && !RefusesWrite(s, s.table[fd], |data|)
    ensures var (t, r) := Write(s, fd, data);
            && r == |data| && Written(s, g, fd, data, t, h)
            && Writing(t, h, fd, Max(s.table[fd].node.size, s.table[fd].offset + |data|))
  {
    hide Inv, WriteFirst, ResultByte, WriteStep;
    var slot := s.table[fd];
    var a := FirstPart(slot, |data|);
    if a == |data| {
      h := WriteInOneBlock(s, g, fd, data);
      FinalOffset(WriteFirst(s, fd, data), fd, slot.offset + |data|);
    } else {
      var t := WriteLoop(WriteFirst(s, fd, data), fd, data, a, LoopStart(slot), slot.node.size);
      h := WriteOverBlocks(s, g, fd, data, t);
      FinalOffset(t, fd, slot.offset + |data|);
    }
  }

  /** The specification: the data at position `at`, everything else as it was, the size the larger
      of the old one and the end of the data, the offset at that end. */
  ghost predicate Refines(s: State, t: State, fd: nat, at: nat, data: seq<byte>)
    requires fd < |s.table| && fd < |t.table| && Max(s.table[fd].node.size, at + |data|) <= DIRECT_LIMIT
  {
    && t.table[fd].node.size == Max(s.table[fd].node.size, at + |data|)
    && t.table[fd].offset == at + |data|
    && BytesWritten(s, t, fd, at, data, Max(s.table[fd].node.size, at + |data|))
  }

  /** The tail block begins with the bytes that precede the offset in its own block. */
  predicate PrefixSame(s: State, slot: Slot)
    requires SizeOk(slot.node) && 0 <= slot.offset < DIRECT_LIMIT
  {
    forall j :: 0 <= j < slot.offset % BLOCKSIZE ==>
      GetBlock(s.blocks, TailBlock(s.blocks, slot.node))[j] == GetBlock(s.blocks, slot.node.dblocks[slot.offset / BLOCKSIZE])[j]
  }

  /** When `f_write` puts the data where it belongs: at the end of the file; or over existing data,
      if it reaches past the old end by at least what the first block takes, and the prefix of that
      block is also that of the tail block. */
  predicate WriteSound(s: State, slot: Slot, length: nat)
    requires SizeOk(slot.node) && 0 <= slot.offset < DIRECT_LIMIT
  {
    || slot.offset == slot.node.size
    || (slot.node.size + (BLOCKSIZE - slot.offset % BLOCKSIZE) <= slot.offset + length && PrefixSame(s, slot))
  }

  lemma TailOfEnd(blocks: seq<Block>, node: Inode)
    requires 0 <= node.size < DIRECT_LIMIT
    ensures TailBlock(blocks, node) == node.dblocks[node.size / BLOCKSIZE]
  {
    PathInRangeExactly(node.size / BLOCKSIZE);
  }

  /** The byte before the offset, in the block of the offset. */
  lemma PrefixByte(s: State, slot: Slot, j: nat)
    requires SizeOk(slot.node) && 0 <= slot.offset < DIRECT_LIMIT && j < slot.offset % BLOCKSIZE
    ensures var q := BLOCKSIZE * (slot.offset / BLOCKSIZE) + j;
            && q < slot.offset && q / BLOCKSIZE == slot.offset / BLOCKSIZE && q % BLOCKSIZE == j
            && ByteAt(s.blocks, slot.node, q) == GetBlock(s.blocks, slot.node.dblocks[slot.offset / BLOCKSIZE])[j]
  {
    BlockDigits(slot.offset / BLOCKSIZE, j);
  }

  lemma SoundImpliesRefines(s: State, g: Ghost, fd: nat, data: seq<byte>, t: State, h: Ghost)
    requires CanWrite(s, g, fd, data) && Written(s, g, fd, data, t, h) && WriteSound(s, s.table[fd], |data|)
    ensures Refines(s, t, fd, s.table[fd].offset, data)
  {
    hide Inv, TailBlock;
    var slot := s.table[fd];
    var off, e, sz := slot.offset, slot.offset + |data|, slot.node.size;
    if off == sz {
      TailOfEnd(s.blocks, slot.node);
    }
    forall q | 0 <= q < Max(sz, e)
      ensures ByteAt(t.blocks, t.table[fd].node, q) == if off <= q < e then data[q - off] else ByteAt(s.blocks, slot.node, q)
    {
      assert ByteAt(t.blocks, t.table[fd].node, q) == ResultByte(s, slot, data, q);
      InBlock(q, off / BLOCKSIZE + 1);
      InBlock(off, off / BLOCKSIZE + 1);
    }
  }

  lemma RefinesImpliesSound(s: State, g: Ghost, fd: nat, data: seq<byte>, t: State, h: Ghost)
    requires CanWrite(s, g, fd, data) && Written(s, g, fd, data, t, h)
    requires Refines(s, t, fd, s.table[fd].offset, data)
    ensures WriteSound(s, s.table[fd], |data|)
  {
    hide Inv, TailBlock;
    var slot := s.table[fd];
    var off, e := slot.offset, slot.offset + |data|;
    if off < slot.node.size {
      forall j | 0 <= j < off % BLOCKSIZE
        ensures GetBlock(s.blocks, TailBlock(s.blocks, slot.node))[j] == GetBlock(s.blocks, slot.node.dblocks[off / BLOCKSIZE])[j]
      {
        PrefixByte(s, slot, j);
        var q := BLOCKSIZE * (off / BLOCKSIZE) + j;
        assert ByteAt(t.blocks, t.table[fd].node, q) == ResultByte(s, slot, data, q);
      }
    }
  }

  /** `f_write` in WRITE or READANDWRITE mode refines the byte-string specification exactly when
      the write is sound in the sense above. */
  lemma WriteExactly(s: State, g: Ghost, fd: nat, data: seq<byte>)
    requires CanWrite(s, g, fd, data) && !RefusesWrite(s, s.table[fd], |data|)
    ensures var (t, r) := Write(s, fd, data);
            && fd < |t.table| && Max(s.table[fd].node.size, s.table[fd].offset + |data|) <= DIRECT_LIMIT && r == |data|
            && (Refines(s, t, fd, s.table[fd].offset, data) <==> WriteSound(s, s.table[fd], |data|))
  {
    hide Inv, Write, ResultByte, TailBlock;
    var h := WriteDoes(s, g, fd, data);
    var (t, r) := Write(s, fd, data);
    if WriteSound(s, s.table[fd], |data|) {
      SoundImpliesRefines(s, g, fd, data, t, h);
    }
    if Refines(s, t, fd, s.table[fd].offset, data) {
      RefinesImpliesSound(s, g, fd, data, t, h);
    }
  }

  /** In terms of whole contents: c becomes c[..p] + data + c[p + |data|..]. */
  lemma RefinedContents(s: State, t: State, fd: nat, at: nat, data: seq<byte>)
    requires fd < |s.table| && fd < |t.table| && SizeOk(s.table[fd].node) && SizeOk(t.table[fd].node)
    requires at <= s.table[fd].node.size && at + |data| <= DIRECT_LIMIT && Refines(s, t, fd, at, data)
    ensures var c := FileBytes(s.blocks, s.table[fd].node);
            FileBytes(t.blocks, t.table[fd].node) == c[..at] + data + (if at + |data| < |c| then c[at + |data|..] else [])
  {
    var c, d := FileBytes(s.blocks, s.table[fd].node), FileBytes(t.blocks, t.table[fd].node);
    var r := c[..at] + data + (if at + |data| < |c| then c[at + |data|..] else []);
    forall q | 0 <= q < |d| ensures d[q] == r[q] {
      assert d[q] == ByteAt(t.blocks, t.table[fd].node, q);
    }
  }

  // ---- the invariant ----

  /** A size field that does not change the number of blocks does no harm. */
  lemma SizeOnly(t: State, h: Ghost, fd: nat, z: int)
    requires Writing(t, h, fd, z) && t.dsb == t.sb
    requires SizeOk(t.table[fd].node) && SizeOk(t.table[fd].node.(size := z)) && 0 <= t.table[fd].offset <= t.table[fd].node.size
    requires Owned(t.table[fd].node) == Owned(t.table[fd].node.(size := z))
    ensures Inv(t, h)
  {
    var u := Shadow(t, fd, z);
    var slot := t.table[fd];
    OpenRegFacts(u, h, fd);
    SameBlocksAs(u.inodes, h, slot.node.index, slot.node);
    DeepsOfOthers(u, h, fd, slot, t.blocks, h.own);
    FileStep(u, h, fd, slot, t.blocks, t.sb.freeBlock, h.own, h.fb);
    assert h.(own := h.own, fb := h.fb) == h;
    var w := FileChanged(u, fd, slot, t.blocks, t.sb.freeBlock);
    assert w.table == t.table && w.inodes == t.inodes;
  }

  lemma SameBlocksAs(inodes: seq<Inode>, h: Ghost, i: int, node: Inode)
    requires Owners(inodes, h.role, h.own) && 0 <= i < |inodes| && h.role[i].InUse? && SizeOk(node)
    requires Owned(node) == Owned(inodes[i]) && node.dblocks == inodes[i].dblocks
    ensures Owners(inodes[i := node], h.role, h.own)
  {
    Roles.SameBlocks(inodes, h.role, h.own, i, node);
  }

  /** The size that `f_write` leaves may exceed what the data justifies, but not by a block. */
  predicate WriteKeepsCount(slot: Slot, length: nat)
    requires WithinDirect(slot, length) && slot.access != APPEND
  {
    var end := slot.offset + length;
    var size := Max(slot.node.size + FirstPart(slot, length), end);
    size <= DIRECT_LIMIT && BlocksFor(size) == BlocksFor(Max(slot.node.size, end))
  }

  /** `f_write` keeps the invariant, wherever it writes, as long as the inflated size stays within
      the blocks the file has; every sound write qualifies. */
  lemma WriteKeeps(s: State, g: Ghost, fd: nat, data: seq<byte>) returns (h: Ghost)
    requires CanWrite(s, g, fd, data) && !RefusesWrite(s, s.table[fd], |data|) && WriteKeepsCount(s.table[fd], |data|)
    ensures var t := Write(s, fd, data).0;
            && Inv(t, h) && Written(s, g, fd, data, t, h)
  {
    hide Write, ResultByte, TailBlock, Disk;
    h := WriteDoes(s, g, fd, data);
    var t := Write(s, fd, data).0;
    SizeOnly(t, h, fd, Max(s.table[fd].node.size, s.table[fd].offset + |data|));
  }

  lemma SoundKeepsCount(s: State, slot: Slot, length: nat)
    requires WithinDirect(slot, length) && slot.access != APPEND && length > 0 && slot.offset <= slot.node.size
    requires WriteSound(s, slot, length)
    ensures WriteKeepsCount(slot, length)
  {
    hide TailBlock;
  }
}
