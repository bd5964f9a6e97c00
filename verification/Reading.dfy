/** What `f_read` returns: exactly when it is the slice of the file that was asked for. */
module Reading {
  import opened BlockMap
  import opened Records
  import opened FileTree
  import opened Transfer
  import opened Calls
  import opened Intended

  /** One pass copies up to, and never including, the last byte of the block it starts in. */
  lemma OnePass(blocks: seq<Block>, node: Inode, size: nat, block: nat, o: nat)
    requires o < BLOCKSIZE
    ensures var c := ReadChunk(size, o);
            ReadPass(blocks, node, size, block, o).copied == FetchBlock(blocks, node, block)[o..o + c]
  {
    var c := ReadChunk(size, o);
    var bytes := FetchBlock(blocks, node, block)[o..o + c];
    if size > 0 && c > 0 && c < size {
      assert ReadPass(blocks, node, size - c, block + 1, o + c).copied == [];
      assert bytes + [] == bytes;
    }
  }

  /** However many passes, at most one pass's worth of a file that ends early is copied again;
      the whole request is never exceeded. */
  lemma {:induction false} PassesFromLastByte(blocks: seq<Block>, node: Inode, size: nat, block: nat, times: nat)
    ensures ReadPasses(blocks, node, size, block, BLOCKSIZE - 1, times) == []
    decreases times
  {
    hide FetchBlock, ReadPass;
    if times > 0 {
      var r := ReadPass(blocks, node, size, block, BLOCKSIZE - 1);
      OnePass(blocks, node, size, block, BLOCKSIZE - 1);
      PassesFromLastByte(blocks, node, r.size, r.block, times - 1);
    }
  }

  // ---- any number of passes ----

  /** One pass in full: the bytes it copies, what is left, and the block the next pass begins in. */
  lemma PassIs(blocks: seq<Block>, node: Inode, size: nat, block: nat, o: nat)
    requires o < BLOCKSIZE - 1
    ensures var c, r := ReadChunk(size, o), ReadPass(blocks, node, size, block, o);
            r.copied == FetchBlock(blocks, node, block)[o..o + c] && r.size == size - c && (r.size > 0 ==> r.block == block + 2)
  {
    hide FetchBlock;
    var c := ReadChunk(size, o);
    OnePass(blocks, node, size, block, o);
    if 0 < c < size {
      assert ReadPass(blocks, node, size - c, block + 1, o + c) == Reading([], size - c, block + 2);
    }
  }

  lemma {:induction false} NothingLeft(blocks: seq<Block>, node: Inode, block: nat, o: nat, times: nat)
    requires o < BLOCKSIZE
    ensures ReadPasses(blocks, node, 0, block, o, times) == []
    decreases times
  {
    if times > 0 {
      NothingLeft(blocks, node, block, o, times - 1);
    }
  }

  lemma TimesMore(times: nat, w: nat)
    requires times > 0
    ensures times * w == w + (times - 1) * w && (times - 1) * w >= 0
  {
  }

  /** One pass off the front. */
  lemma PassOff(blocks: seq<Block>, node: Inode, size: nat, block: nat, o: nat, times: nat)
    requires o < BLOCKSIZE - 1 && times > 0
    ensures var c := ReadChunk(size, o);
            ReadPasses(blocks, node, size, block, o, times)
              == FetchBlock(blocks, node, block)[o..o + c] + if c == size then [] else ReadPasses(blocks, node, size - c, block + 2, o, times - 1)
  {
    hide FetchBlock, ReadPass;
    PassIs(blocks, node, size, block, o);
    var pass := ReadPass(blocks, node, size, block, o);
    if pass.size == 0 {
      NothingLeft(blocks, node, pass.block, o, times - 1);
    }
  }

  /** So many bytes are copied: `size` at most, and w a pass at most. */
  lemma {:induction false} PassesLength(blocks: seq<Block>, node: Inode, size: nat, block: nat, o: nat, times: nat, w: nat, n: nat)
    requires o < BLOCKSIZE - 1 && w == BLOCKSIZE - 1 - o && n == times * w
    ensures |ReadPasses(blocks, node, size, block, o, times)| == Min(size, n)
    decreases times
  {
    hide FetchBlock, ReadPass, ReadPasses;
    if times == 0 {
      NoPass(blocks, node, size, block, o);
    } else {
      PassOff(blocks, node, size, block, o, times);
      TimesMore(times, w);
      var c := ReadChunk(size, o);
      assert n >= w;
      if c < size {
        PassesLength(blocks, node, size - c, block + 2, o, times - 1, w, n - w);
      }
    }
  }

  lemma NoPass(blocks: seq<Block>, node: Inode, size: nat, block: nat, o: nat)
    requires o < BLOCKSIZE
    ensures ReadPasses(blocks, node, size, block, o, 0) == []
  {
  }

  /** As written, pass i begins in the second block after the one that pass i - 1 began in, at the same
      place of the block, and stops before the last byte of its block: with w bytes a pass, byte w i + j of
      the buffer is byte o + j of block b + 2 i. */
  lemma {:induction false} PassesExactly(blocks: seq<Block>, node: Inode, size: nat, block: nat, o: nat, times: nat, w: nat, i: nat, j: nat, x: nat)
    requires o < BLOCKSIZE - 1 && w == BLOCKSIZE - 1 - o && j < w && x == i * w + j
    requires x < |ReadPasses(blocks, node, size, block, o, times)|
    ensures ReadPasses(blocks, node, size, block, o, times)[x] == FetchBlock(blocks, node, block + 2 * i)[o + j]
    decreases times
  {
    hide FetchBlock, ReadPass, ReadPasses;
    if times == 0 {
      NoPass(blocks, node, size, block, o);
    } else {
      PassOff(blocks, node, size, block, o, times);
      if i > 0 {
        TimesMore(i, w);
        PassesExactly(blocks, node, size - ReadChunk(size, o), block + 2, o, times - 1, w, i - 1, j, x - w);
      }
    }
  }

  /** Below block 33290 the reader fetches what the repaired path of the block leads to. */
  lemma FetchIsData(blocks: seq<Block>, node: Inode, b: nat)
    requires b < TRIPLE_BROKEN
    ensures FetchBlock(blocks, node, b) == GetBlock(blocks, DataBlock(blocks, node, b))
  {
    PathInRangeExactly(b);
  }

  /** A single pass yields the requested slice of the file, cut before the last byte of the block. */
  lemma ReadIsCutSlice(blocks: seq<Block>, slot: Slot, size: nat)
    requires FileSizeOk(slot.node) && 0 <= slot.offset < BLOCKSIZE * TRIPLE_BROKEN && 0 < size <= slot.node.size - slot.offset
    ensures var c := ReadChunk(size, slot.offset % BLOCKSIZE);
            Read(blocks, slot, size, 1) == Contents(blocks, slot.node)[slot.offset..slot.offset + c]
  {
    hide FetchBlock, ReadPass, Contents, DataBlock, GetBlock;
    var b, o := slot.offset / BLOCKSIZE, slot.offset % BLOCKSIZE;
    var c := ReadChunk(size, o);
    var r := ReadPass(blocks, slot.node, size, b, o);
    OnePass(blocks, slot.node, size, b, o);
    assert Read(blocks, slot, size, 1) == r.copied + [] == r.copied;
    FetchIsData(blocks, slot.node, b);
    SliceOfBlock(blocks, slot.node, slot.offset, c);
  }

  /** `f_read` fills the buffer exactly when it is asked for one item that ends before the last
      byte of the block it starts in; then the buffer is that slice of the file. */
  lemma ReadExactly(blocks: seq<Block>, slot: Slot, size: nat, times: nat)
    requires FileSizeOk(slot.node) && 0 <= slot.offset < BLOCKSIZE * TRIPLE_BROKEN
    requires 0 < size && 0 < times && size * times <= slot.node.size - slot.offset
    ensures |Read(blocks, slot, size, times)| == size * times <==> times == 1 && slot.offset % BLOCKSIZE + size < BLOCKSIZE
    ensures times == 1 && slot.offset % BLOCKSIZE + size < BLOCKSIZE ==>
              Read(blocks, slot, size, times) == Contents(blocks, slot.node)[slot.offset..slot.offset + size]
  {
    hide Contents, Read;
    ReadIsShort(blocks, slot, size, times);
    if times == 1 {
      ReadIsCutSlice(blocks, slot, size);
    } else {
      MoreIsMore(size, times);
    }
  }

  /** However often it is to be repeated, the code never copies more than one item. */
  lemma ReadIsShort(blocks: seq<Block>, slot: Slot, size: nat, times: nat)
    requires 0 <= slot.offset
    ensures |Read(blocks, slot, size, times)| <= size
  {
  }

  lemma MoreIsMore(size: nat, times: nat)
    requires times >= 2
    ensures size * times >= size * 2
  {
  }

  /** The last byte of a block is never returned by a read that starts at it. */
  lemma LastByteUnreadable(blocks: seq<Block>, slot: Slot, size: nat, times: nat)
    requires 0 <= slot.offset && slot.offset % BLOCKSIZE == BLOCKSIZE - 1
    ensures Read(blocks, slot, size, times) == []
  {
    PassesFromLastByte(blocks, slot.node, size, slot.offset / BLOCKSIZE, times);
  }

  // ---- the call ----

  /** `f_read` as written, as a whole: it returns size * times exactly when the descriptor is valid, its
      slot may be read, and the file has that many bytes left; otherwise it returns -1 and copies nothing.
      What it returns is what it has copied exactly when it is asked for one item that ends before the last
      byte of a block, and then that is the slice of the file. */
  lemma ReadCallExactly(s: State, fd: int, size: int, times: int)
    requires |s.table| == FILETABLESIZE && (ValidFd(fd) ==> FileSizeOk(s.table[fd].node) && 0 <= s.table[fd].offset < BLOCKSIZE * TRIPLE_BROKEN)
    ensures var (bytes, r) := ReadCall(s, fd, size, times);
            if && 0 <= fd < FILETABLESIZE && (s.table[fd].access == READ || s.table[fd].access == READANDWRITE)
               && 0 < size && 0 < times && size * times <= s.table[fd].node.size - s.table[fd].offset
            then
              var slot := s.table[fd];
              && r == size * times && 0 <= slot.offset <= slot.node.size
              && (|bytes| == r <==> times == 1 && slot.offset % BLOCKSIZE + size < BLOCKSIZE)
              && (|bytes| == r ==> bytes == Contents(s.blocks, slot.node)[slot.offset..slot.offset + r])
            else (bytes, r) == ([], -1)
  {
    hide Read, Contents;
    if ValidFd(fd) {
      AllowedExactly(s.table[fd], size, times);
      if ReadAllowed(s.table[fd], size, times) {
        ReadExactly(s.blocks, s.table[fd], size, times);
      }
    }
  }
}
