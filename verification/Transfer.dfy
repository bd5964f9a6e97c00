/** `f_write` and `f_read` on a regular file, as the code computes them. */
module Transfer {
  import opened Bytes
  import opened BlockMap
  import opened Records
  import opened Operations

  function Min(a: int, b: int): int { if a < b then a else b }

  function Max(a: int, b: int): int { if a < b then b else a }

  /** The buffer laid out `ntimes` times (lines 424-428). */
  function Repeat(buffer: seq<byte>, ntimes: nat): (r: seq<byte>)
    ensures |r| == |buffer| * ntimes
  {
    if ntimes == 0 then [] else Repeat(buffer, ntimes - 1) + buffer
  }

  /** Copy i of the buffer begins where the copies before it end. */
  lemma {:induction false} RepeatedByte(buffer: seq<byte>, ntimes: nat, i: nat, j: nat, x: nat)
    requires i < ntimes && j < |buffer| && x == |buffer| * i + j
    ensures x < |Repeat(buffer, ntimes)| && Repeat(buffer, ntimes)[x] == buffer[j]
    decreases ntimes
  {
    if i < ntimes - 1 {
      RepeatedByte(buffer, ntimes - 1, i, j, x);
    }
  }

  /** The position the data is meant for: the end of the file for APPEND, else the offset. */
  function Place(slot: Slot): int {
    if slot.access == APPEND then slot.node.size else slot.offset
  }

  /** The file and the data stay within the ten direct blocks. */
  predicate WithinDirect(slot: Slot, length: nat) {
    && SizeOk(slot.node) && 0 <= slot.offset < DIRECT_LIMIT
    && Place(slot) + length <= DIRECT_LIMIT
  }

  /** How much of the data the first block takes. */
  function FirstPart(slot: Slot, length: nat): nat
    requires WithinDirect(slot, length)
  {
    Min(length, BLOCKSIZE - Place(slot) % BLOCKSIZE)
  }

  /** The number of the block that `get_block_from_index(size / 512)` reads (line 443). */
  function TailBlock(blocks: seq<Block>, node: Inode): int32
    requires SizeOk(node)
  {
    Mapped(blocks, node, node.size / BLOCKSIZE)
  }

  /** The block built in lines 492-501: what precedes the position is copied from the tail block,
      what follows the data is zero. */
  function FirstContent(blocks: seq<Block>, slot: Slot, data: seq<byte>): Block
    requires WithinDirect(slot, |data|)
  {
    var o := Place(slot) % BLOCKSIZE;
    var a := FirstPart(slot, |data|);
    GetBlock(blocks, TailBlock(blocks, slot.node))[..o] + data[..a] + Zeros(BLOCKSIZE - o - a)
  }

  /** Lines 490-525: the first block, the offset and the size. */
  function WriteFirst(s: State, fd: nat, data: seq<byte>): (t: State)
    requires fd < |s.table| && WithinDirect(s.table[fd], |data|)
    ensures |t.table| == |s.table| && |t.inodes| == |s.inodes| && |t.blocks| == |s.blocks|
  {
    var slot := s.table[fd];
    var content := FirstContent(s.blocks, slot, data);
    var n := slot.offset / BLOCKSIZE + 1;
    var s1 :=
      if slot.access == APPEND then SaveBlock(s, TailBlock(s.blocks, slot.node), content)
      else if slot.offset >= slot.node.size then SaveBlock(AllocateNext(s, fd, n), s.sb.freeBlock, content)
      else SaveBlock(s, LookupNext(s, slot.node, n), content);
    var a := FirstPart(slot, |data|);
    var s2 := SetSlot(s1, fd, s1.table[fd].(offset := slot.offset + a));
    SaveOpenInode(s2, fd, s2.table[fd].node.(size := slot.node.size + a))
  }

  /** One turn of the loop of lines 538-565. */
  function WriteStep(s: State, fd: nat, data: seq<byte>, done: nat, n: nat, oldSize: int): State
    requires fd < |s.table| && done < |data| && 1 <= n <= N_DBLOCKS
  {
    var slot := s.table[fd];
    var c := Min(BLOCKSIZE, |data| - done);
    var grows := slot.offset >= oldSize;
    var b := if grows then s.sb.freeBlock else LookupNext(s, slot.node, n);
    var s1 := SaveBlock(if grows then AllocateNext(s, fd, n) else s, b, data[done..done + c]);
    var s2 := SetSlot(s1, fd, s1.table[fd].(offset := slot.offset + c));
    var size := if slot.access == APPEND then slot.node.size + c else Max(slot.node.size, slot.offset + c);
    SaveOpenInode(s2, fd, s2.table[fd].node.(size := size, last := b))
  }

  /** The loop: `n` counts blocks from 1, `done` the bytes already written. */
  function WriteLoop(s: State, fd: nat, data: seq<byte>, done: nat, n: nat, oldSize: int): (t: State)
    requires fd < |s.table| && done <= |data| && 1 <= n && BLOCKSIZE * (n - 1) + |data| - done <= DIRECT_LIMIT
    ensures |t.table| == |s.table| && |t.inodes| == |s.inodes| && |t.blocks| == |s.blocks|
    decreases |data| - done
  {
    if done == |data| then s
    else
      var c := Min(BLOCKSIZE, |data| - done);
      WriteLoop(WriteStep(s, fd, data, done, n, oldSize), fd, data, done + c, n + 1, oldSize)
  }

  /** The first value of `total_block` in the loop: for APPEND it starts over (line 476). */
  function LoopStart(slot: Slot): nat
    requires 0 <= slot.offset
  {
    if slot.access == APPEND then 1 else slot.offset / BLOCKSIZE + 2
  }

  /** `f_write` of `data` to the regular file open in slot fd: new state and return value. */
  function Write(s: State, fd: nat, data: seq<byte>): (State, int)
    requires fd < |s.table| && WithinDirect(s.table[fd], |data|)
  {
    var slot := s.table[fd];
    if BLOCKSIZE - Place(slot) % BLOCKSIZE < |data| && s.sb.freeBlock == -1 then (s, -1)
    else
      var s1 := WriteFirst(s, fd, data);
      var s2 := WriteLoop(s1, fd, data, FirstPart(slot, |data|), LoopStart(slot), slot.node.size);
      (SetSlot(s2, fd, s2.table[fd].(offset := Place(slot) + |data|)), |data|)
  }

  /** Byte k of a file, as the reader finds it. */
  function ByteAt(blocks: seq<Block>, node: Inode, k: nat): byte
    requires k < DIRECT_LIMIT
  {
    GetBlock(blocks, node.dblocks[k / BLOCKSIZE])[k % BLOCKSIZE]
  }

  /** The contents of a file. */
  function FileBytes(blocks: seq<Block>, node: Inode): (r: seq<byte>)
    requires SizeOk(node)
    ensures |r| == node.size && forall k :: 0 <= k < |r| ==> r[k] == ByteAt(blocks, node, k)
  {
    seq(node.size, k requires 0 <= k < node.size => ByteAt(blocks, node, k))
  }

  // ---- f_read ----

  /** The bytes one turn of the inner loop copies (lines 1217-1236): never the last of a block. */
  function ReadChunk(size: nat, blockOffset: nat): nat
    requires blockOffset < BLOCKSIZE
  {
    Min(size, BLOCKSIZE - blockOffset - 1)
  }

  /** The block the reader fetches; line 1397's path leaves its index block from 33290 on. */
  function FetchBlock(blocks: seq<Block>, node: Inode, b: nat): Block {
    if b < TRIPLE_BROKEN then GetBlock(blocks, Mapped(blocks, node, b)) else Zeros(BLOCKSIZE)
  }

  datatype Reading = Reading(copied: seq<byte>, size: nat, block: nat)

  /** The inner loop of lines 1213-1237: bytes copied, what is left of `size`, the next block. */
  function ReadPass(blocks: seq<Block>, node: Inode, size: nat, block: nat, blockOffset: nat): (r: Reading)
    requires blockOffset < BLOCKSIZE
    ensures |r.copied| == size - r.size
    decreases size, BLOCKSIZE - blockOffset
  {
    if size == 0 then Reading([], 0, block)
    else
      var c := ReadChunk(size, blockOffset);
      var bytes := FetchBlock(blocks, node, block)[blockOffset..blockOffset + c];
      if c == 0 || c == size then Reading(bytes, size - c, block + 1)
      else
        var r := ReadPass(blocks, node, size - c, block + 1, blockOffset + c);
        Reading(bytes + r.copied, r.size, r.block)
  }

  /** The outer loop of lines 1210-1238: `size` is never restored and the block number goes on. */
  function ReadPasses(blocks: seq<Block>, node: Inode, size: nat, block: nat, blockOffset: nat, times: nat): (r: seq<byte>)
    requires blockOffset < BLOCKSIZE
    ensures |r| <= size
    decreases times
  {
    if times == 0 then []
    else
      var r := ReadPass(blocks, node, size, block, blockOffset);
      r.copied + ReadPasses(blocks, node, r.size, r.block, blockOffset, times - 1)
  }

  /** The tests of lines 1197-1205. */
  predicate ReadAllowed(slot: Slot, size: int, times: int) {
    && slot.access != APPEND && slot.access != WRITE
    && 0 < size && 0 < times
    && size * times <= slot.node.size && size * times <= slot.node.size - slot.offset
  }

  /** The tests say that the slot is open for reading and the file has size * times bytes left. */
  lemma AllowedExactly(slot: Slot, size: int, times: int)
    requires 0 <= slot.offset
    ensures ReadAllowed(slot, size, times) <==>
              && (slot.access == READ || slot.access == READANDWRITE) && 0 < size && 0 < times
              && size * times <= slot.node.size - slot.offset
  {
  }

  /** What `f_read` leaves in the buffer. */
  function Read(blocks: seq<Block>, slot: Slot, size: nat, times: nat): seq<byte>
    requires 0 <= slot.offset
  {
    ReadPasses(blocks, slot.node, size, slot.offset / BLOCKSIZE, slot.offset % BLOCKSIZE, times)
  }
}
