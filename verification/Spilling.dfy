/** What `f_write` does in APPEND mode, byte by byte, for data of any length: the first part goes to the
    block that the pointer behind the size names, and the loop for the rest starts again at the
    file's first block (line 476). */
module Spilling {
  import opened Bytes
  import opened BlockMap
  import opened Records
  import opened Invariant
  import opened Transfer
  import opened WriteSteps
  import opened WriteWhole
  import opened Appending

  // ---- what the call does, read off the state before it ----

  /** The i-th element of the free list, following the links on disk. */
  function HeadAt(blocks: seq<Block>, head: int, i: nat): int
    decreases i
  {
    if i == 0 then head else HeadAt(blocks, Link(GetBlock(blocks, head)), i - 1)
  }

  /** What is left for the loop, and how many turns it makes. */
  function Rest(slot: Slot, length: nat): nat
    requires WithinDirect(slot, length)
  {
    length - FirstPart(slot, length)
  }

  function Turns(slot: Slot, length: nat): nat
    requires WithinDirect(slot, length)
  {
    BlocksFor(Rest(slot, length))
  }

  /** The number of turns that start below the old size: line 1252 then looks a block up. */
  function InPlace(slot: Slot, length: nat): nat
    requires WithinDirect(slot, length)
  {
    BlocksFor(Max(0, slot.node.size - slot.offset - FirstPart(slot, length)))
  }

  /** The block that turn k writes: the file's k-th or, from the old size on, the next free one. */
  function Target(s: State, slot: Slot, length: nat, k: nat): int
    requires WithinDirect(slot, length) && k < N_DBLOCKS
  {
    if k < InPlace(slot, length) then slot.node.dblocks[k] else HeadAt(s.blocks, s.sb.freeBlock, k - InPlace(slot, length))
  }

  /** The part of the data that turn k writes. */
  function Piece(slot: Slot, data: seq<byte>, k: nat): (r: seq<byte>)
    requires WithinDirect(slot, |data|) && k < Turns(slot, |data|)
    ensures 0 < |r| <= BLOCKSIZE
  {
    var from := FirstPart(slot, |data|) + BLOCKSIZE * k;
    data[from..Min(from + BLOCKSIZE, |data|)]
  }

  /** The turn below n that writes block p, or n. */
  function TurnOf(s: State, slot: Slot, length: nat, p: int, n: nat): (r: nat)
    requires WithinDirect(slot, length) && n <= N_DBLOCKS
    ensures r <= n && (r < n ==> Target(s, slot, length, r) == p)
    ensures r == n ==> forall k :: 0 <= k < n ==> Target(s, slot, length, k) != p
  {
    if n == 0 then 0
    else
      var r := TurnOf(s, slot, length, p, n - 1);
      if r < n - 1 || Target(s, slot, length, n - 1) == p then r else n
  }

  /** The number of the file's k-th block afterwards. */
  function PointerAfter(s: State, slot: Slot, length: nat, k: nat): int
    requires WithinDirect(slot, length) && k < N_DBLOCKS
  {
    if k < Turns(slot, length) then Target(s, slot, length, k) else slot.node.dblocks[k]
  }

  /** Byte o of block p afterwards. */
  function BlockByteAfter(s: State, slot: Slot, data: seq<byte>, p: int, o: nat): byte
    requires WithinDirect(slot, |data|) && o < BLOCKSIZE && Turns(slot, |data|) <= N_DBLOCKS
  {
    var i := TurnOf(s, slot, |data|, p, Turns(slot, |data|));
    if !(0 <= p < |s.blocks|) then 0
    else if i < Turns(slot, |data|) && o < |Piece(slot, data, i)| then Piece(slot, data, i)[o]
    else if p == TailBlock(s.blocks, slot.node) then FirstContent(s.blocks, slot, data)[o]
    else s.blocks[p][o]
  }

  lemma TurnsFit(slot: Slot, length: nat)
    requires WithinDirect(slot, length)
    ensures Turns(slot, length) <= N_DBLOCKS && Rest(slot, length) <= BLOCKSIZE * Turns(slot, length) < Rest(slot, length) + BLOCKSIZE
  {
  }

  /** Byte q of the file afterwards. */
  function AppendedByte(s: State, slot: Slot, data: seq<byte>, q: nat): byte
    requires WithinDirect(slot, |data|) && q < DIRECT_LIMIT
  {
    TurnsFit(slot, |data|);
    BlockByteAfter(s, slot, data, PointerAfter(s, slot, |data|, q / BLOCKSIZE), q % BLOCKSIZE)
  }

  // ---- the input ----

  /** There are free blocks for the turns past the old size, and none of them is what the first part
      overwrites: at a block boundary the pointer behind the size, which the file does not own, may name
      a free block. */
  ghost predicate CanSpill(s: State, g: Ghost, fd: nat, data: seq<byte>) {
    && CanAppendData(s, g, fd, data)
    && var slot := s.table[fd];
       && Turns(slot, |data|) <= InPlace(slot, |data|) + |g.fb|
       && (forall k :: 0 <= k < Turns(slot, |data|) - InPlace(slot, |data|) ==>
             HeadAt(s.blocks, s.sb.freeBlock, k) != TailBlock(s.blocks, slot.node))
  }

  /** The list on disk is the list of the invariant. */
  lemma {:induction false} HeadIs(blocks: seq<Block>, own: seq<Owner>, fb: seq<int>, d: nat, i: nat)
    requires FreeBlocks(Top(fb), blocks, own, fb) && i <= d <= |fb|
    ensures HeadAt(blocks, Top(fb[..d]), i) == Top(fb[..d - i])
    decreases i
  {
    if i > 0 {
      assert FreeAt(fb, blocks, own, d - 1);
      assert Top(fb[..d]) == fb[d - 1] && Below(fb, d - 1) == Top(fb[..d - 1]);
      HeadIs(blocks, own, fb, d - 1, i - 1);
    }
  }

  lemma HeadFree(s: State, g: Ghost, i: nat)
    requires Inv(s, g) && i < |g.fb|
    ensures var b := HeadAt(s.blocks, s.sb.freeBlock, i);
            && b == g.fb[|g.fb| - 1 - i] && 0 <= b < |s.blocks| == |g.own| && g.own[b] == Free(|g.fb| - 1 - i)
            && Link(s.blocks[b]) == HeadAt(s.blocks, s.sb.freeBlock, i + 1)
  {
    hide Owners, Deeps, Lasts, DirsMatch, Tree, TableOk, FreeInodes, InodesOk;
    var m := |g.fb|;
    assert g.fb[..m] == g.fb;
    HeadIs(s.blocks, g.own, g.fb, m, i);
    HeadIs(s.blocks, g.own, g.fb, m, i + 1);
    assert FreeAt(g.fb, s.blocks, g.own, m - 1 - i);
  }

  /** Where the turns write: blocks of the file, then free ones, all different. */
  lemma TargetIs(s: State, g: Ghost, fd: nat, data: seq<byte>, k: nat)
    requires CanSpill(s, g, fd, data) && k < Turns(s.table[fd], |data|)
    ensures k < N_DBLOCKS
    ensures var slot := s.table[fd];
            var b := Target(s, slot, |data|, k);
            && 0 <= b < |s.blocks| == |g.own|
            && (k < InPlace(slot, |data|) ==> 0 <= slot.node.index && g.own[b] == By(slot.node.index, k))
            && (k >= InPlace(slot, |data|) ==>
                  && g.own[b] == Free(|g.fb| - 1 - (k - InPlace(slot, |data|)))
                  && Link(s.blocks[b]) == HeadAt(s.blocks, s.sb.freeBlock, k - InPlace(slot, |data|) + 1)
                  && b != TailBlock(s.blocks, slot.node))
  {
    hide Disk, FreeInodes, Tree, TailBlock, FirstPart;
    var slot := s.table[fd];
    TurnsFit(slot, |data|);
    OpenRegFacts(s, g, fd);
    if k < InPlace(slot, |data|) {
      InPlaceOwned(slot, |data|);
      assert OwnsAt(slot.node, g.own, slot.node.index, k);
    } else {
      HeadFree(s, g, k - InPlace(slot, |data|));
    }
  }

  lemma InPlaceOwned(slot: Slot, length: nat)
    requires WithinDirect(slot, length) && slot.node.kind == REG
    ensures InPlace(slot, length) <= Owned(slot.node)
  {
    if slot.node.size - slot.offset - FirstPart(slot, length) > 0 {
      BlocksMonotone(slot.node.size - slot.offset - FirstPart(slot, length), slot.node.size);
    }
  }

  lemma TargetsDiffer(s: State, g: Ghost, fd: nat, data: seq<byte>, j: nat, k: nat)
    requires CanSpill(s, g, fd, data) && j < k < Turns(s.table[fd], |data|)
    ensures k < N_DBLOCKS && Target(s, s.table[fd], |data|, j) != Target(s, s.table[fd], |data|, k)
  {
    hide Inv, TailBlock, FirstPart, Target, InPlace;
    TargetIs(s, g, fd, data, j);
    TargetIs(s, g, fd, data, k);
  }

  // ---- the loop ----

  /** After `n` turns from s1 on, the state after the first part. */
  ghost predicate Turned(s: State, s1: State, fd: nat, data: seq<byte>, n: nat, t: State)
    requires fd < |s.table| && WithinDirect(s.table[fd], |data|) && n <= Turns(s.table[fd], |data|) <= N_DBLOCKS
  {
    var slot := s.table[fd];
    var done := FirstPart(slot, |data|) + Min(BLOCKSIZE * n, Rest(slot, |data|));
    && fd < |t.table| == |s.table| && |t.blocks| == |s1.blocks| == |s.blocks|
    && t.table[fd].access == APPEND
    && t.table[fd].offset == slot.offset + done && t.table[fd].node.size == slot.node.size + done
    && t.sb.freeBlock == HeadAt(s.blocks, s.sb.freeBlock, Max(0, n - InPlace(slot, |data|)))
    && TurnedPointers(s, slot, |data|, n, t.table[fd].node)
    && TurnedBlocks(s, s1, slot, data, n, t)
  }

  predicate TurnedPointers(s: State, slot: Slot, length: nat, n: nat, node: Inode)
    requires WithinDirect(slot, length)
  {
    forall k :: 0 <= k < N_DBLOCKS ==> node.dblocks[k] == if k < n then Target(s, slot, length, k) else slot.node.dblocks[k]
  }

  predicate TurnedBlocks(s: State, s1: State, slot: Slot, data: seq<byte>, n: nat, t: State)
    requires WithinDirect(slot, |data|) && n <= Turns(slot, |data|) && n <= N_DBLOCKS && |t.blocks| == |s1.blocks|
  {
    forall b {:trigger t.blocks[b]} :: 0 <= b < |t.blocks| ==>
      var i := TurnOf(s, slot, |data|, b, n);
      t.blocks[b] == if i < n then Splice(s1.blocks[b], 0, Piece(slot, data, i)) else s1.blocks[b]
  }

  /** The state after the first part. */
  lemma FirstPartDone(s: State, g: Ghost, fd: nat, data: seq<byte>)
    requires CanSpill(s, g, fd, data)
    ensures var slot, s1 := s.table[fd], WriteFirst(s, fd, data);
            && Turns(slot, |data|) <= N_DBLOCKS && Turned(s, s1, fd, data, 0, s1)
            && (forall b :: 0 <= b < |s.blocks| ==>
                  s1.blocks[b] == if b == TailBlock(s.blocks, slot.node) then FirstContent(s.blocks, slot, data) else s.blocks[b])
  {
    hide TailBlock, FirstContent, Disk, FreeInodes, Tree;
    var slot := s.table[fd];
    TurnsFit(slot, |data|);
    var x := FirstContent(s.blocks, slot, data);
    var b := TailBlock(s.blocks, slot.node);
    if 0 <= b < |s.blocks| {
      assert Splice(s.blocks[b], 0, x) == x;
    }
  }

  /** Whether turn n finds the offset at or past the old size. */
  lemma GrowsAt(slot: Slot, length: nat, n: nat)
    requires WithinDirect(slot, length) && n < Turns(slot, length)
    ensures BLOCKSIZE * n < Rest(slot, length)
    ensures slot.offset + FirstPart(slot, length) + BLOCKSIZE * n >= slot.node.size <==> n >= InPlace(slot, length)
  {
  }

  /** One turn. */
  lemma OneTurn(s: State, g: Ghost, fd: nat, data: seq<byte>, s1: State, n: nat, t: State)
    requires CanSpill(s, g, fd, data) && n < Turns(s.table[fd], |data|) <= N_DBLOCKS && Turned(s, s1, fd, data, n, t)
    requires forall b :: 0 <= b < |s.blocks| && b != TailBlock(s.blocks, s.table[fd].node) ==> s1.blocks[b] == s.blocks[b]
    ensures var done := FirstPart(s.table[fd], |data|) + BLOCKSIZE * n;
            && done < |data| && fd < |t.table|
            && Turned(s, s1, fd, data, n + 1, WriteStep(t, fd, data, done, n + 1, s.table[fd].node.size))
  {
    hide Inv, TailBlock, FirstPart, InPlace, Turns, WriteStep, TurnOf, Piece;
    var slot := s.table[fd];
    var done := FirstPart(slot, |data|) + BLOCKSIZE * n;
    GrowsAt(slot, |data|, n);
    TargetIs(s, g, fd, data, n);
    var b := Target(s, slot, |data|, n);
    forall k | 0 <= k < n ensures Target(s, slot, |data|, k) != b {
      TargetsDiffer(s, g, fd, data, k, n);
    }
    assert TurnOf(s, slot, |data|, b, n) == n;
    assert t.blocks[b] == s1.blocks[b];
    PieceIs(slot, data, n);
    TurnWrites(t, fd, data, done, n, slot.node.size, b);
    var u := WriteStep(t, fd, data, done, n + 1, slot.node.size);
    TurnedPointersGrow(s, slot, |data|, n, t.table[fd].node, u.table[fd].node, b);
    TurnedBlocksGrow(s, s1, slot, data, n, t, u);
  }

  lemma TurnedPointersGrow(s: State, slot: Slot, length: nat, n: nat, node: Inode, node': Inode, b: int32)
    requires WithinDirect(slot, length) && n < N_DBLOCKS && TurnedPointers(s, slot, length, n, node)
    requires b == Target(s, slot, length, n) && node'.dblocks == node.dblocks[n := b]
    ensures TurnedPointers(s, slot, length, n + 1, node')
  {
    hide Target;
  }

  lemma TurnedBlocksGrow(s: State, s1: State, slot: Slot, data: seq<byte>, n: nat, t: State, u: State)
    requires WithinDirect(slot, |data|) && n < Turns(slot, |data|) && n < N_DBLOCKS && |u.blocks| == |t.blocks| == |s1.blocks|
    requires TurnedBlocks(s, s1, slot, data, n, t)
    requires var b := Target(s, slot, |data|, n);
             && 0 <= b < |t.blocks| && TurnOf(s, slot, |data|, b, n) == n
             && u.blocks == t.blocks[b := Splice(t.blocks[b], 0, Piece(slot, data, n))]
    ensures TurnedBlocks(s, s1, slot, data, n + 1, u)
  {
    hide Target, Piece, TurnOf;
    NextTurnOf(s, slot, |data|, n);
    var b := Target(s, slot, |data|, n);
    assert t.blocks[b] == s1.blocks[b];
    forall p | 0 <= p < |u.blocks|
      ensures u.blocks[p] == var i := TurnOf(s, slot, |data|, p, n + 1);
                             if i < n + 1 then Splice(s1.blocks[p], 0, Piece(slot, data, i)) else s1.blocks[p]
    {
      assert t.blocks[p] == var i := TurnOf(s, slot, |data|, p, n); if i < n then Splice(s1.blocks[p], 0, Piece(slot, data, i)) else s1.blocks[p];
    }
  }

  lemma PieceIs(slot: Slot, data: seq<byte>, n: nat)
    requires WithinDirect(slot, |data|) && n < Turns(slot, |data|)
    ensures var done := FirstPart(slot, |data|) + BLOCKSIZE * n;
            && done < |data| && Piece(slot, data, n) == data[done..done + Min(BLOCKSIZE, |data| - done)]
            && Min(BLOCKSIZE * n, Rest(slot, |data|)) == BLOCKSIZE * n
            && Min(BLOCKSIZE * (n + 1), Rest(slot, |data|)) == BLOCKSIZE * n + Min(BLOCKSIZE, |data| - done)
  {
  }

  lemma NextTurnOf(s: State, slot: Slot, length: nat, n: nat)
    requires WithinDirect(slot, length) && n < N_DBLOCKS
    ensures forall p {:trigger TurnOf(s, slot, length, p, n + 1)} ::
              TurnOf(s, slot, length, p, n + 1) == if TurnOf(s, slot, length, p, n) < n || Target(s, slot, length, n) == p
                                                   then TurnOf(s, slot, length, p, n) else n + 1
  {
  }

  /** A turn, field by field. */
  lemma TurnWrites(t: State, fd: nat, data: seq<byte>, done: nat, n: nat, oldSize: int, b: int)
    requires fd < |t.table| && done < |data| && n < N_DBLOCKS && t.table[fd].access == APPEND && 0 <= b < |t.blocks|
    requires b == if t.table[fd].offset >= oldSize then t.sb.freeBlock else t.table[fd].node.dblocks[n]
    ensures var u := WriteStep(t, fd, data, done, n + 1, oldSize);
            var c := Min(BLOCKSIZE, |data| - done);
            && |u.table| == |t.table| && |u.blocks| == |t.blocks| && u.table[fd].access == APPEND
            && u.table[fd].offset == t.table[fd].offset + c && u.table[fd].node.size == t.table[fd].node.size + c
            && u.sb.freeBlock == (if t.table[fd].offset >= oldSize then Link(t.blocks[b]) else t.sb.freeBlock)
            && u.table[fd].node.dblocks == t.table[fd].node.dblocks[n := b]
            && u.blocks == t.blocks[b := Splice(t.blocks[b], 0, data[done..done + c])]
  {
    var u := WriteStep(t, fd, data, done, n + 1, oldSize);
    assert u.table[fd].node.dblocks == t.table[fd].node.dblocks[n := b];
  }

  /** The rest of the loop. */
  lemma {:induction false} LoopTurns(s: State, g: Ghost, fd: nat, data: seq<byte>, s1: State, n: nat, t: State)
    requires CanSpill(s, g, fd, data) && n <= Turns(s.table[fd], |data|) <= N_DBLOCKS && Turned(s, s1, fd, data, n, t)
    requires forall b :: 0 <= b < |s.blocks| && b != TailBlock(s.blocks, s.table[fd].node) ==> s1.blocks[b] == s.blocks[b]
    ensures var slot := s.table[fd];
            var done := FirstPart(slot, |data|) + Min(BLOCKSIZE * n, Rest(slot, |data|));
            && fd < |t.table| && done <= |data| && BLOCKSIZE * n + |data| - done <= DIRECT_LIMIT
            && Turned(s, s1, fd, data, Turns(slot, |data|), WriteLoop(t, fd, data, done, n + 1, slot.node.size))
    decreases Turns(s.table[fd], |data|) - n
  {
    hide Inv, TailBlock, FirstPart, InPlace, HeadAt, Turned, WriteStep, Target, TurnOf;
    var slot := s.table[fd];
    var done := FirstPart(slot, |data|) + Min(BLOCKSIZE * n, Rest(slot, |data|));
    TurnedTable(s, s1, fd, data, n, t);
    DoneSoFar(slot, |data|, n);
    if n < Turns(slot, |data|) {
      PieceIs(slot, data, n);
      OneTurn(s, g, fd, data, s1, n, t);
      LoopTurns(s, g, fd, data, s1, n + 1, WriteStep(t, fd, data, done, n + 1, slot.node.size));
    }
  }

  lemma TurnedTable(s: State, s1: State, fd: nat, data: seq<byte>, n: nat, t: State)
    requires fd < |s.table| && WithinDirect(s.table[fd], |data|) && n <= Turns(s.table[fd], |data|) <= N_DBLOCKS
    requires Turned(s, s1, fd, data, n, t)
    ensures fd < |t.table|
  {
  }

  lemma DoneSoFar(slot: Slot, length: nat, n: nat)
    requires WithinDirect(slot, length) && n <= Turns(slot, length) <= N_DBLOCKS
    ensures var done := FirstPart(slot, length) + Min(BLOCKSIZE * n, Rest(slot, length));
            && done <= length && BLOCKSIZE * n + length - done <= DIRECT_LIMIT
            && (n == Turns(slot, length) ==> done == length)
  {
    TurnsFit(slot, length);
  }

  /** Byte o of block p after all turns. */
  lemma TurnedByte(s: State, g: Ghost, fd: nat, data: seq<byte>, s1: State, t: State, p: int, o: nat)
    requires CanSpill(s, g, fd, data) && Turns(s.table[fd], |data|) <= N_DBLOCKS
    requires Turned(s, s1, fd, data, Turns(s.table[fd], |data|), t)
    requires forall b :: 0 <= b < |s.blocks| ==> s1.blocks[b] == if b == TailBlock(s.blocks, s.table[fd].node)
               then FirstContent(s.blocks, s.table[fd], data) else s.blocks[b]
    requires 0 <= p < |s.blocks| && o < BLOCKSIZE
    ensures |t.blocks| == |s.blocks| && t.blocks[p][o] == BlockByteAfter(s, s.table[fd], data, p, o)
  {
    hide Inv, TailBlock, FirstPart, InPlace, HeadAt, Turns, Target, FirstContent, TurnOf;
    var slot := s.table[fd];
    var i := TurnOf(s, slot, |data|, p, Turns(slot, |data|));
    assert t.blocks[p] == if i < Turns(slot, |data|) then Splice(s1.blocks[p], 0, Piece(slot, data, i)) else s1.blocks[p];
  }

  // ---- the call ----

  /** What `f_write` does in APPEND mode: the size and the offset, every pointer, the head of the free
      list, and every byte of every block. */
  ghost predicate Appended(s: State, fd: nat, data: seq<byte>, t: State)
    requires fd < |s.table| && WithinDirect(s.table[fd], |data|) && Turns(s.table[fd], |data|) <= N_DBLOCKS
  {
    var slot := s.table[fd];
    && fd < |t.table| && |t.blocks| == |s.blocks|
    && t.table[fd].offset == slot.node.size + |data| && t.table[fd].node.size == slot.node.size + |data|
    && t.sb.freeBlock == HeadAt(s.blocks, s.sb.freeBlock, Max(0, Turns(slot, |data|) - InPlace(slot, |data|)))
    && (forall k :: 0 <= k < N_DBLOCKS ==> t.table[fd].node.dblocks[k] == PointerAfter(s, slot, |data|, k))
    && (forall p, o :: 0 <= p < |s.blocks| && 0 <= o < BLOCKSIZE ==> t.blocks[p][o] == BlockByteAfter(s, slot, data, p, o))
  }

  lemma AppendDoes(s: State, g: Ghost, fd: nat, data: seq<byte>)
    requires CanSpill(s, g, fd, data) && !RefusesWrite(s, s.table[fd], |data|)
    ensures Write(s, fd, data).1 == |data| && Turns(s.table[fd], |data|) <= N_DBLOCKS
    ensures Appended(s, fd, data, Write(s, fd, data).0)
  {
    hide Inv, TailBlock, FirstPart, InPlace, HeadAt, FirstContent, WriteFirst, WriteLoop, Target, Turns, TurnOf, BlockByteAfter;
    var slot := s.table[fd];
    FirstPartDone(s, g, fd, data);
    var s1 := WriteFirst(s, fd, data);
    LoopTurns(s, g, fd, data, s1, 0, s1);
    DoneSoFar(slot, |data|, Turns(slot, |data|));
    var t1 := WriteLoop(s1, fd, data, FirstPart(slot, |data|), 1, slot.node.size);
    var t := Write(s, fd, data).0;
    assert t.blocks == t1.blocks && t.sb == t1.sb && t.table[fd].node == t1.table[fd].node;
    forall p, o | 0 <= p < |s.blocks| && 0 <= o < BLOCKSIZE ensures t.blocks[p][o] == BlockByteAfter(s, slot, data, p, o) {
      TurnedByte(s, g, fd, data, s1, t1, p, o);
    }
  }

  /** The bytes of the file afterwards. */
  lemma BytesOfAppended(s: State, fd: nat, data: seq<byte>, t: State, q: nat)
    requires fd < |s.table| && WithinDirect(s.table[fd], |data|) && Turns(s.table[fd], |data|) <= N_DBLOCKS
    requires Appended(s, fd, data, t) && q < DIRECT_LIMIT
    ensures ByteAt(t.blocks, t.table[fd].node, q) == AppendedByte(s, s.table[fd], data, q)
  {
    hide TailBlock, FirstPart, InPlace, HeadAt, FirstContent, Target, Turns, TurnOf;
    var slot := s.table[fd];
    var p := PointerAfter(s, slot, |data|, q / BLOCKSIZE);
    assert t.table[fd].node.dblocks[q / BLOCKSIZE] == p;
    if 0 <= p < |s.blocks| {
      assert t.blocks[p][q % BLOCKSIZE] == BlockByteAfter(s, slot, data, p, q % BLOCKSIZE);
    }
  }

  /** Byte q of the file as an append should leave it: the old bytes, then the data. */
  function Whole(s: State, slot: Slot, data: seq<byte>, q: nat): byte
    requires WithinDirect(slot, |data|) && q < slot.node.size + |data|
  {
    if q < slot.node.size then ByteAt(s.blocks, slot.node, q) else data[q - slot.node.size]
  }

  /** When an append puts the data where it belongs, as the disk before the call decides it. */
  predicate AppendSound(s: State, slot: Slot, data: seq<byte>)
    requires WithinDirect(slot, |data|) && slot.access == APPEND
  {
    forall q {:trigger AppendedByte(s, slot, data, q)} :: 0 <= q < slot.node.size + |data| ==>
      AppendedByte(s, slot, data, q) == Whole(s, slot, data, q)
  }

  /** What the first part overwrites belongs to no other file, or already is what it writes. */
  ghost predicate TailSpared(s: State, g: Ghost, slot: Slot, data: seq<byte>)
    requires WithinDirect(slot, |data|)
  {
    var b := TailBlock(s.blocks, slot.node);
    0 <= b < |s.blocks| && b < |g.own| && Taken(g.own[b]) && g.own[b].i != slot.node.index ==>
      s.blocks[b] == FirstContent(s.blocks, slot, data)
  }

  /** A block of another file is no turn's target. */
  lemma OthersNoTarget(s: State, g: Ghost, fd: nat, data: seq<byte>, t: State, b: int)
    requires CanSpill(s, g, fd, data) && Turns(s.table[fd], |data|) <= N_DBLOCKS && Appended(s, fd, data, t)
    requires |g.own| == |s.blocks| && 0 <= b < |g.own| && Taken(g.own[b]) && g.own[b].i != s.table[fd].node.index
    ensures t.blocks[b] == if b == TailBlock(s.blocks, s.table[fd].node) then FirstContent(s.blocks, s.table[fd], data) else s.blocks[b]
  {
    hide Inv, TailBlock, FirstPart, InPlace, HeadAt, FirstContent, Target, Turns, TurnOf;
    var slot := s.table[fd];
    var i := TurnOf(s, slot, |data|, b, Turns(slot, |data|));
    if i < Turns(slot, |data|) {
      TargetIs(s, g, fd, data, i);
    }
    var x := if b == TailBlock(s.blocks, slot.node) then FirstContent(s.blocks, slot, data) else s.blocks[b];
    forall o | 0 <= o < BLOCKSIZE ensures t.blocks[b][o] == x[o] {
      assert t.blocks[b][o] == BlockByteAfter(s, slot, data, b, o);
    }
  }

  lemma SparesExactly(s: State, g: Ghost, fd: nat, data: seq<byte>, t: State)
    requires CanSpill(s, g, fd, data) && Turns(s.table[fd], |data|) <= N_DBLOCKS && Appended(s, fd, data, t)
    ensures OthersUntouched(s, t, g, s.table[fd].node.index) <==> TailSpared(s, g, s.table[fd], data)
  {
    hide Inv, TailBlock, FirstContent, Appended, InPlace, Turns, HeadAt;
    var slot := s.table[fd];
    AppendedLengths(s, g, fd, data, t);
    forall b | 0 <= b < |g.own| && Taken(g.own[b]) && g.own[b].i != slot.node.index
      ensures t.blocks[b] == if b == TailBlock(s.blocks, slot.node) then FirstContent(s.blocks, slot, data) else s.blocks[b]
    {
      OthersNoTarget(s, g, fd, data, t, b);
    }
  }

  lemma AppendedLengths(s: State, g: Ghost, fd: nat, data: seq<byte>, t: State)
    requires CanSpill(s, g, fd, data) && Turns(s.table[fd], |data|) <= N_DBLOCKS && Appended(s, fd, data, t)
    ensures fd < |t.table| && |t.blocks| == |s.blocks| == |g.own|
  {
    hide Disk;
    OpenRegFacts(s, g, fd);
  }

  lemma RefinesExactly(s: State, fd: nat, data: seq<byte>, t: State)
    requires fd < |s.table| && WithinDirect(s.table[fd], |data|) && s.table[fd].access == APPEND
    requires Turns(s.table[fd], |data|) <= N_DBLOCKS && Appended(s, fd, data, t) && fd < |t.table|
    ensures Refines(s, t, fd, s.table[fd].node.size, data) <==> AppendSound(s, s.table[fd], data)
  {
    hide AppendedByte, ByteAt, Turns, PointerAfter, BlockByteAfter, HeadAt, InPlace;
    var slot := s.table[fd];
    var sz := slot.node.size;
    forall q: nat {:trigger AppendedByte(s, slot, data, q)} {:trigger ByteAt(t.blocks, t.table[fd].node, q)} | q < DIRECT_LIMIT
      ensures ByteAt(t.blocks, t.table[fd].node, q) == AppendedByte(s, slot, data, q)
    {
      BytesOfAppended(s, fd, data, t, q);
    }
    if Refines(s, t, fd, sz, data) {
      forall q {:trigger AppendedByte(s, slot, data, q)} | 0 <= q < sz + |data|
        ensures AppendedByte(s, slot, data, q) == if q < sz then ByteAt(s.blocks, slot.node, q) else data[q - sz]
      {
        assert ByteAt(t.blocks, t.table[fd].node, q) == AppendedByte(s, slot, data, q);
      }
    }
  }

  /** `f_write` in APPEND mode refines the byte-string specification exactly when the append is sound,
      and spares the other files exactly when the block the first part goes to is none of theirs. */
  lemma AppendExactly(s: State, g: Ghost, fd: nat, data: seq<byte>)
    requires CanSpill(s, g, fd, data) && !RefusesWrite(s, s.table[fd], |data|)
    ensures var (t, r) := Write(s, fd, data);
            var slot := s.table[fd];
            && r == |data| && fd < |t.table| && slot.node.size + |data| <= DIRECT_LIMIT
            && (Refines(s, t, fd, slot.node.size, data) <==> AppendSound(s, slot, data))
            && (OthersUntouched(s, t, g, slot.node.index) <==> TailSpared(s, g, slot, data))
  {
    hide Inv, Write, Appended, AppendedByte, OthersUntouched, TailSpared;
    AppendDoes(s, g, fd, data);
    var t := Write(s, fd, data).0;
    AppendedLengths(s, g, fd, data, t);
    RefinesExactly(s, fd, data, t);
    SparesExactly(s, g, fd, data, t);
  }

  // ---- what the condition comes to ----

  /** Data that fits into a last block that the file has is appended soundly. */
  lemma FitsIsSound(s: State, g: Ghost, fd: nat, data: seq<byte>)
    requires CanAppendData(s, g, fd, data) && FitsLastBlock(s.table[fd].node, |data|)
    ensures CanSpill(s, g, fd, data) && AppendSound(s, s.table[fd], data) && TailSpared(s, g, s.table[fd], data)
  {
    hide Inv, Write, AppendSound, TailSpared, OthersUntouched, Refines;
    assert Turns(s.table[fd], |data|) == 0;
    AppendFits(s, g, fd, data);
    AppendExactly(s, g, fd, data);
  }

  /** The k-th turn writes the k-th block, and no other turn writes it. */
  lemma {:induction false} TurnOfTarget(s: State, g: Ghost, fd: nat, data: seq<byte>, k: nat, n: nat)
    requires CanSpill(s, g, fd, data) && k < n <= Turns(s.table[fd], |data|) <= N_DBLOCKS
    ensures TurnOf(s, s.table[fd], |data|, Target(s, s.table[fd], |data|, k), n) == k
  {
    hide Inv, Target, Turns, InPlace, HeadAt, TailBlock;
    var slot := s.table[fd];
    var r := TurnOf(s, slot, |data|, Target(s, slot, |data|, k), n);
    if r < k {
      TargetsDiffer(s, g, fd, data, r, k);
    } else if k < r < n {
      TargetsDiffer(s, g, fd, data, k, r);
    }
  }

  /** When the data spills over, the block counter has started again at the first block: the file now
      begins with the part of the data that should have followed its last block. */
  lemma SpillStartsOver(s: State, g: Ghost, fd: nat, data: seq<byte>, q: nat)
    requires CanSpill(s, g, fd, data) && q < Rest(s.table[fd], |data|)
    ensures q < DIRECT_LIMIT && AppendedByte(s, s.table[fd], data, q) == data[FirstPart(s.table[fd], |data|) + q]
  {
    hide Inv, TailBlock, FirstPart, InPlace, HeadAt, FirstContent, Target, TurnOf;
    var slot := s.table[fd];
    TurnsFit(slot, |data|);
    var k := q / BLOCKSIZE;
    TurnOfTarget(s, g, fd, data, k, Turns(slot, |data|));
    TargetIs(s, g, fd, data, k);
    PieceIs(slot, data, k);
  }

  /** So it is sound only if the file as it should be begins with that part. */
  lemma SpillSoundRepeats(s: State, g: Ghost, fd: nat, data: seq<byte>)
    requires CanSpill(s, g, fd, data) && AppendSound(s, s.table[fd], data)
    ensures var slot := s.table[fd];
            && Rest(slot, |data|) <= DIRECT_LIMIT
            && forall q :: 0 <= q < Rest(slot, |data|) ==> Whole(s, slot, data, q) == data[FirstPart(slot, |data|) + q]
  {
    hide Inv, AppendedByte, ByteAt, FirstPart;
    var slot := s.table[fd];
    forall q | 0 <= q < Rest(slot, |data|)
      ensures Whole(s, slot, data, q) == data[FirstPart(slot, |data|) + q]
    {
      SpillStartsOver(s, g, fd, data, q);
    }
  }

  /** The number of the block that should hold the end of the data. */
  function LastBlock(slot: Slot, length: nat): nat
    requires WithinDirect(slot, length) && slot.access == APPEND && length > 0
  {
    (slot.node.size + length - 1) / BLOCKSIZE
  }

  lemma LastBlockBehind(slot: Slot, length: nat)
    requires WithinDirect(slot, length) && slot.access == APPEND && Rest(slot, length) > 0
    ensures var j := LastBlock(slot, length);
            && Turns(slot, length) <= j < N_DBLOCKS && Owned(slot.node) <= j
            && slot.node.size < BLOCKSIZE * j < slot.node.size + length <= BLOCKSIZE * (j + 1)
  {
    var sz, k := slot.node.size, slot.node.size / BLOCKSIZE;
    var rest := Rest(slot, length);
    assert sz + length == BLOCKSIZE * (k + 1) + rest;
    assert BLOCKSIZE * Turns(slot, length) < rest + BLOCKSIZE;
  }

  /** No turn sets the pointer of that block. Where it names a block of another file, as a pointer never
      set does, which is 0 and names the root's first block, the append is sound only if the data ends in
      the very bytes with which that block begins. */
  lemma SpillSoundOnlyIf(s: State, g: Ghost, fd: nat, data: seq<byte>, b: nat)
    requires CanSpill(s, g, fd, data) && Rest(s.table[fd], |data|) > 0 && AppendSound(s, s.table[fd], data)
    requires LastBlock(s.table[fd], |data|) < N_DBLOCKS && b == s.table[fd].node.dblocks[LastBlock(s.table[fd], |data|)]
    requires b < |g.own| && Taken(g.own[b]) && g.own[b].i != s.table[fd].node.index && b != TailBlock(s.blocks, s.table[fd].node)
    ensures |g.own| == |s.blocks|
    ensures var at := BLOCKSIZE * LastBlock(s.table[fd], |data|) - s.table[fd].node.size;
            && 0 < at < |data| <= at + BLOCKSIZE
            && data[at..] == s.blocks[b][..|data| - at]
  {
    hide Inv, TailBlock, FirstPart, InPlace, HeadAt, FirstContent, Target, Turns, TurnOf, AppendedByte;
    var slot := s.table[fd];
    var j, sz := LastBlock(slot, |data|), slot.node.size;
    LastBlockBehind(slot, |data|);
    OpenRegFacts(s, g, fd);
    var at := BLOCKSIZE * j - sz;
    forall o | 0 <= o < |data| - at ensures s.blocks[b][o] == data[at + o] {
      BlockDigits(j, o);
      LastBlockByte(s, g, fd, data, b, j, o);
      assert AppendedByte(s, slot, data, BLOCKSIZE * j + o) == data[BLOCKSIZE * j + o - sz];
    }
  }

  lemma LastBlockByte(s: State, g: Ghost, fd: nat, data: seq<byte>, b: nat, j: nat, o: nat)
    requires CanSpill(s, g, fd, data) && o < BLOCKSIZE && Turns(s.table[fd], |data|) <= j < N_DBLOCKS
    requires b == s.table[fd].node.dblocks[j] && b < |g.own| == |s.blocks|
    requires Taken(g.own[b]) && g.own[b].i != s.table[fd].node.index && b != TailBlock(s.blocks, s.table[fd].node)
    ensures BLOCKSIZE * j + o < DIRECT_LIMIT && AppendedByte(s, s.table[fd], data, BLOCKSIZE * j + o) == s.blocks[b][o]
  {
    hide Inv, TailBlock, FirstPart, InPlace, HeadAt, FirstContent, Target, Turns, TurnOf;
    var slot := s.table[fd];
    BlockDigits(j, o);
    var i := TurnOf(s, slot, |data|, b, Turns(slot, |data|));
    if i < Turns(slot, |data|) {
      TargetIs(s, g, fd, data, i);
    }
  }

  /** At a block boundary the first part is all the data, and what the tail block becomes. */
  ghost predicate AtBoundary(slot: Slot, data: seq<byte>) {
    && WithinDirect(slot, |data|) && slot.access == APPEND && 0 < |data| <= BLOCKSIZE
    && 0 < slot.node.size && slot.node.size % BLOCKSIZE == 0
  }

  function Padded(data: seq<byte>): Block
    requires |data| <= BLOCKSIZE
  {
    data + Zeros(BLOCKSIZE - |data|)
  }

  lemma BoundaryContent(s: State, slot: Slot, data: seq<byte>)
    requires AtBoundary(slot, data)
    ensures Turns(slot, |data|) == 0 && slot.node.size / BLOCKSIZE < N_DBLOCKS
    ensures TailBlock(s.blocks, slot.node) == slot.node.dblocks[slot.node.size / BLOCKSIZE]
    ensures FirstContent(s.blocks, slot, data) == Padded(data)
  {
    TailOfEnd(s.blocks, slot.node);
  }

  lemma BoundaryByte(s: State, slot: Slot, data: seq<byte>, q: nat)
    requires AtBoundary(slot, data) && q < DIRECT_LIMIT
    ensures var p := slot.node.dblocks[q / BLOCKSIZE];
            AppendedByte(s, slot, data, q)
              == if 0 <= p < |s.blocks| && p == TailBlock(s.blocks, slot.node) then Padded(data)[q % BLOCKSIZE] else ByteAt(s.blocks, slot.node, q)
  {
    hide TailBlock, FirstContent, Turns, Target;
    BoundaryContent(s, slot, data);
  }

  /** The pointer behind the size names a block, and if that is also one of the file's own, the block
      already is what is written to it; or there is no such block, and the data is all zeros. */
  predicate BoundarySound(s: State, slot: Slot, data: seq<byte>)
    requires AtBoundary(slot, data)
  {
    var m := slot.node.size / BLOCKSIZE;
    var b := TailBlock(s.blocks, slot.node);
    if 0 <= b < |s.blocks| then
      forall k :: 0 <= k < m && slot.node.dblocks[k] == b ==> s.blocks[b] == Padded(data)
    else
      forall j :: 0 <= j < |data| ==> data[j] == 0
  }

  /** At a block boundary, data of at most a block goes to the block that the next, unused pointer names,
      and the file reads as it should exactly then. */
  lemma BoundaryExactly(s: State, slot: Slot, data: seq<byte>)
    requires AtBoundary(slot, data)
    ensures AppendSound(s, slot, data) <==> BoundarySound(s, slot, data)
  {
    hide AppendedByte, AppendSound, BoundarySound;
    if AppendSound(s, slot, data) {
      SoundAtBoundary(s, slot, data);
    }
    if BoundarySound(s, slot, data) {
      BoundaryIsSound(s, slot, data);
    }
  }

  lemma SoundAtBoundary(s: State, slot: Slot, data: seq<byte>)
    requires AtBoundary(slot, data) && AppendSound(s, slot, data)
    ensures BoundarySound(s, slot, data)
  {
    hide TailBlock, AppendedByte, FirstPart;
    var node, m := slot.node, slot.node.size / BLOCKSIZE;
    BoundaryContent(s, slot, data);
    var b := TailBlock(s.blocks, node);
    if 0 <= b < |s.blocks| {
      forall k | 0 <= k < m && node.dblocks[k] == b ensures s.blocks[b] == Padded(data) {
        forall o | 0 <= o < BLOCKSIZE ensures s.blocks[b][o] == Padded(data)[o] {
          BlockDigits(k, o);
          BoundaryByte(s, slot, data, BLOCKSIZE * k + o);
          assert AppendedByte(s, slot, data, BLOCKSIZE * k + o) == ByteAt(s.blocks, node, BLOCKSIZE * k + o);
        }
      }
    } else {
      forall j | 0 <= j < |data| ensures data[j] == 0 {
        BlockDigits(m, j);
        BoundaryByte(s, slot, data, node.size + j);
        assert AppendedByte(s, slot, data, node.size + j) == data[j];
      }
    }
  }

  lemma BoundaryIsSound(s: State, slot: Slot, data: seq<byte>)
    requires AtBoundary(slot, data) && BoundarySound(s, slot, data)
    ensures AppendSound(s, slot, data)
  {
    hide TailBlock, AppendedByte, FirstPart;
    var sz := slot.node.size;
    BoundaryContent(s, slot, data);
    forall q {:trigger AppendedByte(s, slot, data, q)} | 0 <= q < sz + |data|
      ensures AppendedByte(s, slot, data, q) == if q < sz then ByteAt(s.blocks, slot.node, q) else data[q - sz]
    {
      BoundaryByte(s, slot, data, q);
      if q >= sz {
        BlockDigits(sz / BLOCKSIZE, q - sz);
      }
    }
  }

  /** When the pointer behind the size names the first block of a directory, that directory's first
      entry is afterwards what the data decodes to, so the disk is valid only if the data begins with
      the directory's own "." entry. A pointer never set is 0 and names the first block of the root. */
  lemma BoundaryOverwritesDirectory(s: State, g: Ghost, fd: nat, data: seq<byte>, d: nat)
    requires CanAppendData(s, g, fd, data) && AtBoundary(s.table[fd], data)
    requires UsedDir(s.inodes, g.role, d) && s.inodes[d].dblocks[0] == TailBlock(s.blocks, s.table[fd].node)
    ensures var t := Write(s, fd, data).0;
            var b := s.inodes[d].dblocks[0];
            && 0 <= b < |s.blocks| == |t.blocks| && t.blocks[b] == Padded(data)
            && |t.inodes| == |s.inodes| && t.inodes[d] == s.inodes[d]
            && forall h :: Inv(t, h) && UsedDir(t.inodes, h.role, d) ==> EntryIn(Padded(data), 0).inode == d && EntryIn(Padded(data), 0).name == DOT
  {
    hide Inv, TailBlock, Write;
    BoundaryContent(s, s.table[fd], data);
    DirBlockOwned(s, g, fd, d);
    BoundaryForm(s, fd, data);
    var t := Write(s, fd, data).0;
    forall h | Inv(t, h) && UsedDir(t.inodes, h.role, d) ensures EntryIn(Padded(data), 0).inode == d && EntryIn(Padded(data), 0).name == DOT {
      DotIsFirst(t, h, d);
    }
  }

  lemma BoundaryForm(s: State, fd: nat, data: seq<byte>)
    requires fd < |s.table| && AtBoundary(s.table[fd], data)
    ensures var t := Write(s, fd, data).0;
            var b := TailBlock(s.blocks, s.table[fd].node);
            && |t.inodes| == |s.inodes| && |t.blocks| == |s.blocks|
            && (forall i :: 0 <= i < |s.inodes| && i != s.table[fd].node.index ==> t.inodes[i] == s.inodes[i])
            && (0 <= b < |s.blocks| ==> t.blocks[b] == Padded(data))
  {
    hide TailBlock, FirstContent;
    BoundaryContent(s, s.table[fd], data);
    var s1 := WriteFirst(s, fd, data);
    assert WriteLoop(s1, fd, data, |data|, 1, s.table[fd].node.size) == s1;
    var b := TailBlock(s.blocks, s.table[fd].node);
    if 0 <= b < |s.blocks| {
      assert Splice(s.blocks[b], 0, Padded(data)) == Padded(data);
    }
  }

  lemma DirBlockOwned(s: State, g: Ghost, fd: nat, d: nat)
    requires OpenReg(s, g, fd) && UsedDir(s.inodes, g.role, d)
    ensures 0 <= s.inodes[d].dblocks[0] < |s.blocks| && d != s.table[fd].node.index
  {
    hide Deeps, FreeInodes, Tree, Lasts, DirsMatch;
    assert SlotOk(s.table[fd], s.inodes, g.role);
    assert InodeOk(s.inodes[d], d, g.role[d]) && OwnsAll(s.inodes[d], g.own, d);
    assert OwnsAt(s.inodes[d], g.own, d, 0);
  }

  lemma DotIsFirst(t: State, h: Ghost, d: nat)
    requires Inv(t, h) && UsedDir(t.inodes, h.role, d)
    ensures EntryIn(GetBlock(t.blocks, t.inodes[d].dblocks[0]), 0).inode == d
    ensures EntryIn(GetBlock(t.blocks, t.inodes[d].dblocks[0]), 0).name == DOT
  {
    hide Deeps, FreeInodes, FreeBlocks, Owners, Lasts, TableOk;
    assert DotsOk(h.dirs[d], d, t.inodes[d].parent);
    assert EntriesMatch(t.inodes[d], t.blocks, h.dirs[d]);
    assert DirEntry(t.blocks, t.inodes[d], 0) == h.dirs[d][0];
  }
}
