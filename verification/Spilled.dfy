/** Exactly when an append whose data goes on behind the file's last block is right: a condition on the
    disk before the call and on the data. */
module Spilled {
  import opened Bytes
  import opened BlockMap
  import opened Records
  import opened Invariant
  import opened Transfer
  import opened WriteSteps
  import opened WriteWhole
  import opened Appending
  import opened Spilling

  /** Byte o of block b once the first part has been written. */
  function FirstByte(s: State, slot: Slot, data: seq<byte>, b: int, o: nat): byte
    requires WithinDirect(slot, |data|) && 0 <= b < |s.blocks| && o < BLOCKSIZE
  {
    if b == TailBlock(s.blocks, slot.node) then FirstContent(s.blocks, slot, data)[o] else s.blocks[b][o]
  }

  /** Turn i writes byte o of block b. */
  predicate TurnWritesByte(s: State, slot: Slot, data: seq<byte>, i: nat, b: int, o: nat)
    requires WithinDirect(slot, |data|) && i < Turns(slot, |data|) <= N_DBLOCKS
  {
    Target(s, slot, |data|, i) == b && BLOCKSIZE * i + o < Rest(slot, |data|)
  }

  /** Block b comes to hold x at place o: there is no such block and x is 0; or a turn writes it there;
      or no turn writes there, and the first part or the disk has it. */
  predicate Holds(s: State, slot: Slot, data: seq<byte>, b: int, o: nat, x: byte)
    requires WithinDirect(slot, |data|) && o < BLOCKSIZE && Turns(slot, |data|) <= N_DBLOCKS
  {
    if !(0 <= b < |s.blocks|) then x == 0
    else
      && (forall i {:trigger TurnWritesByte(s, slot, data, i, b, o)} :: 0 <= i < Turns(slot, |data|) && TurnWritesByte(s, slot, data, i, b, o) ==>
            x == data[FirstPart(slot, |data|) + BLOCKSIZE * i + o])
      && ((forall i {:trigger TurnWritesByte(s, slot, data, i, b, o)} :: 0 <= i < Turns(slot, |data|) ==> !TurnWritesByte(s, slot, data, i, b, o)) ==>
            x == FirstByte(s, slot, data, b, o))
  }

  /** The file as it should be begins with what spills over. */
  predicate BeginsWithRest(s: State, slot: Slot, data: seq<byte>)
    requires WithinDirect(slot, |data|)
  {
    forall q {:trigger Whole(s, slot, data, q)} :: 0 <= q < Rest(slot, |data|) ==> Whole(s, slot, data, q) == data[FirstPart(slot, |data|) + q]
  }

  /** Behind it, the last block that a turn writes already holds what it should. */
  predicate SlackRight(s: State, slot: Slot, data: seq<byte>)
    requires WithinDirect(slot, |data|) && 0 < Turns(slot, |data|) <= N_DBLOCKS
  {
    var k := Turns(slot, |data|) - 1;
    var b := Target(s, slot, |data|, k);
    forall q {:trigger HasByte(s, slot, data, b, q)} ::
      Rest(slot, |data|) <= q < BLOCKSIZE * (k + 1) && q < slot.node.size + |data| ==> HasByte(s, slot, data, b, q)
  }

  predicate HasByte(s: State, slot: Slot, data: seq<byte>, b: int, q: nat)
    requires WithinDirect(slot, |data|) && q < slot.node.size + |data|
  {
    0 <= b < |s.blocks| && Whole(s, slot, data, q) == FirstByte(s, slot, data, b, q % BLOCKSIZE)
  }

  /** At a block boundary the first part goes to the block that an unused pointer names: if that is one
      of the file's own, which no turn writes, it already is what is written to it. */
  predicate OwnSpared(s: State, slot: Slot, data: seq<byte>)
    requires WithinDirect(slot, |data|)
  {
    slot.node.size > 0 && slot.node.size % BLOCKSIZE == 0 ==>
      forall k :: Turns(slot, |data|) <= k < Owned(slot.node) && slot.node.dblocks[k] == TailBlock(s.blocks, slot.node) ==>
        0 <= slot.node.dblocks[k] < |s.blocks| && s.blocks[slot.node.dblocks[k]] == FirstContent(s.blocks, slot, data)
  }

  /** Every pointer behind the file's blocks that no turn sets, up to the end of the data, names a block
      that comes to hold what the file should have there. */
  predicate UnsetPointersHold(s: State, slot: Slot, data: seq<byte>)
    requires WithinDirect(slot, |data|) && slot.access == APPEND && Turns(slot, |data|) <= N_DBLOCKS
  {
    forall q {:trigger Whole(s, slot, data, q)} :: BLOCKSIZE * Max(Turns(slot, |data|), Owned(slot.node)) <= q < slot.node.size + |data| ==>
      Holds(s, slot, data, slot.node.dblocks[q / BLOCKSIZE], q % BLOCKSIZE, Whole(s, slot, data, q))
  }

  predicate SpillSound(s: State, slot: Slot, data: seq<byte>)
    requires WithinDirect(slot, |data|) && slot.access == APPEND && 0 < Turns(slot, |data|) <= N_DBLOCKS
  {
    && BeginsWithRest(s, slot, data)
    && SlackRight(s, slot, data)
    && OwnSpared(s, slot, data)
    && UnsetPointersHold(s, slot, data)
  }

  // ---- the bytes, place by place ----

  /** What the model says of a byte of a block is what `Holds` says of it. */
  lemma HoldsExactly(s: State, g: Ghost, fd: nat, data: seq<byte>, b: int, o: nat, x: byte)
    requires CanSpill(s, g, fd, data) && o < BLOCKSIZE && Turns(s.table[fd], |data|) <= N_DBLOCKS
    ensures BlockByteAfter(s, s.table[fd], data, b, o) == x <==> Holds(s, s.table[fd], data, b, o, x)
  {
    hide Inv, TailBlock, FirstPart, InPlace, HeadAt, FirstContent, Target, Turns, TurnOf;
    var slot := s.table[fd];
    var i := TurnOf(s, slot, |data|, b, Turns(slot, |data|));
    forall k | 0 <= k < Turns(slot, |data|) ensures |Piece(slot, data, k)| == Min(BLOCKSIZE, Rest(slot, |data|) - BLOCKSIZE * k)
      ensures TurnWritesByte(s, slot, data, k, b, o) ==> k == i
    {
      PieceIs(slot, data, k);
      if Target(s, slot, |data|, k) == b {
        TurnOfTarget(s, g, fd, data, k, Turns(slot, |data|));
      }
    }
    if i < Turns(slot, |data|) {
      PieceIs(slot, data, i);
      assert TurnWritesByte(s, slot, data, i, b, o) <==> o < |Piece(slot, data, i)|;
    }
  }

  lemma PlaceOf(q: nat)
    ensures q == BLOCKSIZE * (q / BLOCKSIZE) + q % BLOCKSIZE && q % BLOCKSIZE < BLOCKSIZE
  {
  }

  lemma TurnsBound(slot: Slot, length: nat)
    requires WithinDirect(slot, length) && Rest(slot, length) > 0
    ensures 0 < Turns(slot, length) <= N_DBLOCKS
    ensures BLOCKSIZE * (Turns(slot, length) - 1) < Rest(slot, length) <= BLOCKSIZE * Turns(slot, length)
  {
    TurnsFit(slot, length);
  }

  /** Behind the spilled part, in the last block that a turn writes. */
  lemma SlackByte(s: State, g: Ghost, fd: nat, data: seq<byte>, q: nat)
    requires CanSpill(s, g, fd, data) && 0 < Rest(s.table[fd], |data|) <= q < BLOCKSIZE * Turns(s.table[fd], |data|)
    ensures 0 < Turns(s.table[fd], |data|) <= N_DBLOCKS && q < DIRECT_LIMIT && q / BLOCKSIZE == Turns(s.table[fd], |data|) - 1
    ensures var b := Target(s, s.table[fd], |data|, Turns(s.table[fd], |data|) - 1);
            0 <= b < |s.blocks| && AppendedByte(s, s.table[fd], data, q) == FirstByte(s, s.table[fd], data, b, q % BLOCKSIZE)
  {
    hide Inv, TailBlock, FirstPart, InPlace, HeadAt, FirstContent, Target, Turns, TurnOf;
    var slot := s.table[fd];
    TurnsBound(slot, |data|);
    PlaceOf(q);
    var k := Turns(slot, |data|) - 1;
    TurnOfTarget(s, g, fd, data, k, k + 1);
    TargetIs(s, g, fd, data, k);
    PieceIs(slot, data, k);
  }

  /** In a block of the file that no turn writes. */
  lemma OwnByte(s: State, g: Ghost, fd: nat, data: seq<byte>, q: nat)
    requires CanSpill(s, g, fd, data) && Rest(s.table[fd], |data|) > 0 && Turns(s.table[fd], |data|) <= q / BLOCKSIZE < Owned(s.table[fd].node)
    ensures q < DIRECT_LIMIT && 0 <= s.table[fd].node.dblocks[q / BLOCKSIZE] < |s.blocks|
    ensures AppendedByte(s, s.table[fd], data, q) == FirstByte(s, s.table[fd], data, s.table[fd].node.dblocks[q / BLOCKSIZE], q % BLOCKSIZE)
  {
    hide Inv, TailBlock, FirstPart, InPlace, HeadAt, FirstContent, Target, Turns, TurnOf;
    var slot, j := s.table[fd], q / BLOCKSIZE;
    TurnsBound(slot, |data|);
    PlaceOf(q);
    OpenRegFacts(s, g, fd);
    assert OwnsAt(slot.node, g.own, slot.node.index, j);
    var b := slot.node.dblocks[j];
    var i := TurnOf(s, slot, |data|, b, Turns(slot, |data|));
    if i < Turns(slot, |data|) {
      TargetIs(s, g, fd, data, i);
    }
  }

  /** Behind the file's blocks, where no turn has set the pointer. */
  lemma UnsetByte(s: State, g: Ghost, fd: nat, data: seq<byte>, q: nat, x: byte)
    requires CanSpill(s, g, fd, data) && Turns(s.table[fd], |data|) <= q / BLOCKSIZE && q < DIRECT_LIMIT
    ensures Turns(s.table[fd], |data|) <= N_DBLOCKS
    ensures AppendedByte(s, s.table[fd], data, q) == x <==> Holds(s, s.table[fd], data, s.table[fd].node.dblocks[q / BLOCKSIZE], q % BLOCKSIZE, x)
  {
    hide Inv, TailBlock, FirstPart, InPlace, HeadAt, FirstContent, Target, Turns, TurnOf, Holds, BlockByteAfter;
    TurnsFit(s.table[fd], |data|);
    HoldsExactly(s, g, fd, data, s.table[fd].node.dblocks[q / BLOCKSIZE], q % BLOCKSIZE, x);
  }

  /** The tail block, when the file owns it, comes to hold the old bytes and the first part. */
  lemma TailRight(s: State, g: Ghost, fd: nat, data: seq<byte>, q: nat)
    requires CanSpill(s, g, fd, data) && q / BLOCKSIZE == s.table[fd].node.size / BLOCKSIZE && s.table[fd].node.size % BLOCKSIZE != 0
    requires q < s.table[fd].node.size + |data| && Rest(s.table[fd], |data|) > 0
    ensures s.table[fd].node.size / BLOCKSIZE < N_DBLOCKS
    ensures TailBlock(s.blocks, s.table[fd].node) == s.table[fd].node.dblocks[q / BLOCKSIZE]
    ensures FirstContent(s.blocks, s.table[fd], data)[q % BLOCKSIZE] == Whole(s, s.table[fd], data, q)
  {
    hide Inv;
    var node := s.table[fd].node;
    PlaceOf(q);
    PlaceOf(node.size);
    TailOfEnd(s.blocks, node);
  }

  lemma OwnedBelow(node: Inode, q: nat)
    requires SizeOk(node) && node.size > 0 && q / BLOCKSIZE < Owned(node)
    ensures q / BLOCKSIZE <= node.size / BLOCKSIZE && (q / BLOCKSIZE == node.size / BLOCKSIZE ==> node.size % BLOCKSIZE != 0)
    ensures q / BLOCKSIZE < node.size / BLOCKSIZE ==> q < node.size
  {
  }

  /** An own block that no turn writes has its bytes, but for the one case at a block boundary. */
  lemma OwnRight(s: State, g: Ghost, fd: nat, data: seq<byte>, q: nat)
    requires CanSpill(s, g, fd, data) && Rest(s.table[fd], |data|) > 0 && Turns(s.table[fd], |data|) <= q / BLOCKSIZE < Owned(s.table[fd].node)
    requires q < s.table[fd].node.size + |data|
    requires var node := s.table[fd].node; node.size % BLOCKSIZE == 0 ==> node.dblocks[q / BLOCKSIZE] != TailBlock(s.blocks, node)
    ensures AppendedByte(s, s.table[fd], data, q) == Whole(s, s.table[fd], data, q)
  {
    hide Inv, TailBlock, FirstPart, InPlace, HeadAt, FirstContent, Target, Turns, TurnOf, AppendedByte;
    var slot := s.table[fd];
    var node := slot.node;
    OwnByte(s, g, fd, data, q);
    TurnsBound(slot, |data|);
    EmptyOwnsOne(node);
    OwnedBelow(node, q);
    if q / BLOCKSIZE == node.size / BLOCKSIZE {
      TailRight(s, g, fd, data, q);
    } else if node.size % BLOCKSIZE != 0 {
      TailOfEnd(s.blocks, node);
      OpenRegFacts(s, g, fd);
      TailOwned(node);
      assert OwnsAt(node, g.own, node.index, q / BLOCKSIZE) && OwnsAt(node, g.own, node.index, node.size / BLOCKSIZE);
    }
  }

  lemma TailOwned(node: Inode)
    requires SizeOk(node) && node.size % BLOCKSIZE != 0
    ensures node.size / BLOCKSIZE < Owned(node)
  {
  }

  lemma EmptyOwnsOne(node: Inode)
    requires SizeOk(node)
    ensures node.size == 0 ==> Owned(node) <= 1
  {
  }

  // ---- the condition ----

  lemma SoundIsSpillSound(s: State, g: Ghost, fd: nat, data: seq<byte>)
    requires CanSpill(s, g, fd, data) && Rest(s.table[fd], |data|) > 0 && AppendSound(s, s.table[fd], data)
    ensures 0 < Turns(s.table[fd], |data|) <= N_DBLOCKS && SpillSound(s, s.table[fd], data)
  {
    hide Inv, TailBlock, FirstPart, InPlace, FirstContent, Target, Turns, AppendedByte, Holds, Owned, Whole;
    var slot := s.table[fd];
    TurnsBound(slot, |data|);
    SpillSoundRepeats(s, g, fd, data);
    assert BeginsWithRest(s, slot, data);
    SoundHasSlack(s, g, fd, data);
    SoundSparesOwn(s, g, fd, data);
    forall q {:trigger Whole(s, slot, data, q)} | BLOCKSIZE * Max(Turns(slot, |data|), Owned(slot.node)) <= q < slot.node.size + |data|
      ensures Holds(s, slot, data, slot.node.dblocks[q / BLOCKSIZE], q % BLOCKSIZE, Whole(s, slot, data, q))
    {
      assert AppendedByte(s, slot, data, q) == Whole(s, slot, data, q);
      PlaceOf(q);
      UnsetByte(s, g, fd, data, q, Whole(s, slot, data, q));
    }
    assert UnsetPointersHold(s, slot, data);
  }

  lemma SoundHasSlack(s: State, g: Ghost, fd: nat, data: seq<byte>)
    requires CanSpill(s, g, fd, data) && Rest(s.table[fd], |data|) > 0 && AppendSound(s, s.table[fd], data)
    ensures 0 < Turns(s.table[fd], |data|) <= N_DBLOCKS && SlackRight(s, s.table[fd], data)
  {
    hide Inv, TailBlock, FirstPart, InPlace, FirstContent, AppendedByte;
    var slot := s.table[fd];
    TurnsBound(slot, |data|);
    var k := Turns(slot, |data|) - 1;
    var b := Target(s, slot, |data|, k);
    forall q {:trigger HasByte(s, slot, data, b, q)} | Rest(slot, |data|) <= q < BLOCKSIZE * (k + 1) && q < slot.node.size + |data|
      ensures HasByte(s, slot, data, b, q)
    {
      SlackByte(s, g, fd, data, q);
      assert AppendedByte(s, slot, data, q) == Whole(s, slot, data, q);
    }
  }

  lemma SoundSparesOwn(s: State, g: Ghost, fd: nat, data: seq<byte>)
    requires CanSpill(s, g, fd, data) && Rest(s.table[fd], |data|) > 0 && AppendSound(s, s.table[fd], data)
    ensures OwnSpared(s, s.table[fd], data)
  {
    hide Inv, TailBlock, FirstPart, InPlace, FirstContent, Target, Turns, AppendedByte;
    var slot := s.table[fd];
    var node := slot.node;
    if node.size > 0 && node.size % BLOCKSIZE == 0 {
      forall k | Turns(slot, |data|) <= k < Owned(node) && node.dblocks[k] == TailBlock(s.blocks, node)
        ensures 0 <= node.dblocks[k] < |s.blocks| && s.blocks[node.dblocks[k]] == FirstContent(s.blocks, slot, data)
      {
        PlaceOfBlock(k, 0);
        OwnByte(s, g, fd, data, BLOCKSIZE * k);
        forall o | 0 <= o < BLOCKSIZE ensures s.blocks[node.dblocks[k]][o] == FirstContent(s.blocks, slot, data)[o] {
          PlaceOfBlock(k, o);
          OwnedBelow(node, BLOCKSIZE * k + o);
          OwnByte(s, g, fd, data, BLOCKSIZE * k + o);
          assert AppendedByte(s, slot, data, BLOCKSIZE * k + o) == Whole(s, slot, data, BLOCKSIZE * k + o);
        }
      }
    }
  }

  lemma PlaceOfBlock(k: nat, o: nat)
    requires o < BLOCKSIZE
    ensures (BLOCKSIZE * k + o) / BLOCKSIZE == k && (BLOCKSIZE * k + o) % BLOCKSIZE == o
  {
    BlockDigits(k, o);
  }

  lemma SpillSoundIsSound(s: State, g: Ghost, fd: nat, data: seq<byte>)
    requires CanSpill(s, g, fd, data) && Rest(s.table[fd], |data|) > 0
    requires 0 < Turns(s.table[fd], |data|) <= N_DBLOCKS && SpillSound(s, s.table[fd], data)
    ensures AppendSound(s, s.table[fd], data)
  {
    hide Inv, TailBlock, FirstPart, InPlace, FirstContent, Target, Turns, AppendedByte, Holds, Owned, Whole, OwnSpared;
    var slot := s.table[fd];
    TurnsBound(slot, |data|);
    forall q {:trigger AppendedByte(s, slot, data, q)} | 0 <= q < slot.node.size + |data|
      ensures AppendedByte(s, slot, data, q) == Whole(s, slot, data, q)
    {
      PlaceOf(q);
      if q < Rest(slot, |data|) {
        SpillStartsOver(s, g, fd, data, q);
      } else if q < BLOCKSIZE * Turns(slot, |data|) {
        SlackByte(s, g, fd, data, q);
        assert HasByte(s, slot, data, Target(s, slot, |data|, Turns(slot, |data|) - 1), q);
      } else if q / BLOCKSIZE < Owned(slot.node) {
        OwnSparedByte(s, g, fd, data, q);
      } else {
        UnsetByte(s, g, fd, data, q, Whole(s, slot, data, q));
      }
    }
  }

  lemma OwnSparedByte(s: State, g: Ghost, fd: nat, data: seq<byte>, q: nat)
    requires CanSpill(s, g, fd, data) && Rest(s.table[fd], |data|) > 0 && OwnSpared(s, s.table[fd], data)
    requires Turns(s.table[fd], |data|) <= q / BLOCKSIZE < Owned(s.table[fd].node) && q < s.table[fd].node.size + |data|
    ensures q < DIRECT_LIMIT && AppendedByte(s, s.table[fd], data, q) == Whole(s, s.table[fd], data, q)
  {
    hide Inv, TailBlock, FirstPart, InPlace, FirstContent, Target, Turns, AppendedByte;
    var slot := s.table[fd];
    var node := slot.node;
    if node.size % BLOCKSIZE == 0 && node.dblocks[q / BLOCKSIZE] == TailBlock(s.blocks, node) {
      OwnByte(s, g, fd, data, q);
      TurnsBound(slot, |data|);
      EmptyOwnsOne(node);
      OwnedBelow(node, q);
    } else {
      OwnRight(s, g, fd, data, q);
    }
  }

  /** Data that spills over is appended soundly exactly under these conditions. */
  lemma SpillSoundExactly(s: State, g: Ghost, fd: nat, data: seq<byte>)
    requires CanSpill(s, g, fd, data) && Rest(s.table[fd], |data|) > 0
    ensures 0 < Turns(s.table[fd], |data|) <= N_DBLOCKS
    ensures AppendSound(s, s.table[fd], data) <==> SpillSound(s, s.table[fd], data)
  {
    hide Inv, AppendSound, SpillSound, Turns, Rest, InPlace, HeadAt, TailBlock;
    TurnsThere(s, g, fd, data);
    if AppendSound(s, s.table[fd], data) {
      SoundIsSpillSound(s, g, fd, data);
    }
    if SpillSound(s, s.table[fd], data) {
      SpillSoundIsSound(s, g, fd, data);
    }
  }

  lemma TurnsThere(s: State, g: Ghost, fd: nat, data: seq<byte>)
    requires CanSpill(s, g, fd, data) && Rest(s.table[fd], |data|) > 0
    ensures 0 < Turns(s.table[fd], |data|) <= N_DBLOCKS
  {
    hide Inv;
    TurnsBound(s.table[fd], |data|);
  }

  /** All three cases of an append together: it fits, it begins at a block boundary, or it spills over. */
  lemma AppendSoundExactly(s: State, g: Ghost, fd: nat, data: seq<byte>)
    requires CanSpill(s, g, fd, data)
    ensures var slot := s.table[fd];
            && (FitsLastBlock(slot.node, |data|) ==> AppendSound(s, slot, data))
            && (AtBoundary(slot, data) ==> (AppendSound(s, slot, data) <==> BoundarySound(s, slot, data)))
            && (Rest(slot, |data|) > 0 ==>
                  0 < Turns(slot, |data|) <= N_DBLOCKS && (AppendSound(s, slot, data) <==> SpillSound(s, slot, data)))
            && (FitsLastBlock(slot.node, |data|) || AtBoundary(slot, data) || Rest(slot, |data|) > 0)
  {
    hide Inv, AppendSound, BoundarySound, SpillSound, TailBlock;
    var slot := s.table[fd];
    if FitsLastBlock(slot.node, |data|) {
      FitsIsSound(s, g, fd, data);
    }
    if AtBoundary(slot, data) {
      BoundaryExactly(s, slot, data);
    }
    if Rest(slot, |data|) > 0 {
      SpillSoundExactly(s, g, fd, data);
    }
  }
}
