/** A run after which an append destroys the root directory: the file ends at a block boundary, and
    the pointer behind its last block was never set. */
module BlockZero {
  import opened Bytes
  import opened Records
  import opened Operations
  import opened Transfer
  import opened Invariant
  import opened Guards
  import opened Runs
  import opened Spilling
  import opened Forgery
  import Appending
  import Birth
  import Cycle
  import Format
  import Session
  import Walk
  import WriteSteps
  import WriteWhole

  /** The file in slot 1 has one full block; its second pointer and the root's first one are 0. */
  ghost predicate FullBlock(s: State, h: Ghost) {
    && Appending.CanAppendData(s, h, 1, [0]) && |s.table| == FILETABLESIZE
    && s.table[1].node.size == BLOCKSIZE && s.table[1].offset == BLOCKSIZE
    && s.table[1].node.dblocks[1] == 0 && s.inodes[0].dblocks[0] == 0
  }

  /** A file is created in the root and filled with one block. */
  lemma FileFilled(t: State, g: Ghost, name: seq<byte>, first: seq<byte>)
    requires RootOpen(t, g, name) && |first| == BLOCKSIZE
    requires t.table[0].node.dblocks == Format.NO_BLOCKS && t.table[0].node.size == 2 * ENTRYSIZE
    requires 0 <= t.sb.freeInode < |t.inodes| && t.inodes[t.sb.freeInode].dblocks == Format.NO_BLOCKS
    ensures CanAddTo(t, 0, name)
    ensures var t1 := CreateFile(t, 0, name, APPEND);
            && |t1.table| == FILETABLESIZE && Inv(t1, Birth.GhostAfterCreate(t, g, 0, name))
            && WriteGuard(t1, 1, first) && WithinDirect(t1.table[1], |first|)
            && !t1.table[1].free && t1.table[1].access == APPEND && t1.table[1].node.kind == REG
            && FullBlock(Write(t1, 1, first).0, Birth.GhostAfterCreate(t, g, 0, name))
  {
    hide Inv, CreateFile, Write, WithNewEntry;
    Cycle.CreatePlaces(t, g, 0, name, APPEND);
    Birth.CreateKeeps(t, g, 0, name, APPEND);
    var t1, h := CreateFile(t, 0, name, APPEND), Birth.GhostAfterCreate(t, g, 0, name);
    Cycle.WriteOnlyFile(t1, 1, first);
    Appending.AppendFits(t1, h, 1, first);
    FirstBlockFilled(t1, h, first);
  }

  lemma FirstBlockFilled(t1: State, h: Ghost, first: seq<byte>)
    requires Appending.CanAppendData(t1, h, 1, first) && |first| == BLOCKSIZE && t1.table[1].node.size == 0
    ensures var t := Write(t1, 1, first).0;
            1 < |t.table| && t.table[1].node.dblocks[1] == t1.table[1].node.dblocks[1]
  {
    hide Inv, Write;
    AppendDoes(t1, h, 1, first);
  }

  /** Writing to slot 1 succeeds and the file reads as it should, but block 0 holds the data, and no
      assignment of roles explains the disk. */
  ghost predicate RootLost(s: State, more: seq<byte>) {
    && |s.table| == FILETABLESIZE && WithinDirect(s.table[1], |more|) && |more| <= BLOCKSIZE
    && s.table[1].node.size + |more| <= DIRECT_LIMIT
    && var (t, r) := Write(s, 1, more);
       && r == |more| && 1 < |t.table|
       && WriteWhole.Refines(s, t, 1, s.table[1].node.size, more)
       && 0 < |t.blocks| && t.blocks[0] == Padded(more) && !Valid(t)
  }

  /** One more append: the file reads as it should, and the root is gone. */
  lemma AppendedToFullBlock(s: State, h: Ghost, more: seq<byte>)
    requires FullBlock(s, h) && 0 < |more| <= BLOCKSIZE
    requires EntryIn(Padded(more), 0).inode != 0 || EntryIn(Padded(more), 0).name != DOT
    ensures RootLost(s, more)
  {
    hide Inv, Write, WriteWhole.Refines, AppendSound;
    RootIsDir(s, h);
    TailIsZero(s);
    OwnBlockElsewhere(s, h);
    BoundaryContent(s, s.table[1], more);
    AppendExactly(s, h, 1, more);
    BoundaryExactly(s, s.table[1], more);
    BoundaryOverwritesDirectory(s, h, 1, more, 0);
    var t := Write(s, 1, more).0;
    forall h' | Inv(t, h') ensures false {
      RootIsDir(t, h');
    }
  }

  lemma RootIsDir(s: State, g: Ghost)
    requires Inv(s, g)
    ensures UsedDir(s.inodes, g.role, 0)
  {
  }

  lemma TailIsZero(s: State)
    requires |s.table| > 1 && s.table[1].node.size == BLOCKSIZE && s.table[1].node.dblocks[1] == 0
    ensures TailBlock(s.blocks, s.table[1].node) == 0
  {
    WriteWhole.TailOfEnd(s.blocks, s.table[1].node);
  }

  /** The file's only block is not block 0, which is the root's. */
  lemma OwnBlockElsewhere(s: State, h: Ghost)
    requires FullBlock(s, h)
    ensures s.table[1].node.dblocks[0] != 0 && 0 < |s.blocks|
  {
    hide Deeps, FreeInodes, Tree, Lasts, DirsMatch;
    WriteSteps.OpenRegFacts(s, h, 1);
    DirBlockOwned(s, h, 1, 0);
    assert OwnsAt(s.table[1].node, h.own, s.table[1].node.index, 0);
    assert InodeOk(s.inodes[0], 0, h.role[0]) && OwnsAll(s.inodes[0], h.own, 0);
    assert OwnsAt(s.inodes[0], h.own, 0, 0);
  }

  /** As written, on a fresh disk of any size: a file is created and filled with one block, both calls
      guarded. One more append then returns its length, and the file reads back right, but block 0 holds
      the data and no longer the root's entries: the disk is not valid any more, unless the data begins
      with the root's own "." entry. */
  lemma RootOverwritten(mb: nat, name: seq<byte>, first: seq<byte>, more: seq<byte>)
    requires 1 <= mb <= Format.MAX_MB && Plain(name) && |first| == BLOCKSIZE && 0 < |more| <= BLOCKSIZE
    requires EntryIn(Padded(more), 0).inode != 0 || EntryIn(Padded(more), 0).name != DOT
    ensures var ops := [FOpen(name, APPEND), FWrite(1, first)];
            && Valid(Format.FreshState(mb)) && Guarded(Format.FreshState(mb), AsWritten, ops)
            && var s := Run(Format.FreshState(mb), AsWritten, ops);
               Valid(s) && RootLost(s, more)
  {
    hide Format.FreshState, Walk.Opendir, Inv, Write, CreateFile, Guarded, Run, WriteGuard, Goes, RootLost, EntryIn;
    var s := Format.FreshState(mb);
    Format.FreshIsValid(mb);
    FirstStep(mb, name);
    FreshRootOpen(mb, name);
    FreshPointers(mb);
    var t, g := Scanned(mb), Format.FreshGhost(Format.InodeCount(mb), Format.DataBlocks(mb));
    FileFilled(t, g, name, first);
    var h := Birth.GhostAfterCreate(t, g, 0, name);
    var t1 := CreateFile(t, 0, name, APPEND);
    assert Valid(t1) by { assert Inv(t1, h); }
    WriteAndClose(t1, first);
    var u := Write(t1, 1, first).0;
    RunStarts(s, FOpen(name, APPEND), t1);
    assert [FOpen(name, APPEND)] + [FWrite(1, first)] == [FOpen(name, APPEND), FWrite(1, first)];
    RunGoesOn(s, [FOpen(name, APPEND)], t1, FWrite(1, first), u);
    assert Valid(u) by { assert Inv(u, h); }
    AppendedToFullBlock(u, h, more);
  }

  lemma FreshPointers(mb: nat)
    requires 1 <= mb <= Format.MAX_MB && |Walk.Opendir(Format.FreshState(mb), []).0.table| > 0
    ensures var t := Scanned(mb);
            && |t.table| > 0 && t.table[0].node.dblocks == Format.NO_BLOCKS && t.table[0].node.size == 2 * ENTRYSIZE
            && 0 <= t.sb.freeInode < |t.inodes| && t.inodes[t.sb.freeInode].dblocks == Format.NO_BLOCKS
  {
    hide Walk.Opendir, Format.NewBlocks, Format.NewBlock, Format.InodeCount, Format.DataBlocks;
    Session.FreshRoot(mb);
  }
}
