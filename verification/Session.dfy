/** The program as a whole: from a freshly formatted disk, any sequence of calls, carried out in
    place, ends in the state of the specification and keeps the invariant. */
module Session {
  import opened Bytes
  import opened Records
  import opened Operations
  import opened Paths
  import opened Walk
  import opened Transfer
  import opened Calls
  import opened Invariant
  import opened Guards
  import opened Runs
  import Conservation
  import Opendir
  import Listing
  import Format
  import GoTo
  import FileSystem
  import WriteSteps
  import WriteWhole
  import Reading
  import Intended

  /** The data of a call of `f_write` are laid out once. */
  lemma RepeatOnce(data: seq<byte>)
    ensures Repeat(data, 1) == data
  {
    assert Repeat(data, 0) == [];
  }

  /** What the invariant says for the methods. */
  lemma Ready(s: State)
    requires Valid(s)
    ensures |s.table| == FILETABLESIZE
  {
    hide Inv;
    var g :| Inv(s, g);
    GoTo.TableOkOf(s, g);
  }

  lemma RemovalStartsAtEntry(s: State, v: Variant, path: seq<byte>, stale: Block)
    requires Valid(s) && Guard(s, v, FRemove(path, stale))
    ensures FileSystem.FoundAtEntry(s, path)
  {
    hide Inv, Walk.Opendir;
    var g :| Inv(s, g);
    var toks := Tokens(path, SLASH_QUOTE);
    WalkKeeps(s, g, ParentPath(toks));
    var (t, e) := Walk.Opendir(s, ParentPath(toks));
    if e.Some? {
      DirFacts(t, g, DirSlot(t, e.value));
    }
  }

  /** One call. */
  method Perform(fs: FileSystem.FileSystem, v: Variant, op: Op)
    requires fs.Apart() && Valid(fs.View()) && Guard(fs.View(), v, op)
    modifies fs, fs.table, fs.inodes, fs.blocks
    ensures CanDo(old(fs.View()), v, op) && fs.View() == Step(old(fs.View()), v, op) && Valid(fs.View())
  {
    hide Inv, Valid, OpenPath, MkdirPath, RemovePath, Walk.Opendir, Intended.WriteIn, Listing.Readdir, OpenGuard, MkdirGuard, RemoveGuard, Forged;
    ghost var s := fs.View();
    Ready(s);
    StepKeeps(s, v, op);
    match op {
      case FOpen(path, access) =>
        OpenPathReady(s, v, path, access);
        var fd := fs.OpenFile(path, access);
      case FMkdir(path) =>
        MkdirPathReady(s, v, path);
        var e := fs.MakeDirectory(v, path);
      case FRemove(path, stale) =>
        RemovePathReady(s, v, path, stale);
        RemovalStartsAtEntry(s, v, path, stale);
        var ok := fs.RemoveFile(v, path, stale);
      case FWrite(fd, data) =>
        RepeatOnce(data);
        var r := fs.WriteFileIn(v, fd, data, 1);
      case FClose(fd) =>
        var ok := fs.CloseFile(fd);
      case FOpendir(path) =>
        var e := fs.OpenDir(path);
      case FSeek(fd, offset, whence) =>
        var ok := fs.SeekFile(fd, offset, whence);
      case FReaddir(fd) =>
        ReaddirReady(s, fd);
        var e := fs.ReadDir(fd);
    }
  }

  lemma ReaddirReady(s: State, fd: int)
    requires Valid(s) && Guard(s, AsWritten, FReaddir(fd))
    ensures ValidFd(fd) ==> Listing.AtEntry(s.table[fd])
  {
    hide Inv;
    var g :| Inv(s, g);
    ReaddirKeeps(s, g, fd);
  }

  lemma OpenPathReady(s: State, v: Variant, path: seq<byte>, access: Access)
    requires Valid(s) && Guard(s, v, FOpen(path, access))
    ensures CanOpen(s, path, access) && Opendir.RoomToWalk(s.inodes, s.table)
  {
    hide Inv;
    var g :| Inv(s, g);
    var h := OpenPathKeeps(s, g, path, access);
  }

  lemma MkdirPathReady(s: State, v: Variant, path: seq<byte>)
    requires Valid(s) && Guard(s, v, FMkdir(path))
    ensures CanMkdir(s, path) && Opendir.RoomToWalk(s.inodes, s.table)
  {
    hide Inv;
    var g :| Inv(s, g);
    var h := MkdirPathKeeps(s, g, v, path);
  }

  lemma RemovePathReady(s: State, v: Variant, path: seq<byte>, stale: Block)
    requires Valid(s) && Guard(s, v, FRemove(path, stale))
    ensures CanRemovePath(s, v, path) && Opendir.RoomToWalk(s.inodes, s.table)
  {
    hide Inv;
    var g :| Inv(s, g);
    var h := RemovePathKeeps(s, g, v, path, stale);
  }

  /** A sequence of calls. */
  method PerformAll(fs: FileSystem.FileSystem, v: Variant, ops: seq<Op>)
    requires fs.Apart() && Valid(fs.View()) && Guarded(fs.View(), v, ops)
    modifies fs, fs.table, fs.inodes, fs.blocks
    ensures fs.View() == Run(old(fs.View()), v, ops) && Valid(fs.View())
  {
    hide Inv, Valid, Guard, Step, CanDo, Loss, LostBlocks, RunLoss, FileSystem.FileSystem.Apart;
    ghost var s := fs.View();
    RunKeeps(s, v, ops);
    var k := 0;
    while k < |ops|
      invariant 0 <= k <= |ops| && Valid(fs.View()) && Guarded(fs.View(), v, ops[k..])
      invariant Run(fs.View(), v, ops[k..]) == Run(s, v, ops)
    {
      assert ops[k..][0] == ops[k] && ops[k..][1..] == ops[k + 1..];
      StepKeeps(fs.View(), v, ops[k]);
      Perform(fs, v, ops[k]);
      k := k + 1;
    }
    assert ops[k..] == [];
  }

  /** From formatting on. */
  method FormatAndRun(mb: nat, v: Variant, ops: seq<Op>) returns (fs: FileSystem.FileSystem)
    requires 1 <= mb <= Format.MAX_MB && Valid(Format.FreshState(mb)) && Guarded(Format.FreshState(mb), v, ops)
    ensures fresh(fs) && fs.View() == Run(Format.FreshState(mb), v, ops) && Valid(fs.View())
  {
    hide Inv, Valid, Guard, Step, Format.FreshState;
    var disk, ok := Format.FormatDisk(mb);
    fs := new FileSystem.FileSystem(disk);
    assert ops[0..] == ops;
    PerformAll(fs, v, ops);
  }

  /** Every run from a formatted disk, of either variant, ends in a valid state. Every block is then on
      the free list once, or in one file as a data or an index block, or is one of the blocks that calls
      of the run have lost; repaired, no call loses one. */
  lemma RunsFromFormat(mb: nat, v: Variant, ops: seq<Op>)
    requires 1 <= mb <= Format.MAX_MB
    ensures Valid(Format.FreshState(mb)) && NoneLost(Format.FreshState(mb))
    ensures Guarded(Format.FreshState(mb), v, ops) ==>
              var t := Run(Format.FreshState(mb), v, ops);
              && Valid(t) && LostBlocks(t) == RunLoss(Format.FreshState(mb), v, ops)
              && (NoneLost(t) <==> RunLoss(Format.FreshState(mb), v, ops) == {})
              && (v.Repaired? ==> NoneLost(t))
  {
    hide Inv, Guarded, Run, RunLoss, Format.FreshState, Invariant.LostSet, LostBlocks, Format.FreshGhost;
    Format.FreshIsValid(mb);
    var s := Format.FreshState(mb);
    NoneLostIs(s);
    if Guarded(s, v, ops) {
      RunKeeps(s, v, ops);
      NoneLostExactly(s, v, ops);
    }
  }

  /** So, repaired, free blocks + blocks of the inodes in use = data blocks after every run. */
  lemma RepairedRunsConserve(mb: nat, ops: seq<Op>, g: Ghost)
    requires 1 <= mb <= Format.MAX_MB && Valid(Format.FreshState(mb)) && Guarded(Format.FreshState(mb), Repaired, ops)
    requires Inv(Run(Format.FreshState(mb), Repaired, ops), g)
    ensures var t := Run(Format.FreshState(mb), Repaired, ops);
            && |g.role| == |t.inodes|
            && |g.fb| + Conservation.SumOwned(t.inodes, g.role, |t.inodes|) == |t.blocks|
            && Invariant.FreeSet(g.own) + Conservation.OwnedBelow(g.own, |t.inodes|) == Conservation.Numbers(|t.blocks|)
  {
    hide Inv, Guarded, Run, Format.FreshState;
    RunsFromFormat(mb, Repaired, ops);
    AllAccountedFor(Run(Format.FreshState(mb), Repaired, ops), g);
  }

  /** The root of a fresh disk after it has been opened. */
  lemma FreshRoot(mb: nat)
    requires 1 <= mb <= Format.MAX_MB
    ensures Format.InodeCount(mb) >= 2 && Format.DataBlocks(mb) >= 2
    ensures var s := Format.FreshState(mb);
            var (t, e) := Walk.Opendir(s, []);
            && |s.table| == FILETABLESIZE && Opendir.RoomToWalk(s.inodes, s.table) && e == Some(ROOT_ENTRY) && DirSlot(t, ROOT_ENTRY) == 0
            && t == s.(table := t.table, freehead := t.freehead) && |t.table| == FILETABLESIZE
            && !t.table[0].free && t.table[0].node == Format.NewInode(0, Format.InodeCount(mb)) && t.freehead == 1
            && (forall u :: 0 < u < FILETABLESIZE ==> t.table[u].free)
  {
    hide Format.NewBlocks, Format.NewBlock, Format.InodeCount, Format.DataBlocks;
    Format.FreshIsValid(mb);
    var s := Format.FreshState(mb);
    var base := WithRoot(s.inodes, s.table);
    assert base[1].free;
    assert Tokens([], SLASH_QUOTE) == [];
  }

  /** The guards are no empty promise: on a fresh disk of any size a file or a directory of any name
      can be created. */
  lemma FirstCalls(mb: nat, v: Variant, name: seq<byte>, access: Access)
    requires 1 <= mb <= Format.MAX_MB && NameOk(name) && Clean(name, SLASH_ONLY)
    ensures Guard(Format.FreshState(mb), v, FOpen(name, access))
    ensures Guard(Format.FreshState(mb), v, FMkdir(name))
  {
    hide Format.FreshState, Walk.Opendir, RawEntries, DirEntry;
    OneToken(name, SLASH_ONLY);
    FreshRoot(mb);
    var s := Format.FreshState(mb);
    assert ParentPath([name]) == [];
    assert Tokens([], SLASH_QUOTE) == [];
    var (t, e) := Walk.Opendir(s, []);
    FreshRoom(mb, t);
    FreshDots(mb, t, name);
  }

  lemma FreshRoom(mb: nat, t: State)
    requires 1 <= mb <= Format.MAX_MB && |t.table| == FILETABLESIZE && Format.InodeCount(mb) >= 2 && Format.DataBlocks(mb) >= 2
    requires t == Format.FreshState(mb).(table := t.table, freehead := t.freehead)
    requires t.table[0].node == Format.NewInode(0, Format.InodeCount(mb))
    ensures RoomFor(t, 0) && 0 <= t.sb.freeInode < |t.inodes| && t.table[0].node.size % BLOCKSIZE != 0 && t.table[0].node.kind == DIR
  {
    hide Format.NewBlock, Format.InodeCount, Format.DataBlocks;
    assert ListAtLeast(t.blocks, Link(t.blocks[1]), 0);
    assert ListAtLeast(t.blocks, t.sb.freeBlock, 1);
  }

  /** No regular file is found there. */
  lemma FreshDots(mb: nat, t: State, name: seq<byte>)
    requires 1 <= mb <= Format.MAX_MB && |t.table| == FILETABLESIZE && Format.InodeCount(mb) >= 2 && Format.DataBlocks(mb) >= 2
    requires t == Format.FreshState(mb).(table := t.table, freehead := t.freehead)
    requires t.table[0].node == Format.NewInode(0, Format.InodeCount(mb))
    ensures var es := RawEntries(t.blocks, t.table[0].node); FirstRegular(t.inodes, es, 0, name) == |es|
  {
    hide Format.InodeCount, Format.DataBlocks, DirEntry, EntryIn;
    var es := RawEntries(t.blocks, t.table[0].node);
    Format.Sizes(mb);
    Format.NewBlockPasses(0, Format.DataBlocks(mb));
    assert es[0] == DirEntry(t.blocks, t.table[0].node, 0) && es[1] == DirEntry(t.blocks, t.table[0].node, 1);
    DotsAreRoot(t.blocks, t.table[0].node);
  }

  lemma DotsAreRoot(blocks: seq<Block>, node: Inode)
    requires SizeOk(node) && Count(node) == 2 && node.dblocks[0] == 0 && |blocks| > 0
    requires EntryIn(blocks[0], 0).inode == 0 && EntryIn(blocks[0], 1).inode == 0
    ensures DirEntry(blocks, node, 0).inode == 0 && DirEntry(blocks, node, 1).inode == 0
  {
  }

  // ---- write, then read ----

  /** Data that was written where it belongs is what a later read of that part of the file returns,
      through whatever slot that is open for reading and then holds the file, if the read is one that
      `f_read` answers in full. The call succeeds. */
  lemma WrittenIsRead(s: State, g: Ghost, fd: nat, data: seq<byte>, from: nat, size: nat, u: State, x: nat)
    requires WriteWhole.CanWrite(s, g, fd, data) && !WriteWhole.RefusesWrite(s, s.table[fd], |data|)
    requires WriteWhole.WriteSound(s, s.table[fd], |data|)
    requires 0 < size && from + size <= |data|
    requires (s.table[fd].offset + from) % BLOCKSIZE + size < BLOCKSIZE
    requires fd < |Write(s, fd, data).0.table| && ValidFd(x) && |u.table| == FILETABLESIZE
    requires var t := Write(s, fd, data).0;
             u.blocks == t.blocks && u.table[x].node == t.table[fd].node && u.table[x].offset == s.table[fd].offset + from
    requires u.table[x].access == READ || u.table[x].access == READANDWRITE
    ensures 0 <= u.table[x].offset && ReadCall(u, x, size, 1) == (data[from..from + size], size)
  {
    hide Inv, Write, WriteWhole.WriteSound, WriteWhole.RefusesWrite, Read, WriteSteps.BytesWritten, ByteAt, FileBytes, WriteSteps.Writing;
    WriteWhole.WriteExactly(s, g, fd, data);
    var t := Write(s, fd, data).0;
    var h := WriteWhole.WriteDoes(s, g, fd, data);
    var at, slot := s.table[fd].offset, u.table[x];
    WriteWhole.RefinedContents(s, t, fd, at, data);
    Intended.ContentsAreBytes(t.blocks, slot.node);
    Reading.ReadExactly(t.blocks, slot, size, 1);
    AllowedExactly(slot, size, 1);
    var before := FileBytes(s.blocks, s.table[fd].node);
    Intended.MiddleOf(before[..at], data, [], FileBytes(t.blocks, t.table[fd].node), from, size);
  }
}
