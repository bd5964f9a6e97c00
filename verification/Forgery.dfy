/** A run that makes `f_opendir` find what is not there: the bytes written to a regular file are
    those of a directory entry. */
module Forgery {
  import opened Bytes
  import opened Records
  import opened Operations
  import opened Paths
  import opened Walk
  import opened Transfer
  import opened Calls
  import opened Invariant
  import opened Guards
  import opened Runs
  import opened Session
  import opened Absolute
  import Opendir
  import Birth
  import Cycle
  import Format
  import Appending

  /** Two tokens, the first the name of a file in the root, the second of an entry in its bytes. */
  lemma FollowIntoFile(s: State, g: Ghost, j: nat, name: seq<byte>, e: Entry)
    requires Inv(s, g) && |g.dirs| == |s.inodes| && 0 < j < |s.inodes| && s.inodes[j].kind == REG && s.inodes[j].index == j
    requires var es := g.dirs[0]; |es| == 3 && es[0].name != name && es[1].name != name && es[2].name == name && es[2].inode == j
    requires RawEntries(s.blocks, s.inodes[j]) == [e]
    ensures Follow(s.inodes, s.blocks, 0, [name, e.name], ROOT_ENTRY) == Some(e)
    ensures Lookup(s.inodes, s.blocks, 0, [name, e.name], ROOT_ENTRY) == None
  {
    hide FreeInodes, FreeBlocks, Owners, Deeps, Lasts, DirsMatch, Tree, TableOk, RawEntries;
    Opendir.RootInUse(s, g);
    EntriesOfDir(s, g, 0);
    var es := g.dirs[0];
    assert FirstNamed(es, 0, name) == 2;
    assert [name, e.name][1..] == [e.name] && [e.name][1..] == [];
    assert FirstNamed([e], 0, e.name) == 0;
    IntoFile(s.inodes, s.blocks, j, e, es[2]);
    assert ReadInode(s.inodes, 0).kind == DIR && ReadInode(s.inodes, j).index == j;
  }

  lemma IntoFile(inodes: seq<Inode>, blocks: seq<Block>, j: nat, e: Entry, found: Entry)
    requires j < |inodes| && inodes[j].kind == REG && RawEntries(blocks, inodes[j]) == [e]
    ensures Follow(inodes, blocks, j, [e.name], found) == Some(e)
    ensures Lookup(inodes, blocks, j, [e.name], found) == None
  {
    assert [e.name][1..] == [];
    assert FirstNamed([e], 0, e.name) == 0;
  }

  /** A file whose 64 bytes are those of an entry has that entry. */
  lemma BytesAreEntry(blocks: seq<Block>, node: Inode, e: Entry)
    requires NameOk(e.name) && node.size == ENTRYSIZE
    requires forall q :: 0 <= q < ENTRYSIZE ==> ByteAt(blocks, node, q) == EntryBytes(e)[q]
    ensures RawEntries(blocks, node) == [e]
  {
    var b := GetBlock(blocks, node.dblocks[0]);
    forall q | 0 <= q < ENTRYSIZE ensures b[q] == EntryBytes(e)[q] {
      assert ByteAt(blocks, node, q) == EntryBytes(e)[q];
    }
    assert b[0..ENTRYSIZE] == EntryBytes(e);
    EntryRoundTrip(e, EntryBytes(e));
    assert DirEntry(blocks, node, 0) == e;
  }

  /** A file is created, one entry is written to it, and it is closed. */
  function ForgingRun(name: seq<byte>, e: Entry): seq<Op>
    requires |e.name| < FILENAMEMAX
  {
    [FOpen(name, APPEND), FWrite(1, EntryBytes(e)), FClose(1)]
  }

  /** Names that are one token each. */
  predicate Plain(name: seq<byte>) {
    NameOk(name) && Clean(name, SLASH_QUOTE) && name != DOT && name != DOTDOT
  }

  /** The root of a fresh disk is open in slot 0, and nothing else is. */
  ghost predicate RootOpen(t: State, g: Ghost, name: seq<byte>) {
    && Cycle.CanOpenNew(t, g, 0, name) && t.freehead == 1 && |t.table| == FILETABLESIZE && t.table[0].node.index == 0
    && |g.dirs| == |t.inodes| && |g.dirs[0]| == 2 && g.dirs[0][0].name == DOT && g.dirs[0][1].name == DOTDOT
    && forall u :: 0 < u < FILETABLESIZE ==> t.table[u].free
  }

  /** The file is there, and its only entry is read back from its bytes. */
  lemma FileForged(t: State, g: Ghost, name: seq<byte>, e: Entry)
    requires RootOpen(t, g, name) && Plain(name) && NameOk(e.name)
    ensures CanAddTo(t, 0, name)
    ensures var t1 := CreateFile(t, 0, name, APPEND);
            var data := EntryBytes(e);
            && |t1.table| == FILETABLESIZE && Inv(t1, Birth.GhostAfterCreate(t, g, 0, name))
            && WriteGuard(t1, 1, data) && WithinDirect(t1.table[1], |data|)
            && !t1.table[1].free && t1.table[1].access == APPEND && t1.table[1].node.kind == REG
            && var u := Close(Write(t1, 1, data).0, 1);
               Inv(u, Birth.GhostAfterCreate(t, g, 0, name))
               && Opendir.RoomToWalk(u.inodes, u.table)
               && Follow(u.inodes, u.blocks, 0, [name, e.name], ROOT_ENTRY) == Some(e)
               && Lookup(u.inodes, u.blocks, 0, [name, e.name], ROOT_ENTRY) == None
  {
    hide Inv, CreateFile, Write, WithNewEntry, Follow, Lookup, RawEntries;
    Cycle.CreatePlaces(t, g, 0, name, APPEND);
    Cycle.CreateGivesRoles(t, g, 0, name);
    Birth.CreateKeeps(t, g, 0, name, APPEND);
    var t1, h := CreateFile(t, 0, name, APPEND), Birth.GhostAfterCreate(t, g, 0, name);
    var data := EntryBytes(e);
    Appending.AppendFits(t1, h, 1, data);
    Cycle.WriteOnlyFile(t1, 1, data);
    var t2 := Write(t1, 1, data).0;
    CloseKeeps(t2, h, 1);
    var u := Close(t2, 1);
    assert u.table[1].free;
    FileOnDisk(t2, h, 1);
    BytesAreEntry(u.blocks, t2.table[1].node, e);
    Cycle.SameLengths(u, h);
    FollowIntoFile(u, h, t.sb.freeInode, name, e);
  }

  /** The copy in an open slot is the inode on disk. */
  lemma FileOnDisk(s: State, g: Ghost, fd: nat)
    requires Inv(s, g) && fd < |s.table| && !s.table[fd].free
    ensures 0 <= s.table[fd].node.index < |s.inodes| && s.table[fd].node == s.inodes[s.table[fd].node.index]
    ensures s.table[fd].node.kind == REG ==> s.table[fd].node.index != 0
  {
    assert SlotOk(s.table[fd], s.inodes, g.role);
  }

  /** The root as `f_open` leaves it when it has not found the name. */
  function Scanned(mb: nat): State
    requires 1 <= mb <= Format.MAX_MB && |Walk.Opendir(Format.FreshState(mb), []).0.table| > 0
  {
    WithOffset(Walk.Opendir(Format.FreshState(mb), []).0, 0, 2 * ENTRYSIZE)
  }

  lemma FreshRootOpen(mb: nat, name: seq<byte>)
    requires 1 <= mb <= Format.MAX_MB && NameOk(name)
    ensures |Walk.Opendir(Format.FreshState(mb), []).0.table| > 0
    ensures Format.InodeCount(mb) >= 2 && Format.DataBlocks(mb) >= 2
    ensures RootOpen(Scanned(mb), Format.FreshGhost(Format.InodeCount(mb), Format.DataBlocks(mb)), name)
  {
    hide Format.FreshState, Walk.Opendir, Disk, FreeInodes, Tree;
    FreshRoot(mb);
    Format.FreshIsValid(mb);
    var s, g := Format.FreshState(mb), Format.FreshGhost(Format.InodeCount(mb), Format.DataBlocks(mb));
    assert Tokens([], SLASH_QUOTE) == [];
    NoFilePassedByRoot(s.inodes, s.blocks);
    WalkKeeps(s, g, []);
    var t := Walk.Opendir(s, []).0;
    FreshRoom(mb, t);
    DirFacts(t, g, 0);
    OffsetKeeps(t, g, 0, 2 * ENTRYSIZE);
    var u := Scanned(mb);
    assert u.table[0].node == t.table[0].node;
    RoomIsRoom(u, g, 0, name);
    Cycle.SameLengths(u, g);
  }

  lemma NoFilePassedByRoot(inodes: seq<Inode>, blocks: seq<Block>)
    ensures !Forged(inodes, blocks, 0, [])
  {
  }

  /** The first call opens the root and creates the file in it. */
  lemma FirstStep(mb: nat, name: seq<byte>)
    requires 1 <= mb <= Format.MAX_MB && Plain(name) && Valid(Format.FreshState(mb))
    ensures |Walk.Opendir(Format.FreshState(mb), []).0.table| > 0 && CanAddTo(Scanned(mb), 0, name) && Scanned(mb).freehead == 1
    ensures |Scanned(mb).table| == FILETABLESIZE
    ensures Goes(Format.FreshState(mb), FOpen(name, APPEND), CreateFile(Scanned(mb), 0, name, APPEND))
  {
    hide Format.FreshState, Walk.Opendir, Inv, CreateFile, RawEntries, Valid, Guard;
    FirstCalls(mb, AsWritten, name, APPEND);
    FreshRoot(mb);
    FreshRootOpen(mb, name);
    var s := Format.FreshState(mb);
    var t := Walk.Opendir(s, []).0;
    OneToken(name, SLASH_ONLY);
    assert ParentPath([name]) == [];
    FreshDots(mb, t, name);
    FreshCount(mb, t);
    Birth.HeadInode(Scanned(mb), Format.FreshGhost(Format.InodeCount(mb), Format.DataBlocks(mb)), 0, name);
    GuardSuffices(s, AsWritten, FOpen(name, APPEND));
  }

  lemma FreshCount(mb: nat, t: State)
    requires 1 <= mb <= Format.MAX_MB && |t.table| == FILETABLESIZE
    requires t.table[0].node == Format.NewInode(0, Format.InodeCount(mb))
    ensures |RawEntries(t.blocks, t.table[0].node)| == 2
  {
  }

  /** The other two calls. */
  lemma WriteAndClose(t: State, data: seq<byte>)
    requires Valid(t) && |t.table| == FILETABLESIZE && WriteGuard(t, 1, data) && WithinDirect(t.table[1], |data|)
    requires !t.table[1].free && t.table[1].access == APPEND && t.table[1].node.kind == REG
    ensures |Write(t, 1, data).0.table| == FILETABLESIZE
    ensures Goes(t, FWrite(1, data), Write(t, 1, data).0)
    ensures Goes(Write(t, 1, data).0, FClose(1), Close(Write(t, 1, data).0, 1))
  {
    hide Inv, Write, WriteGuard, Valid;
    Cycle.WriteOnlyFile(t, 1, data);
    GuardSuffices(t, AsWritten, FWrite(1, data));
    StepKeeps(t, AsWritten, FWrite(1, data));
  }

  /** As written, on a fresh disk of any size: after three guarded calls `f_opendir` of a path through
      the file returns the entry that was written there, although the tree has no such path. */
  lemma ForgedFile(mb: nat, name: seq<byte>, e: Entry)
    requires 1 <= mb <= Format.MAX_MB && Plain(name) && Plain(e.name)
    ensures Valid(Format.FreshState(mb)) && Guarded(Format.FreshState(mb), AsWritten, ForgingRun(name, e))
    ensures var s := Run(Format.FreshState(mb), AsWritten, ForgingRun(name, e));
            var path := PathString([name, e.name]);
            && Valid(s) && Opendir.RoomToWalk(s.inodes, s.table)
            && Walk.Opendir(s, path).1 == Some(e)
            && Lookup(s.inodes, s.blocks, 0, Tokens(path, SLASH_QUOTE), ROOT_ENTRY) == None
  {
    hide Format.FreshState, Walk.Opendir, Inv, Write, CreateFile, Follow, Lookup, OpenPath, Guarded, Run, WriteGuard, Goes;
    var s, data := Format.FreshState(mb), EntryBytes(e);
    Format.FreshIsValid(mb);
    FirstStep(mb, name);
    FreshRootOpen(mb, name);
    var t, g := Scanned(mb), Format.FreshGhost(Format.InodeCount(mb), Format.DataBlocks(mb));
    FileForged(t, g, name, e);
    var h := Birth.GhostAfterCreate(t, g, 0, name);
    var t1 := CreateFile(t, 0, name, APPEND);
    assert Valid(t1) by { assert Inv(t1, h); }
    WriteAndClose(t1, data);
    var u := Close(Write(t1, 1, data).0, 1);
    RunStarts(s, FOpen(name, APPEND), t1);
    assert [FOpen(name, APPEND)] + [FWrite(1, data)] == [FOpen(name, APPEND), FWrite(1, data)];
    RunGoesOn(s, [FOpen(name, APPEND)], t1, FWrite(1, data), Write(t1, 1, data).0);
    assert [FOpen(name, APPEND), FWrite(1, data)] + [FClose(1)] == ForgingRun(name, e);
    RunGoesOn(s, [FOpen(name, APPEND), FWrite(1, data)], Write(t1, 1, data).0, FClose(1), u);
    TokensOfPath([name, e.name], SLASH_QUOTE);
    Opendir.OpendirExactly(u, h, PathString([name, e.name]));
    assert Valid(u) by { assert Inv(u, h); }
  }
}
