/** Every run of calls keeps the disk invariant, as long as each call meets its guard. */
module Runs {
  import opened Bytes
  import opened Records
  import opened Operations
  import opened Paths
  import opened Walk
  import opened Transfer
  import opened Calls
  import opened Invariant
  import opened Guards
  import Birth
  import Conservation
  import Release
  import Deletion
  import WriteSteps
  import WriteWhole
  import Appending
  import Intended
  import Listing

  // ---- f_mkdir ----

  /** `f_mkdir` in the directory open in slot p: nothing is lost. */
  lemma MkdirInKeeps(t: State, g: Ghost, v: Variant, e: Entry, name: seq<byte>) returns (h: Ghost)
    requires AtDir(t, g, e) && MkdirGuard(t, v, DirSlot(t, e), name)
    ensures t.sb.freeInode != -1 ==> CanAddTo(t, DirSlot(t, e), name)
    ensures Inv(MkdirIn(t, v, DirSlot(t, e), name), h) && LostSet(h.own) == LostSet(g.own)
  {
    hide Disk, FreeInodes, Tree, MakeDir, CanAddTo, LostSet;
    var p := DirSlot(t, e);
    if t.sb.freeInode != -1 {
      RoomIsRoom(t, g, p, name);
      Birth.MakeDirKeepsRest(t, g, v, p, name);
      Birth.CreateLosesNothing(t, g, p, name);
      h := Birth.GhostAfterCreate(t, g, p, name);
    } else {
      h := g;
    }
  }

  // ---- f_remove ----

  /** The entry that is found names something that can be removed. */
  lemma FoundCanGo(t: State, g: Ghost, v: Variant, p: nat, k: nat)
    requires Inv(t, g) && p < |t.table| && !t.table[p].free && t.table[p].node.kind == DIR
    requires SizeOk(t.table[p].node) && k < Count(t.table[p].node)
    requires var e := Entries(t.blocks, t.table[p].node)[k];
             && e.name != DOT && e.name != DOTDOT
             && SlotOf(t.table, e.inode) == -1 && CanRelease(v, ReadInode(t.inodes, e.inode))
             && (ReadInode(t.inodes, e.inode).kind == DIR ==> ReadInode(t.inodes, e.inode).size == 2 * ENTRYSIZE)
    ensures Deletion.Removable(t, g, v, p, k)
    ensures Deletion.Victim(t, g, p, k) == Entries(t.blocks, t.table[p].node)[k].inode
  {
    hide Disk, FreeInodes, Tree;
    DirFacts(t, g, p);
    EntryFacts(t, g, p, k);
  }

  /** The blocks that `f_remove` of this name loses: of a file that is removed while empty, as written,
      the one that `f_open` gave it. */
  function RemoveLoss(t: State, v: Variant, p: nat, name: seq<byte>): set<int>
    requires CanRemoveFrom(t, v, p, name)
  {
    var es := Entries(t.blocks, t.table[p].node);
    var k := FirstNamed(es, ScanStart(t, v, p), name);
    if k < |es| && SlotOf(t.table, t.inodes[es[k].inode].index) == -1 then Deletion.Unreturned(v, t.inodes[es[k].inode]) else {}
  }

  lemma CanRemoveThere(t: State, g: Ghost, v: Variant, p: nat, name: seq<byte>, stale: Block)
    requires Inv(t, g) && p < |t.table| && !t.table[p].free && RemoveGuard(t, v, p, name, stale)
    ensures CanRemoveFrom(t, v, p, name)
  {
    hide Disk, FreeInodes, Tree, Release.LinksKept;
    DirFacts(t, g, p);
    var es := Entries(t.blocks, t.table[p].node);
    forall k | 0 <= k < |es| ensures |es[k].name| < FILENAMEMAX {
      EntryFacts(t, g, p, k);
    }
    var k := FirstNamed(es, ScanStart(t, v, p), name);
    if k < |es| {
      EntryFacts(t, g, p, k);
    }
  }

  /** `f_remove` in the directory open in slot p: what it loses. */
  lemma RemoveInKeeps(t: State, g: Ghost, v: Variant, e: Entry, name: seq<byte>, stale: Block) returns (h: Ghost)
    requires AtDir(t, g, e) && RemoveGuard(t, v, DirSlot(t, e), name, stale)
    ensures CanRemoveFrom(t, v, DirSlot(t, e), name)
    ensures Inv(RemoveName(t, v, DirSlot(t, e), name, stale).0, h)
    ensures LostSet(h.own) == LostSet(g.own) + RemoveLoss(t, v, DirSlot(t, e), name)
  {
    hide Disk, FreeInodes, Tree, ReleaseFile, DropEntry, DirEntry, Release.LinksKept, LostSet, Deletion.Unreturned, Deletion.GhostAfterRemove;
    var p := DirSlot(t, e);
    CanRemoveThere(t, g, v, p, name, stale);
    DirFacts(t, g, p);
    var es := Entries(t.blocks, t.table[p].node);
    var k := FirstNamed(es, ScanStart(t, v, p), name);
    h := g;
    if k == |es| {
      OffsetKeeps(t, g, p, ENTRYSIZE * |es|);
    } else {
      EntryFacts(t, g, p, k);
      if SlotOf(t.table, es[k].inode) != -1 {
        OffsetKeeps(t, g, p, ENTRYSIZE * (k + 1));
      } else {
        FoundCanGo(t, g, v, p, k);
        Deletion.RemoveKeeps(t, g, v, p, k, stale);
        h := Deletion.GhostAfterRemove(t, g, v, p, k);
      }
    }
  }

  // ---- calls by descriptor ----

  /** The blocks that `f_write` loses: as written, the partly filled last block that writing on at the
      end of a file replaces. */
  function WriteLoss(s: State, v: Variant, fd: int, data: seq<byte>): set<int>
    requires ValidFd(fd) && |s.table| == FILETABLESIZE
  {
    var slot := s.table[fd];
    if v.Repaired? || slot.free || slot.access == READ || slot.access == APPEND || slot.node.kind != REG then {}
    else if !WithinDirect(slot, |data|) || WriteWhole.RefusesWrite(s, slot, |data|) || !WriteWhole.ReplacesBlock(slot) then {}
    else {WriteWhole.ReplacedBlock(slot)}
  }

  lemma WriteCallKeeps(s: State, g: Ghost, fd: int, data: seq<byte>) returns (h: Ghost)
    requires Inv(s, g) && ValidFd(fd) && WriteGuard(s, fd, data)
    ensures Inv(WriteCall(s, fd, data).0, h) && LostSet(h.own) == LostSet(g.own) + WriteLoss(s, AsWritten, fd, data)
  {
    hide Disk, FreeInodes, Tree, Write, LostSet, WriteWhole.Written;
    var slot := s.table[fd];
    h := g;
    if slot.free || slot.access == READ || slot.node.kind != REG {
      assert Inv(s, g);
    } else {
      WriteSteps.OpenRegFacts(s, g, fd);
      if slot.access == APPEND {
        Appending.AppendFits(s, g, fd, data);
      } else if WriteWhole.RefusesWrite(s, slot, |data|) {
        WriteRefused(s, fd, data);
        assert Inv(s, g);
      } else {
        FreeCount(s, g, BlocksWanted(slot, |data|));
        h := WriteWhole.WriteKeeps(s, g, fd, data);
        LostByWrite(s, g, fd, data, Write(s, fd, data).0, h);
      }
    }
  }

  /** Which block is lost, in terms of sets. */
  lemma LostByWrite(s: State, g: Ghost, fd: nat, data: seq<byte>, t: State, h: Ghost)
    requires WriteWhole.CanWrite(s, g, fd, data) && WriteWhole.Written(s, g, fd, data, t, h)
    ensures LostSet(h.own) == LostSet(g.own) + if WriteWhole.ReplacesBlock(s.table[fd]) then {WriteWhole.ReplacedBlock(s.table[fd])} else {}
  {
    hide Disk, FreeInodes, Tree;
    WriteSteps.OpenRegFacts(s, g, fd);
    var slot := s.table[fd];
    if WriteWhole.ReplacesBlock(slot) {
      WriteSteps.BlocksMonotone(slot.offset, slot.node.size);
      assert OwnsAt(slot.node, g.own, slot.node.index, slot.offset / BLOCKSIZE);
    }
  }

  lemma WriteInKeeps(s: State, g: Ghost, v: Variant, fd: int, data: seq<byte>) returns (h: Ghost)
    requires Inv(s, g) && Guard(s, v, FWrite(fd, data))
    ensures Inv(Intended.WriteIn(s, v, fd, data).0, h) && LostSet(h.own) == LostSet(g.own) + WriteLoss(s, v, fd, data)
  {
    hide Disk, FreeInodes, Tree, Write, Intended.IntendedWrite, Intended.PutAll, Intended.BlocksWith, LostSet, WriteLoss;
    var slot := s.table[fd];
    h := g;
    NothingLost(s, fd, data);
    if v.AsWritten? {
      h := WriteCallKeeps(s, g, fd, data);
    } else if slot.free || slot.access == READ || slot.node.kind != REG {
      assert Inv(s, g);
    } else {
      Intended.OpenPlanted(s, g, fd);
      FreeCount(s, g, BlocksToGrow(slot, |data|));
      h := Intended.IntendedWriteRefines(s, g, fd, data);
      SameLost(g, h, slot.node.index);
    }
  }

  lemma NothingLost(s: State, fd: int, data: seq<byte>)
    requires ValidFd(fd) && |s.table| == FILETABLESIZE
    ensures WriteLoss(s, Repaired, fd, data) == {}
  {
  }

  lemma SameLost(g: Ghost, h: Ghost, i: int)
    requires WriteSteps.RolesKept(g, h, i)
    ensures LostSet(h.own) == LostSet(g.own)
  {
  }

  lemma ReaddirKeeps(s: State, g: Ghost, fd: int)
    requires Inv(s, g) && Guard(s, AsWritten, FReaddir(fd))
    ensures ValidFd(fd) ==> Listing.AtEntry(s.table[fd])
    ensures Inv(Listing.Readdir(s, fd).0, g)
  {
    hide Disk, FreeInodes, Tree, Entries, Listing.EntryAt, WalkGuard, OpenGuard, MkdirGuard, RemoveGuard, WriteGuard;
    if ValidFd(fd) {
      DirFacts(s, g, fd);
      if s.table[fd].node.size - s.table[fd].offset >= ENTRYSIZE {
        OffsetKeeps(s, g, fd, s.table[fd].offset + ENTRYSIZE);
      }
    }
  }

  lemma WriteRefused(s: State, fd: nat, data: seq<byte>)
    requires fd < |s.table| && WithinDirect(s.table[fd], |data|) && WriteWhole.RefusesWrite(s, s.table[fd], |data|)
    ensures Write(s, fd, data) == (s, -1)
  {
  }

  lemma CloseKeeps(s: State, g: Ghost, fd: int)
    requires Inv(s, g) && |s.table| == FILETABLESIZE
    ensures Inv(Close(s, fd), g)
  {
    hide FreeInodes, FreeBlocks, Owners, Deeps, Lasts, DirsMatch, Tree, InodesOk;
    var t := Close(s, fd);
    forall u | 0 <= u < |t.table| ensures SlotOk(t.table[u], t.inodes, g.role) {
      assert SlotOk(s.table[u], s.inodes, g.role);
    }
  }

  lemma SeekKeeps(s: State, g: Ghost, fd: int, offset: int, whence: Whence)
    requires Inv(s, g) && |s.table| == FILETABLESIZE && Guard(s, AsWritten, FSeek(fd, offset, whence))
    ensures Inv(Seek(s, fd, offset, whence), g)
  {
    hide FreeInodes, FreeBlocks, Owners, Deeps, Lasts, DirsMatch, Tree, InodesOk;
    if ValidFd(fd) {
      assert SlotOk(s.table[fd], s.inodes, g.role);
      OffsetKeeps(s, g, fd, SeekTo(s.table[fd], offset, whence));
    }
  }

  // ---- whole calls by path ----

  lemma OpenPathKeeps(s: State, g: Ghost, path: seq<byte>, access: Access) returns (h: Ghost)
    requires Inv(s, g) && Guard(s, AsWritten, FOpen(path, access))
    ensures CanOpen(s, path, access) && Inv(OpenPath(s, path, access).0, h) && LostSet(h.own) == LostSet(g.own)
  {
    hide Inv, OpenIn, CanAddTo, OpenGuard, LostSet;
    var toks := Tokens(path, SLASH_ONLY);
    WalkKeeps(s, g, ParentPath(toks));
    var (t, e) := Walk.Opendir(s, ParentPath(toks));
    h := g;
    if e.Some? {
      h := OpenInKeeps(t, g, e.value, NameOf(toks), access);
      FreeHeadThere(t, DirSlot(t, e.value), NameOf(toks), access);
    }
  }

  lemma FreeHeadThere(t: State, p: int, name: seq<byte>, access: Access)
    requires OpenGuard(t, p, name, access)
    ensures 0 <= t.freehead < |t.table|
  {
  }

  lemma MkdirPathKeeps(s: State, g: Ghost, v: Variant, path: seq<byte>) returns (h: Ghost)
    requires Inv(s, g) && Guard(s, v, FMkdir(path))
    ensures CanMkdir(s, path) && Inv(MkdirPath(s, v, path), h) && LostSet(h.own) == LostSet(g.own)
  {
    hide Inv, MkdirIn, CanAddTo, MkdirGuard, LostSet;
    var toks := Tokens(path, SLASH_ONLY);
    WalkKeeps(s, g, ParentPath(toks));
    var (t, e) := Walk.Opendir(s, ParentPath(toks));
    h := g;
    if e.Some? {
      h := MkdirInKeeps(t, g, v, e.value, NameOf(toks));
    }
  }

  /** What `f_remove` by path loses. */
  function RemovePathLoss(s: State, v: Variant, path: seq<byte>): set<int>
    requires CanRemovePath(s, v, path)
  {
    var toks := Tokens(path, SLASH_QUOTE);
    var (t, e) := Walk.Opendir(s, ParentPath(toks));
    if e.None? then {} else RemoveLoss(t, v, DirSlot(t, e.value), NameOf(toks))
  }

  lemma RemovePathKeeps(s: State, g: Ghost, v: Variant, path: seq<byte>, stale: Block) returns (h: Ghost)
    requires Inv(s, g) && Guard(s, v, FRemove(path, stale))
    ensures CanRemovePath(s, v, path) && Inv(RemovePath(s, v, path, stale).0, h)
    ensures LostSet(h.own) == LostSet(g.own) + RemovePathLoss(s, v, path)
  {
    hide Inv, RemoveName, CanRemoveFrom, RemoveGuard, LostSet, RemoveLoss;
    var toks := Tokens(path, SLASH_QUOTE);
    WalkKeeps(s, g, ParentPath(toks));
    var (t, e) := Walk.Opendir(s, ParentPath(toks));
    h := g;
    if e.Some? {
      h := RemoveInKeeps(t, g, v, e.value, NameOf(toks), stale);
    }
  }

  // ---- runs ----

  /** What the model needs to say what a call does. */
  predicate CanDo(s: State, v: Variant, op: Op) {
    |s.table| == FILETABLESIZE &&
    match op
    case FOpen(path, access) => CanOpen(s, path, access)
    case FMkdir(path) => CanMkdir(s, path)
    case FRemove(path, stale) => CanRemovePath(s, v, path)
    case FWrite(fd, data) =>
      && ValidFd(fd)
      && var slot := s.table[fd];
         (!slot.free && slot.access != READ && slot.node.kind == REG ==>
            if v.AsWritten? then WithinDirect(slot, |data|) else Intended.WithinTree(slot, |data|))
    case FReaddir(fd) => ValidFd(fd) ==> Listing.AtEntry(s.table[fd])
    case _ => true
  }

  /** A call that meets its guard needs nothing more. */
  lemma GuardSuffices(s: State, v: Variant, op: Op)
    requires Valid(s) && Guard(s, v, op)
    ensures CanDo(s, v, op)
  {
    hide Inv, CanOpen, CanMkdir, CanRemovePath, Walk.Opendir, OpenGuard, MkdirGuard, RemoveGuard;
    var g :| Inv(s, g);
    match op
    case FOpen(path, access) => var h := OpenPathKeeps(s, g, path, access);
    case FMkdir(path) => var h := MkdirPathKeeps(s, g, v, path);
    case FRemove(path, stale) => var h := RemovePathKeeps(s, g, v, path, stale);
    case FReaddir(fd) => ReaddirKeeps(s, g, fd);
    case _ =>
  }

  /** The state after one call. */
  function Step(s: State, v: Variant, op: Op): State
    requires CanDo(s, v, op)
  {
    match op
    case FOpen(path, access) => OpenPath(s, path, access).0
    case FMkdir(path) => MkdirPath(s, v, path)
    case FRemove(path, stale) => RemovePath(s, v, path, stale).0
    case FWrite(fd, data) => Intended.WriteIn(s, v, fd, data).0
    case FClose(fd) => Close(s, fd)
    case FOpendir(path) => Walk.Opendir(s, path).0
    case FSeek(fd, offset, whence) => Seek(s, fd, offset, whence)
    case FReaddir(fd) => Listing.Readdir(s, fd).0
  }

  /** The call can be made and leads to t. */
  predicate LeadsTo(s: State, v: Variant, op: Op, t: State) { CanDo(s, v, op) && t == Step(s, v, op) }

  /** The blocks that one call loses, read off the state before it: at most one. */
  function Loss(s: State, v: Variant, op: Op): set<int>
    requires CanDo(s, v, op)
  {
    match op
    case FRemove(path, stale) => RemovePathLoss(s, v, path)
    case FWrite(fd, data) => WriteLoss(s, v, fd, data)
    case _ => {}
  }

  /** Every guarded call keeps the invariant and loses exactly those blocks. */
  lemma StepRoles(s: State, g: Ghost, v: Variant, op: Op) returns (h: Ghost)
    requires Inv(s, g) && Guard(s, v, op)
    ensures CanDo(s, v, op) && Inv(Step(s, v, op), h) && LostSet(h.own) == LostSet(g.own) + Loss(s, v, op)
  {
    hide Inv, CanOpen, CanMkdir, CanRemovePath, Walk.Opendir, OpenGuard, MkdirGuard, RemoveGuard, OpenPath, MkdirPath, RemovePath, LostSet,
         WriteLoss, RemovePathLoss, Intended.WriteIn, Listing.Readdir, Seek, Close, WalkGuard, WriteGuard, IntendedWriteGuard;
    GuardSuffices(s, v, op);
    h := g;
    match op
    case FOpen(path, access) => h := OpenPathKeeps(s, g, path, access);
    case FMkdir(path) => h := MkdirPathKeeps(s, g, v, path);
    case FRemove(path, stale) => h := RemovePathKeeps(s, g, v, path, stale);
    case FWrite(fd, data) => h := WriteInKeeps(s, g, v, fd, data);
    case FClose(fd) => CloseKeeps(s, g, fd);
    case FOpendir(path) => WalkKeeps(s, g, path);
    case FSeek(fd, offset, whence) => SeekKeeps(s, g, fd, offset, whence);
    case FReaddir(fd) => ReaddirKeeps(s, g, fd);
  }

  /** The lost blocks of a valid state; `LostIsLost` says that there is no choice in it. */
  ghost function LostBlocks(s: State): set<int>
    requires Valid(s)
  {
    var g: Ghost :| Inv(s, g);
    LostSet(g.own)
  }

  lemma LostIsLost(s: State, g: Ghost)
    requires Inv(s, g)
    ensures Valid(s) && LostBlocks(s) == LostSet(g.own)
  {
    hide Inv, LostSet;
    var h: Ghost :| Inv(s, h) && LostBlocks(s) == LostSet(h.own);
    LostDecided(s, g, h);
  }

  /** Whatever roles explain a state, they agree on which blocks are lost. */
  lemma LostDecided(s: State, g: Ghost, h: Ghost)
    requires Inv(s, g) && Inv(s, h)
    ensures LostSet(g.own) == LostSet(h.own) && FreeSet(g.own) == FreeSet(h.own) && g.fb == h.fb && |g.own| == |h.own| == |s.blocks|
    ensures |g.role| == |h.role| == |s.inodes| && forall i :: 0 <= i < |s.inodes| ==> (g.role[i].InUse? <==> h.role[i].InUse?)
  {
    hide Owners, Deeps, Lasts, DirsMatch, Tree, TableOk, InodesOk, FreeInodes, FreeBlocks;
    WriteSteps.OwnLength(s, g);
    WriteSteps.OwnLength(s, h);
    Conservation.FreeListDecided(s.sb.freeBlock, s.blocks, g.own, g.fb, h.own, h.fb);
    forall i | 0 <= i < |s.inodes| ensures g.role[i].InUse? <==> h.role[i].InUse? {
      Birth.RolesDecided(s.sb.freeInode, s.inodes, g.role, g.fi, h.role, h.fi, i);
      Birth.RolesDecided(s.sb.freeInode, s.inodes, h.role, h.fi, g.role, g.fi, i);
    }
    forall b | 0 <= b < |g.own| ensures Taken(g.own[b]) <==> Taken(h.own[b]) {
      if Taken(g.own[b]) {
        Conservation.TakenDecided(s.inodes, s.blocks, g.role, g.own, h.role, h.own, b);
      }
      if Taken(h.own[b]) {
        Conservation.TakenDecided(s.inodes, s.blocks, h.role, h.own, g.role, g.own, b);
      }
    }
  }

  lemma NoneLostIs(s: State)
    requires Valid(s)
    ensures NoneLost(s) <==> LostBlocks(s) == {}
  {
    hide Inv, LostSet;
    if NoneLost(s) {
      var g :| Inv(s, g) && LostSet(g.own) == {};
      LostIsLost(s, g);
    }
    if LostBlocks(s) == {} {
      var h: Ghost :| Inv(s, h) && LostBlocks(s) == LostSet(h.own);
    }
  }

  /** Every guarded call keeps the invariant; the blocks that are lost after it are those that were
      lost before and the ones it loses. */
  lemma StepKeeps(s: State, v: Variant, op: Op)
    requires Valid(s) && Guard(s, v, op)
    ensures CanDo(s, v, op) && Valid(Step(s, v, op)) && LostBlocks(Step(s, v, op)) == LostBlocks(s) + Loss(s, v, op)
  {
    hide Inv, LostSet, Guard, Step, CanDo, Loss, LostBlocks;
    var g :| Inv(s, g);
    var h := StepRoles(s, g, v, op);
    LostIsLost(s, g);
    LostIsLost(Step(s, v, op), h);
  }

  /** Repaired, no call loses a block. */
  lemma RepairedLosesNothing(s: State, op: Op)
    requires CanDo(s, Repaired, op)
    ensures Loss(s, Repaired, op) == {}
  {
    hide CanRemoveFrom, Walk.Opendir, FirstNamed;
  }

  /** Every call of the run meets its guard in the state that the calls before it have left. */
  ghost predicate Guarded(s: State, v: Variant, ops: seq<Op>)
    requires Valid(s)
    decreases |ops|
  {
    ops == [] || (Guard(s, v, ops[0]) && (StepKeeps(s, v, ops[0]); Guarded(Step(s, v, ops[0]), v, ops[1..])))
  }

  /** The state after a run. */
  ghost function Run(s: State, v: Variant, ops: seq<Op>): State
    requires Valid(s) && Guarded(s, v, ops)
    decreases |ops|
  {
    if ops == [] then s else
      StepKeeps(s, v, ops[0]);
      Run(Step(s, v, ops[0]), v, ops[1..])
  }

  /** The blocks that the calls of a run lose. */
  ghost function RunLoss(s: State, v: Variant, ops: seq<Op>): set<int>
    requires Valid(s) && Guarded(s, v, ops)
    decreases |ops|
  {
    if ops == [] then {} else
      StepKeeps(s, v, ops[0]);
      Loss(s, v, ops[0]) + RunLoss(Step(s, v, ops[0]), v, ops[1..])
  }

  /** Whatever the calls are, in whatever order, they leave a valid state, in which exactly those
      blocks are lost that were lost before or that one of the calls has lost. */
  lemma {:induction false} RunKeeps(s: State, v: Variant, ops: seq<Op>)
    requires Valid(s) && Guarded(s, v, ops)
    ensures Valid(Run(s, v, ops)) && LostBlocks(Run(s, v, ops)) == LostBlocks(s) + RunLoss(s, v, ops)
    decreases |ops|
  {
    hide Valid, Guard, Step, CanDo, Loss, LostBlocks;
    if ops != [] {
      StepKeeps(s, v, ops[0]);
      RunKeeps(Step(s, v, ops[0]), v, ops[1..]);
    }
  }

  lemma {:induction false} RepairedRunLosesNothing(s: State, ops: seq<Op>)
    requires Valid(s) && Guarded(s, Repaired, ops)
    ensures RunLoss(s, Repaired, ops) == {}
    decreases |ops|
  {
    hide Valid, Guard, Step, CanDo, Loss, LostBlocks;
    if ops != [] {
      StepKeeps(s, Repaired, ops[0]);
      RepairedLosesNothing(s, ops[0]);
      RepairedRunLosesNothing(Step(s, Repaired, ops[0]), ops[1..]);
    }
  }

  /** A run of one call is that call. */
  lemma RunOfOne(s: State, v: Variant, op: Op)
    requires Valid(s) && Guard(s, v, op)
    ensures CanDo(s, v, op) && Guarded(s, v, [op])
    ensures Run(s, v, [op]) == Step(s, v, op) && RunLoss(s, v, [op]) == Loss(s, v, op)
  {
    hide Valid, Guard, Step, CanDo, Loss;
    StepKeeps(s, v, op);
    assert [op][1..] == [];
    var u := Step(s, v, op);
    assert Guarded(u, v, []) && Run(u, v, []) == u && RunLoss(u, v, []) == {};
  }

  /** A run and then another from where the first has led is one run. */
  lemma {:induction false} RunsJoin(s: State, v: Variant, a: seq<Op>, b: seq<Op>)
    requires Valid(s) && Guarded(s, v, a)
    ensures Valid(Run(s, v, a)) && (Guarded(s, v, a + b) <==> Guarded(Run(s, v, a), v, b))
    ensures Guarded(s, v, a + b) ==>
              && Run(s, v, a + b) == Run(Run(s, v, a), v, b)
              && RunLoss(s, v, a + b) == RunLoss(s, v, a) + RunLoss(Run(s, v, a), v, b)
    decreases |a|
  {
    hide Valid, Guard, Step, CanDo, Loss, LostBlocks;
    if a == [] {
      assert a + b == b;
    } else {
      StepKeeps(s, v, a[0]);
      assert (a + b)[0] == a[0] && (a + b)[1..] == a[1..] + b;
      RunsJoin(Step(s, v, a[0]), v, a[1..], b);
    }
  }

  /** One guarded call, as written, leads from s to t. */
  ghost predicate Goes(s: State, op: Op, t: State) {
    Valid(s) && Guard(s, AsWritten, op) && CanDo(s, AsWritten, op) && t == Step(s, AsWritten, op)
  }

  lemma RunStarts(s: State, op: Op, u: State)
    requires Goes(s, op, u)
    ensures Valid(s) && Guarded(s, AsWritten, [op]) && Run(s, AsWritten, [op]) == u
  {
    hide Valid, Guard, Step, CanDo, Loss;
    RunOfOne(s, AsWritten, op);
  }

  /** A run may go on with a call that is guarded where it has led. */
  lemma RunGoesOn(s: State, ops: seq<Op>, t: State, op: Op, u: State)
    requires Valid(s) && Guarded(s, AsWritten, ops) && Run(s, AsWritten, ops) == t && Goes(t, op, u)
    ensures Guarded(s, AsWritten, ops + [op]) && Run(s, AsWritten, ops + [op]) == u
  {
    hide Valid, Guard, Step, CanDo, Loss, Run, Guarded, RunLoss;
    RunOfOne(t, AsWritten, op);
    RunsJoin(s, AsWritten, ops, [op]);
  }

  /** With nothing lost at the start, nothing is lost at the end exactly when no call loses a block;
      repaired, always. Then every block is free, or in one file as a data or an index block. */
  lemma NoneLostExactly(s: State, v: Variant, ops: seq<Op>)
    requires NoneLost(s) && Valid(s) && Guarded(s, v, ops)
    ensures Valid(Run(s, v, ops))
    ensures NoneLost(Run(s, v, ops)) <==> RunLoss(s, v, ops) == {}
    ensures v.Repaired? ==> NoneLost(Run(s, v, ops))
  {
    hide Inv, Guarded, Run, RunLoss, LostBlocks, Valid, NoneLost;
    RunKeeps(s, v, ops);
    NoneLostIs(s);
    NoneLostIs(Run(s, v, ops));
    if v.Repaired? {
      RepairedRunLosesNothing(s, ops);
    }
  }

  /** With nothing lost, the free blocks and the blocks of the inodes in use are all there are. */
  lemma AllAccountedFor(s: State, g: Ghost)
    requires NoneLost(s) && Inv(s, g)
    ensures |g.role| == |s.inodes|
    ensures |g.fb| + Conservation.SumOwned(s.inodes, g.role, |s.inodes|) == |s.blocks|
    ensures FreeSet(g.own) + Conservation.OwnedBelow(g.own, |s.inodes|) == Conservation.Numbers(|s.blocks|)
  {
    hide Inv, LostSet, FreeSet, Conservation.OwnedBelow, Conservation.SumOwned;
    var h :| Inv(s, h) && LostSet(h.own) == {};
    LostDecided(s, g, h);
    Conservation.BlocksAddUp(s, g);
    Conservation.EveryBlock(s, g);
  }
}
