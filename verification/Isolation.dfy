/** What one file holds does not change by what is done to others. */
module Isolation {
  import opened Bytes
  import opened Records
  import opened Operations
  import opened Paths
  import opened Walk
  import opened Transfer
  import opened Calls
  import opened Invariant
  import opened Guards
  import opened Runs
  import opened Intended
  import opened WalkSlots
  import opened ByPath
  import RemoveByPath
  import ByDescriptor
  import Roles
  import Release
  import Deletion
  import Birth
  import Cycle
  import WriteSteps
  import WriteWhole
  import Appending

  /** Inode i is a regular file in use, and what it holds is the same in t. */
  ghost predicate FileStays(s: State, g: Ghost, t: State, i: nat) {
    && i < |s.inodes| == |t.inodes| && FileSizeOk(s.inodes[i])
    && t.inodes[i] == s.inodes[i] && Contents(t.blocks, s.inodes[i]) == Contents(s.blocks, s.inodes[i])
  }

  ghost predicate UsedFile(s: State, g: Ghost, i: nat) {
    && Inv(s, g) && i < |s.inodes| == |g.role| && g.role[i].InUse? && s.inodes[i].kind == REG
  }

  /** The call is about file i: it writes through a slot that holds it, or removes it. */
  predicate About(s: State, v: Variant, op: Op, i: int)
    requires CanDo(s, v, op)
  {
    match op
    case FWrite(fd, data) => !s.table[fd].free && s.table[fd].node.index == i
    case FRemove(path, stale) => Step(s, v, op).sb.freeInode == i
    case _ => false
  }

  lemma StaysBy(s: State, g: Ghost, t: State, i: nat)
    requires UsedFile(s, g, i) && |t.inodes| == |s.inodes| && t.inodes[i] == s.inodes[i] && BlocksKept(s, g, t, i)
    ensures FileStays(s, g, t, i)
  {
    hide Inv, Contents;
    ContentsStay(s, g, t, i);
  }

  /** The free list of inodes decides who is in use, so any explanation will do. */
  lemma InUseBy(t: State, h: Ghost, role: seq<Role>, fi: seq<int>, i: nat)
    requires Inv(t, h) && FreeInodes(t.sb.freeInode, t.inodes, role, fi) && i < |t.inodes| && role[i].InUse?
    ensures |h.role| == |t.inodes| && h.role[i].InUse?
  {
    hide Disk, Tree;
    Birth.RolesDecided(t.sb.freeInode, t.inodes, role, fi, h.role, h.fi, i);
  }

  lemma SameDisk(s: State, g: Ghost, t: State, h: Ghost, i: nat)
    requires UsedFile(s, g, i) && DiskSame(s, t) && Inv(t, h)
    ensures FileStays(s, g, t, i) && UsedFile(t, h, i)
  {
    hide Disk, FreeInodes, Tree, Contents;
    InUseBy(t, h, g.role, g.fi, i);
    Cycle.SameLengths(s, g);
    StaysBy(s, g, t, i);
  }

  /** Something has been made. */
  lemma CreatedSpares(s: State, g: Ghost, t: State, f: Ghost, h: Ghost, d: int, name: seq<byte>, i: nat)
    requires UsedFile(s, g, i) && Created(s, g, t, f, d, name) && Inv(t, h)
    ensures FileStays(s, g, t, i) && UsedFile(t, h, i)
  {
    hide Disk, FreeInodes, Tree, Contents, Inv;
    FreeOf(t, f);
    InUseBy(t, h, f.role, f.fi, i);
    StaysBy(s, g, t, i);
  }

  lemma FreeOf(t: State, f: Ghost)
    requires AllButLasts(t, f)
    ensures FreeInodes(t.sb.freeInode, t.inodes, f.role, f.fi)
  {
    hide FreeInodes;
  }

  /** Something else has been removed. */
  lemma GoneSpares(s: State, g: Ghost, u: State, h: Ghost, d: int, j: int, i: nat)
    requires UsedFile(s, g, i) && DiskKept(s, g, u, d, j) && Inv(u, h) && i != d && i != j && 0 <= j < |s.inodes|
    requires FreeInodes(u.sb.freeInode, u.inodes, g.role[j := Idle(|g.fi|)], g.fi + [j])
    ensures FileStays(s, g, u, i) && UsedFile(u, h, i)
  {
    hide Disk, FreeInodes, Tree, Contents, Inv;
    InUseBy(u, h, g.role[j := Idle(|g.fi|)], g.fi + [j], i);
    StaysBy(s, g, u, i);
  }

  /** Another file has been written. */
  lemma WrittenSpares(s: State, g: Ghost, fd: nat, t: State, h: Ghost, i: nat)
    requires UsedFile(s, g, i) && WriteSteps.OpenReg(s, g, fd) && Cycle.OnlyFile(s, t, fd) && Inv(t, h)
    requires WriteSteps.OthersUntouched(s, t, g, s.table[fd].node.index) && i != s.table[fd].node.index
    ensures FileStays(s, g, t, i) && UsedFile(t, h, i)
  {
    hide Disk, FreeInodes, Tree, Contents;
    WriteSteps.OpenRegFacts(s, g, fd);
    var x := s.table[fd].node.index;
    Roles.WriteUsedInode(s.sb.freeInode, s.inodes, g.role, g.fi, x, t.inodes[x]);
    assert t.inodes == s.inodes[x := t.inodes[x]];
    InUseBy(t, h, g.role, g.fi, i);
    StaysBy(s, g, t, i);
  }

  // ---- each call ----

  lemma OpenAskedOf(s: State, path: seq<byte>, access: Access)
    requires Guard(s, AsWritten, FOpen(path, access))
    ensures Tokens(path, SLASH_ONLY) != [] && OpenAsked(s, path, access)
  {
    hide Walk.Opendir, WalkGuard, OpenRoom, SlotOf, RawEntries, FirstRegular;
  }

  lemma OpenSpares(s: State, g: Ghost, path: seq<byte>, access: Access, h: Ghost, i: nat)
    requires UsedFile(s, g, i) && Guard(s, AsWritten, FOpen(path, access)) && CanOpen(s, path, access)
    requires Inv(OpenPath(s, path, access).0, h)
    ensures FileStays(s, g, OpenPath(s, path, access).0, i) && UsedFile(OpenPath(s, path, access).0, h, i)
  {
    hide Disk, FreeInodes, Tree, Contents, OpenPath, OpenAsked, Follow, CanOpen, Arrived, InFirstFree, Created, Guard, RawEntries, LeadsToNew,
         Stays, Passed;
    OpenAskedOf(s, path, access);
    var w, f := OpenPathDoes(s, g, path, access);
    var t := OpenPath(s, path, access).0;
    if DiskSame(s, t) {
      SameDisk(s, g, t, h, i);
    } else {
      var toks := Tokens(path, SLASH_ONLY);
      var d := Follow(s.inodes, s.blocks, 0, Above(toks), ROOT_ENTRY).value.inode;
      CreatedSpares(s, g, t, f, h, d, toks[|toks| - 1], i);
    }
  }

  lemma MkdirAskedOf(s: State, v: Variant, path: seq<byte>)
    requires Guard(s, v, FMkdir(path))
    ensures Tokens(path, SLASH_ONLY) != [] && MkdirAsked(s, path)
  {
    hide Walk.Opendir, WalkGuard, MkdirRoom, Birth.ChildLastSet;
  }

  lemma MkdirSpares(s: State, g: Ghost, v: Variant, path: seq<byte>, h: Ghost, i: nat)
    requires UsedFile(s, g, i) && Guard(s, v, FMkdir(path)) && CanMkdir(s, path) && Inv(MkdirPath(s, v, path), h)
    ensures FileStays(s, g, MkdirPath(s, v, path), i) && UsedFile(MkdirPath(s, v, path), h, i)
  {
    hide Disk, FreeInodes, Tree, Contents, MkdirPath, MkdirAsked, Follow, CanMkdir, Arrived, Created, Guard, RawEntries, LeadsToNew;
    MkdirAskedOf(s, v, path);
    var w, f := MkdirPathDoes(s, g, v, path);
    var t := MkdirPath(s, v, path);
    if DiskSame(s, t) {
      SameDisk(s, g, t, h, i);
    } else {
      var toks := Tokens(path, SLASH_ONLY);
      var d := Follow(s.inodes, s.blocks, 0, Above(toks), ROOT_ENTRY).value.inode;
      CreatedSpares(s, g, t, f, h, d, toks[|toks| - 1], i);
    }
  }

  /** Inside the directory. */
  lemma RemoveInSpares(s: State, g: Ghost, v: Variant, t: State, e: Entry, name: seq<byte>, stale: Block, h: Ghost, i: nat)
    requires UsedFile(s, g, i) && AtDir(t, g, e) && DiskSame(s, t) && RemoveGuard(t, v, DirSlot(t, e), name, stale)
    requires CanRemoveFrom(t, v, DirSlot(t, e), name) && Inv(RemoveName(t, v, DirSlot(t, e), name, stale).0, h)
    requires RemoveName(t, v, DirSlot(t, e), name, stale).0.sb.freeInode != i
    ensures var u := RemoveName(t, v, DirSlot(t, e), name, stale).0; FileStays(s, g, u, i) && UsedFile(u, h, i)
  {
    hide Disk, FreeInodes, Tree, Contents, ReleaseFile, DropEntry, DirEntry, Release.LinksKept, Deletion.GhostAfterRemove, FirstNamed, SlotOf;
    var p := DirSlot(t, e);
    DirFacts(t, g, p);
    var es := Entries(t.blocks, t.table[p].node);
    var k := FirstNamed(es, ScanStart(t, v, p), name);
    var u := RemoveName(t, v, p, name, stale).0;
    if k < |es| {
      EntryFacts(t, g, p, k);
    }
    if k < |es| && SlotOf(t.table, es[k].inode) == -1 {
      FoundCanGo(t, g, v, p, k);
      RemoveByPath.RemovedFrame(t, g, v, p, k, stale);
      IsFile(t, g, p, i);
      GoneSpares(t, g, u, h, t.table[p].node.index, es[k].inode, i);
    } else {
      SameDisk(s, g, u, h, i);
    }
  }

  lemma IsFile(t: State, g: Ghost, p: nat, i: nat)
    requires UsedFile(t, g, i) && p < |t.table| && !t.table[p].free && t.table[p].node.kind == DIR
    ensures t.table[p].node.index != i
  {
    hide Inv;
    SlotInode(t, g, p);
  }

  lemma RemoveSpares(s: State, g: Ghost, v: Variant, path: seq<byte>, stale: Block, h: Ghost, i: nat)
    requires UsedFile(s, g, i) && Guard(s, v, FRemove(path, stale)) && CanRemovePath(s, v, path)
    requires Inv(RemovePath(s, v, path, stale).0, h) && RemovePath(s, v, path, stale).0.sb.freeInode != i
    ensures var u := RemovePath(s, v, path, stale).0; FileStays(s, g, u, i) && UsedFile(u, h, i)
  {
    hide Disk, FreeInodes, Tree, Contents, RemoveName, CanRemoveFrom, RemoveGuard, Walk.Opendir, WalkGuard, FileStays, Arrived;
    var toks := Tokens(path, SLASH_QUOTE);
    Arrive(s, g, ParentPath(toks));
    var (t, e) := Walk.Opendir(s, ParentPath(toks));
    if e.Some? {
      RemoveInSpares(s, g, v, t, e.value, NameOf(toks), stale, h, i);
    } else {
      SameDisk(s, g, t, h, i);
    }
  }

  lemma WriteSpares(s: State, g: Ghost, v: Variant, fd: int, data: seq<byte>, h: Ghost, i: nat)
    requires UsedFile(s, g, i) && Guard(s, v, FWrite(fd, data)) && CanDo(s, v, FWrite(fd, data)) && !About(s, v, FWrite(fd, data), i)
    requires Inv(WriteIn(s, v, fd, data).0, h)
    ensures FileStays(s, g, WriteIn(s, v, fd, data).0, i) && UsedFile(WriteIn(s, v, fd, data).0, h, i)
  {
    hide Disk, FreeInodes, Tree, Contents, WriteIn, FileStays, WriteSteps.OthersUntouched, Cycle.OnlyFile;
    var slot := s.table[fd];
    var t := WriteIn(s, v, fd, data).0;
    if slot.free || slot.access == READ || slot.node.kind != REG {
      ByDescriptor.NothingWritten(s, v, fd, data);
      SameDisk(s, g, t, h, i);
    } else {
      if v.Repaired? {
        OnlyThatFileRepaired(s, g, fd, data);
      } else {
        OnlyThatFileAsWritten(s, g, fd, data);
      }
      if t == s {
        SameDisk(s, g, t, h, i);
      } else {
        WrittenSpares(s, g, fd, t, h, i);
      }
    }
  }

  /** `f_write` under its guard touches no other file: as intended, */
  lemma OnlyThatFileRepaired(s: State, g: Ghost, fd: nat, data: seq<byte>)
    requires Inv(s, g) && |s.table| == FILETABLESIZE && IntendedWriteGuard(s, fd, data) && ValidFd(fd)
    requires !s.table[fd].free && s.table[fd].access != READ && s.table[fd].node.kind == REG
    ensures CanDo(s, Repaired, FWrite(fd, data))
    ensures var t := WriteIn(s, Repaired, fd, data).0;
            Cycle.OnlyFile(s, t, fd) && WriteSteps.OthersUntouched(s, t, g, s.table[fd].node.index)
  {
    hide Disk, FreeInodes, Tree, IntendedWrite, BlocksWith, WriteSteps.OthersUntouched, Cycle.OnlyFile, Contents;
    OpenPlanted(s, g, fd);
    FreeCount(s, g, BlocksToGrow(s.table[fd], |data|));
    var h := ByDescriptor.RepairedWriteDoes(s, g, fd, data);
  }

  /** and as written. */
  lemma OnlyThatFileAsWritten(s: State, g: Ghost, fd: nat, data: seq<byte>)
    requires Inv(s, g) && ValidFd(fd) && WriteGuard(s, fd, data)
    requires !s.table[fd].free && s.table[fd].access != READ && s.table[fd].node.kind == REG
    ensures CanDo(s, AsWritten, FWrite(fd, data))
    ensures var t := WriteIn(s, AsWritten, fd, data).0;
            t == s || (Cycle.OnlyFile(s, t, fd) && WriteSteps.OthersUntouched(s, t, g, s.table[fd].node.index))
  {
    hide Disk, FreeInodes, Tree, Write, WriteSteps.OthersUntouched, Cycle.OnlyFile, WriteWhole.Refines, WriteWhole.WriteSound;
    var slot := s.table[fd];
    if slot.access == APPEND {
      Cycle.WriteOnlyFile(s, fd, data);
      Appending.AppendFits(s, g, fd, data);
    } else {
      WriteSteps.OpenRegFacts(s, g, fd);
      if !WriteWhole.RefusesWrite(s, slot, |data|) {
        FreeCount(s, g, BlocksWanted(slot, |data|));
      }
      PlainWrite(s, g, fd, data);
    }
  }

  lemma PlainWrite(s: State, g: Ghost, fd: nat, data: seq<byte>)
    requires WriteSteps.OpenReg(s, g, fd) && WithinDirect(s.table[fd], |data|) && s.table[fd].access != READ
    requires WriteWhole.CanWrite(s, g, fd, data) || WriteWhole.RefusesWrite(s, s.table[fd], |data|)
    ensures ValidFd(fd) && CanDo(s, AsWritten, FWrite(fd, data))
    ensures var t := WriteIn(s, AsWritten, fd, data).0;
            t == s || (Cycle.OnlyFile(s, t, fd) && WriteSteps.OthersUntouched(s, t, g, s.table[fd].node.index))
  {
    hide Inv, Write, WriteSteps.OthersUntouched, Cycle.OnlyFile, WriteWhole.Refines, WriteWhole.WriteSound, WriteWhole.ResultByte;
    ByDescriptor.OpenSlot(s, g, fd);
    if WriteWhole.RefusesWrite(s, s.table[fd], |data|) {
      WriteRefused(s, fd, data);
    } else {
      var h := ByDescriptor.WriteInDoes(s, g, fd, data);
    }
  }

  // ---- runs ----

  /** A guarded call that is not about a file leaves the file as it is. */
  lemma StepIsolates(s: State, g: Ghost, v: Variant, op: Op, i: nat) returns (h: Ghost)
    requires UsedFile(s, g, i) && Guard(s, v, op)
    ensures CanDo(s, v, op) && Inv(Step(s, v, op), h)
    ensures !About(s, v, op, i) ==> FileStays(s, g, Step(s, v, op), i) && UsedFile(Step(s, v, op), h, i)
  {
    hide Inv, CanOpen, CanMkdir, CanRemovePath, Walk.Opendir, OpenGuard, MkdirGuard, RemoveGuard, OpenPath, MkdirPath, RemovePath, LostSet, Loss,
         WriteIn, FileStays, UsedFile, Contents, WalkGuard, WriteGuard, IntendedWriteGuard;
    FileIsUsed(s, g, i);
    h := StepRoles(s, g, v, op);
    if !About(s, v, op, i) {
      match op
      case FOpen(path, access) => OpenSpares(s, g, path, access, h, i);
      case FMkdir(path) => MkdirSpares(s, g, v, path, h, i);
      case FRemove(path, stale) => RemoveSpares(s, g, v, path, stale, h, i);
      case FWrite(fd, data) => WriteSpares(s, g, v, fd, data, h, i);
      case FOpendir(path) =>
        Arrive(s, g, path);
        SameDisk(s, g, Step(s, v, op), h, i);
      case _ => SameDisk(s, g, Step(s, v, op), h, i);
    }
  }

  lemma FileIsUsed(s: State, g: Ghost, i: nat)
    requires UsedFile(s, g, i)
    ensures Inv(s, g)
  {
  }

  /** No call of the run is about file i. */
  ghost predicate NoneAbout(s: State, v: Variant, ops: seq<Op>, i: int)
    requires Valid(s) && Guarded(s, v, ops)
    decreases |ops|
  {
    ops == [] || (StepKeeps(s, v, ops[0]); !About(s, v, ops[0], i) && NoneAbout(Step(s, v, ops[0]), v, ops[1..], i))
  }

  lemma StaysStays(s: State, g: Ghost, t: State, h: Ghost, u: State, i: nat)
    requires FileStays(s, g, t, i) && FileStays(t, h, u, i)
    ensures FileStays(s, g, u, i)
  {
    hide Contents;
  }

  /** Whatever the other calls are, a file that none of them writes or removes is after the run the file
      it was: the same inode and, at whatever level of indirection, the same contents. */
  lemma {:induction false} RunIsolates(s: State, g: Ghost, v: Variant, ops: seq<Op>, i: nat) returns (h: Ghost)
    requires UsedFile(s, g, i) && Valid(s) && Guarded(s, v, ops) && NoneAbout(s, v, ops, i)
    ensures Valid(Run(s, v, ops)) && FileStays(s, g, Run(s, v, ops), i) && UsedFile(Run(s, v, ops), h, i)
    decreases |ops|
  {
    hide Inv, Guard, Step, CanDo, FileStays, UsedFile, About;
    RunKeeps(s, v, ops);
    if ops == [] {
      h := g;
      NothingHappens(s, g, i);
    } else {
      StepKeeps(s, v, ops[0]);
      var t := Step(s, v, ops[0]);
      var h1 := StepIsolates(s, g, v, ops[0], i);
      h := RunIsolates(t, h1, v, ops[1..], i);
      StaysStays(s, g, t, h1, Run(s, v, ops), i);
    }
  }

  lemma NothingHappens(s: State, g: Ghost, i: nat)
    requires UsedFile(s, g, i)
    ensures FileStays(s, g, s, i)
  {
    hide Disk, FreeInodes, Tree, Contents;
    UsedSize(s, g, i);
  }
}
