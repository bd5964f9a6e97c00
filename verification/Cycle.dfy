/** Creating a file, writing to it and removing it again: what was taken comes back. */
module Cycle {
  import opened Bytes
  import opened BlockMap
  import opened Records
  import opened FileTree
  import opened Operations
  import opened Calls
  import opened Transfer
  import opened Invariant
  import opened Conservation
  import Append
  import Birth
  import Removal
  import Release
  import Deletion
  import Guards
  import WriteSteps
  import WriteWhole
  import Appending
  import Runs
  import InstallIntended
  import Intended

  // ---- what f_write leaves alone ----

  /** Only the file open in slot fd, its slot, the blocks and the block list differ. */
  predicate OnlyFile(s: State, t: State, fd: nat)
    requires fd < |s.table|
  {
    && |t.table| == |s.table| && |t.inodes| == |s.inodes| && |t.blocks| == |s.blocks|
    && t.sb.freeInode == s.sb.freeInode && t.freehead == s.freehead
    && (forall u :: 0 <= u < |s.table| && u != fd ==> t.table[u] == s.table[u])
    && (forall j :: 0 <= j < |s.inodes| && j != s.table[fd].node.index ==> t.inodes[j] == s.inodes[j])
    && t.table[fd].node.index == s.table[fd].node.index && t.table[fd].node.kind == s.table[fd].node.kind
    && t.table[fd].free == s.table[fd].free && t.table[fd].access == s.table[fd].access
  }

  lemma FirstOnlyFile(s: State, fd: nat, data: seq<byte>)
    requires fd < |s.table| && WithinDirect(s.table[fd], |data|)
    ensures OnlyFile(s, WriteFirst(s, fd, data), fd)
  {
    hide FirstContent, TailBlock;
  }

  lemma StepOnlyFile(s: State, fd: nat, data: seq<byte>, done: nat, n: nat, oldSize: int)
    requires fd < |s.table| && done < |data| && 1 <= n <= N_DBLOCKS
    ensures OnlyFile(s, WriteStep(s, fd, data, done, n, oldSize), fd)
  {
  }

  lemma {:induction false} LoopOnlyFile(s: State, fd: nat, data: seq<byte>, done: nat, n: nat, oldSize: int)
    requires fd < |s.table| && done <= |data| && 1 <= n && BLOCKSIZE * (n - 1) + |data| - done <= DIRECT_LIMIT
    ensures OnlyFile(s, WriteLoop(s, fd, data, done, n, oldSize), fd)
    decreases |data| - done
  {
    hide WriteStep;
    if done < |data| {
      StepOnlyFile(s, fd, data, done, n, oldSize);
      LoopOnlyFile(WriteStep(s, fd, data, done, n, oldSize), fd, data, done + Min(BLOCKSIZE, |data| - done), n + 1, oldSize);
    }
  }

  /** `f_write` changes no other inode, no other slot and not the inode list. */
  lemma WriteOnlyFile(s: State, fd: nat, data: seq<byte>)
    requires fd < |s.table| && WithinDirect(s.table[fd], |data|)
    ensures OnlyFile(s, Write(s, fd, data).0, fd)
  {
    hide WriteFirst, WriteLoop;
    FirstOnlyFile(s, fd, data);
    var s1 := WriteFirst(s, fd, data);
    LoopOnlyFile(s1, fd, data, FirstPart(s.table[fd], |data|), LoopStart(s.table[fd]), s.table[fd].node.size);
  }

  // ---- the file comes ----

  /** There is room for the entry and for the file, and a slot to open it in. */
  ghost predicate CanOpenNew(s: State, g: Ghost, p: nat, name: seq<byte>) {
    && Birth.CanCreate(s, g, p, name) && !s.table[0].free
    && 0 <= s.freehead < |s.table| && s.table[s.freehead].free
  }

  /** The state after `f_open` has created a file whose first block is cb. */
  ghost predicate NewInPlace(s: State, p: nat, t: State, cb: int, access: Access) {
    && Append.OpenDir(s, p)
    && var d, ni, f := s.table[p].node.index, s.sb.freeInode, s.freehead;
       && 0 <= d < |s.inodes| && 0 <= ni < |s.inodes| && d != ni
       && 0 <= f < |s.table| && f != p
       && |t.inodes| == |s.inodes| && |t.blocks| == |s.blocks| && |t.table| == |s.table|
       && t.inodes[d] == Append.GrownDir(s, p)
       && (forall i :: 0 <= i < |s.inodes| && i != d && i != ni ==> t.inodes[i] == s.inodes[i])
       && t.table[p] == s.table[p].(node := Append.GrownDir(s, p))
       && (forall u :: 0 <= u < |s.table| && u != p && u != f ==> t.table[u] == s.table[u])
       && t.table[f] == Slot(false, t.inodes[ni], 0, access)
       && t.inodes[ni].kind == REG && t.inodes[ni].size == 0 && t.inodes[ni].dblocks[0] == cb && t.inodes[ni].index == ni
       && (forall k :: 1 <= k < N_DBLOCKS ==> t.inodes[ni].dblocks[k] == s.inodes[ni].dblocks[k])
       && t.freehead == FirstFree(t.table)
  }

  lemma CreatePlaces(s: State, g: Ghost, p: nat, name: seq<byte>, access: Access)
    requires CanOpenNew(s, g, p, name)
    ensures CanAddTo(s, p, name)
    ensures NewInPlace(s, p, CreateFile(s, p, name, access), WithNewEntry(s, p, name).sb.freeBlock, access)
  {
    hide Disk, FreeInodes, Tree, CreateFile, WithNewEntry;
    Birth.HeadInode(s, g, p, name);
    Birth.Stage(s, g, p, name);
    Birth.EntryForm(s, g, p, name);
    Birth.CreateForm(s, p, name, access);
  }

  /** The roles after it. */
  ghost predicate NewRoles(g: Ghost, h: Ghost, d: int, ni: int32, name: seq<byte>, cb: int, needed: nat) {
    && |h.own| == |g.own| && |h.role| == |g.role| && |h.dirs| == |g.dirs|
    && g.fi == h.fi + [ni as int] && |h.fb| == |g.fb| - needed
    && LostSet(h.own) == LostSet(g.own)
    && (forall b :: 0 <= b < |g.own| && Taken(g.own[b]) ==> h.own[b] == g.own[b])
    && 0 <= cb < |g.own| && g.own[cb].Free?
    && 0 <= ni < |g.role| && g.role[ni].Idle? && h.role == g.role[ni := InUse]
    && 0 <= d < |h.dirs| && 2 <= |g.dirs[d]| && h.dirs[d] == g.dirs[d] + [Entry(ni, name)]
    && (forall i :: 0 <= i < |g.dirs| && i != d && i != ni ==> h.dirs[i] == g.dirs[i])
  }

  lemma AppendRoles(s: State, g: Ghost, p: nat, e: Entry)
    requires Append.CanAppend(s, g, p, e)
    ensures var g1, d := Append.GhostAfterAppend(s, g, p, e), s.table[p].node.index;
            && g1 == g.(own := g1.own, fb := g1.fb, dirs := g1.dirs) && |g1.own| == |g.own| && |g1.dirs| == |g.dirs|
            && |g1.fb| == |g.fb| - (if s.table[p].node.size % BLOCKSIZE == 0 then 1 else 0)
            && (forall b :: 0 <= b < |g.own| && Taken(g.own[b]) ==> g1.own[b] == g.own[b])
            && (forall b :: 0 <= b < |g.own| && g1.own[b].Free? ==> g.own[b].Free?)
            && 0 <= d < |g1.dirs| && 2 <= |g.dirs[d]| && g1.dirs == g.dirs[d := g.dirs[d] + [e]]
  {
    hide FreeInodes, Tree;
    Append.OpenDirFacts(s, g, p);
  }

  lemma SameLengths(s: State, g: Ghost)
    requires Inv(s, g)
    ensures |g.role| == |g.pos| == |g.rank| == |g.dirs| == |s.inodes| && |g.own| == |s.blocks|
  {
  }

  lemma CreateGivesRoles(s: State, g: Ghost, p: nat, name: seq<byte>)
    requires Birth.CanCreate(s, g, p, name)
    ensures CanAddTo(s, p, name)
    ensures NewRoles(g, Birth.GhostAfterCreate(s, g, p, name), s.table[p].node.index, s.sb.freeInode, name,
                     WithNewEntry(s, p, name).sb.freeBlock, Birth.BlocksNeeded(s.table[p].node))
  {
    hide InodesOk, Owners, Deeps, Lasts, DirsMatch, TableOk, FreeInodes, Tree, WithNewEntry, LostSet;
    Birth.HeadInode(s, g, p, name);
    Birth.Stage(s, g, p, name);
    Birth.CreateLosesNothing(s, g, p, name);
    var ni := s.sb.freeInode;
    SameLengths(s, g);
    AppendRoles(s, g, p, Entry(ni, name));
    assert g.fi == g.fi[..|g.fi| - 1] + [Top(g.fi)];
  }

  // ---- the file goes ----

  /** Between s and t the file has been created, written and closed, and these blocks have been lost. */
  ghost predicate Session(s: State, g: Ghost, p: nat, name: seq<byte>, t: State, h: Ghost, lost: set<int>) {
    && Inv(s, g) && Inv(t, h) && Append.OpenDir(s, p)
    && var d, ni := s.table[p].node.index, s.sb.freeInode;
       && 0 <= d < |s.inodes| && 0 <= ni < |s.inodes| && d != ni
       && |t.inodes| == |s.inodes| && |t.blocks| == |s.blocks| && p < |t.table|
       && t.inodes[d] == Append.GrownDir(s, p)
       && (forall i :: 0 <= i < |s.inodes| && i != d && i != ni ==> t.inodes[i] == s.inodes[i])
       && t.table[p] == s.table[p].(node := Append.GrownDir(s, p))
       && (forall u :: 0 <= u < |t.table| && !t.table[u].free ==> t.table[u].node.index != ni)
       && t.inodes[ni].kind == REG && t.inodes[ni].index == ni && FileSizeOk(t.inodes[ni])
       && |h.own| == |g.own| && |h.role| == |g.role| && |h.dirs| == |g.dirs|
       && g.fi == h.fi + [ni as int]
       && LostSet(h.own) == LostSet(g.own) + lost && lost <= FreeSet(g.own)
       && (forall b :: 0 <= b < |g.own| && Taken(g.own[b]) ==> h.own[b] == g.own[b] && g.own[b].i != ni)
       && 0 <= ni < |g.role| && g.role[ni].Idle? && h.role == g.role[ni := InUse]
       && 0 <= d < |h.dirs| && 2 <= |g.dirs[d]| && h.dirs[d] == g.dirs[d] + [Entry(ni, name)]
  }

  /** The new file can be removed again; as written, if it is one of ten blocks at most. */
  lemma SessionCanRemove(s: State, g: Ghost, p: nat, name: seq<byte>, t: State, h: Ghost, lost: set<int>, v: Variant)
    requires Session(s, g, p, name, t, h, lost) && CanRelease(v, t.inodes[s.sb.freeInode])
    ensures var d := s.table[p].node.index;
            && 0 <= d < |g.dirs| && t.table[p].node.index == d
            && Deletion.Removable(t, h, v, p, |g.dirs[d]|)
            && Deletion.Victim(t, h, p, |g.dirs[d]|) == s.sb.freeInode
  {
    hide FreeBlocks, Owners, Deeps, Lasts, DirsMatch, FreeInodes, Tree, LostSet, FreeSet;
    assert SlotOk(t.table[p], t.inodes, h.role);
    SameLengths(t, h);
    SameLengths(s, g);
    var d := s.table[p].node.index;
    assert h.dirs[d][|g.dirs[d]|] == Entry(s.sb.freeInode, name);
  }

  /** A directory that took an entry and lost its last one has the blocks it had. */
  lemma GrownThenShrunk(s: State, g: Ghost, p: nat, v: Variant)
    requires Inv(s, g) && Append.OpenDir(s, p)
    ensures SizeOk(Append.GrownDir(s, p)) && 1 <= Count(Append.GrownDir(s, p))
    ensures var dir, dir' := s.table[p].node, ShrunkDir(v, Append.GrownDir(s, p));
            && 0 <= dir.index < |s.inodes| && s.inodes[dir.index] == dir && DataCount(dir') == DataCount(dir)
    ensures GivesUpBlock(Append.GrownDir(s, p)) <==> s.table[p].node.size % BLOCKSIZE == 0
    ensures SizeOk(s.table[p].node)
  {
    hide FreeInodes, FreeBlocks, Owners, Deeps, Lasts, DirsMatch, Tree;
    Append.OpenDirFacts(s, g, p);
    EntryPlace(s.table[p].node.size);
  }

  /** What `f_remove` does to the roles of blocks that other inodes have. */
  lemma OthersKeepBlocks(t: State, h: Ghost, v: Variant, p: nat, k: nat, b: nat)
    requires Deletion.Removable(t, h, v, p, k) && b < |h.own| && Taken(h.own[b]) && h.own[b].i != Deletion.Victim(t, h, p, k)
    ensures SizeOk(t.table[p].node) && 1 <= Count(t.table[p].node)
    ensures |Deletion.GhostAfterRemove(t, h, v, p, k).own| == |h.own|
    ensures !GivesUpBlock(t.table[p].node) || b != LastEntryBlock(t.table[p].node) ==>
              Deletion.GhostAfterRemove(t, h, v, p, k).own[b] == h.own[b]
  {
    hide FreeBlocks, Owners, Deeps, DirsMatch, TableOk, FreeInodes, Tree, InodesOk, Lasts;
    Deletion.VictimFacts(t, h, p, k);
    Deletion.DropStage(t, h, v, p, k);
    var dir, j := t.table[p].node, Deletion.Victim(t, h, p, k);
    Deletion.DeepOfFile(DropEntry(t, v, p, k), Removal.GhostAfterDrop(h, dir, k), v, j, t.inodes[j], v.Repaired? || !GivesUpBlock(dir));
  }

  /** The block that the directory gives up is the one it had taken for the entry. */
  lemma GivenUpWasFree(s: State, g: Ghost, p: nat, name: seq<byte>, t: State, h: Ghost, lost: set<int>)
    requires Session(s, g, p, name, t, h, lost) && SizeOk(t.table[p].node) && 1 <= Count(t.table[p].node)
    requires GivesUpBlock(t.table[p].node) && 0 <= LastEntryBlock(t.table[p].node) < |g.own|
    ensures !Taken(g.own[LastEntryBlock(t.table[p].node)])
  {
    hide FreeInodes, Owners, Deeps, Lasts, DirsMatch, Tree, LostSet, FreeSet;
    GrownThenShrunk(s, g, p, AsWritten);
    Append.OpenDirFacts(s, g, p);
    EntryPlace(s.table[p].node.size);
    assert LastEntryBlock(t.table[p].node) == s.sb.freeBlock;
  }

  /** A state that comes back from g: the same free inodes in the same order, and the same free blocks
      but for those lost. */
  ghost predicate Restored(g: Ghost, u: State, lost: set<int>) {
    exists f :: Inv(u, f) && f.fi == g.fi && LostSet(f.own) == LostSet(g.own) + lost && FreeSet(f.own) == FreeSet(g.own) - lost
  }

  /** After a sound removal everything is back. */
  lemma ComesBack(s: State, g: Ghost, p: nat, name: seq<byte>, t: State, h: Ghost, lost: set<int>, v: Variant, k: nat, stale: Block)
    requires Session(s, g, p, name, t, h, lost) && Deletion.Removable(t, h, v, p, k)
    requires 0 <= s.table[p].node.index < |g.dirs| && k == |g.dirs[s.table[p].node.index]| && Deletion.Victim(t, h, p, k) == s.sb.freeInode
    requires t.table[p].node.index == s.table[p].node.index
    requires var u, f := Deletion.Removed(t, h, v, p, k, stale), Deletion.GhostAfterRemove(t, h, v, p, k);
             Inv(u, f) && LostSet(f.own) == LostSet(h.own)
    ensures Restored(g, Deletion.Removed(t, h, v, p, k, stale), lost)
  {
    hide Inv, Deletion.Removed, Deletion.GhostAfterRemove, LostSet, FreeSet, ShrunkDir, DataCount, Append.GrownDir;
    var u, f := Deletion.Removed(t, h, v, p, k, stale), Deletion.GhostAfterRemove(t, h, v, p, k);
    Deletion.RemovedParts(t, h, v, p, k, stale);
    GrownThenShrunk(s, g, p, v);
    SameLengths(s, g);
    SameLengths(t, h);
    SameLengths(u, f);
    AfterRoles(t, h, v, p, k);
    Deletion.GhostLengths(t, h, v, p, k);
    forall b | 0 <= b < |g.own| && Taken(g.own[b]) ensures f.own[b] == g.own[b] {
      OthersKeepBlocks(t, h, v, p, k, b);
      if GivesUpBlock(t.table[p].node) && b == LastEntryBlock(t.table[p].node) {
        GivenUpWasFree(s, g, p, name, t, h, lost);
      }
    }
    forall i | 0 <= i < |s.inodes| && f.role[i].InUse? ensures g.role[i].InUse? && DataCount(s.inodes[i]) == DataCount(u.inodes[i]) {
      assert i != s.sb.freeInode;
    }
    SameHoldersSameFree(s, g, u, f, lost);
  }

  lemma AfterRoles(t: State, h: Ghost, v: Variant, p: nat, k: nat)
    requires Deletion.Removable(t, h, v, p, k)
    ensures var f, j := Deletion.GhostAfterRemove(t, h, v, p, k), Deletion.Victim(t, h, p, k);
            f.fi == h.fi + [j as int] && 0 <= j < |h.role| && |f.role| == |h.role| && f.role == h.role[j := f.role[j]] && f.role[j].Idle?
  {
    hide Disk, FreeInodes, Tree;
    Deletion.VictimFacts(t, h, p, k);
    Deletion.DropStage(t, h, v, p, k);
  }

  /** The removal brings everything back exactly when, as written, the directory's last block had room
      before the file came, the file is not an empty one, and the links of its blocks are kept; repaired,
      always. */
  lemma SessionEndsExactly(s: State, g: Ghost, p: nat, name: seq<byte>, t: State, h: Ghost, lost: set<int>, v: Variant, stale: Block)
    requires Session(s, g, p, name, t, h, lost) && CanRelease(v, t.inodes[s.sb.freeInode])
    ensures 0 <= s.table[p].node.index < |g.dirs| && Deletion.Removable(t, h, v, p, |g.dirs[s.table[p].node.index]|)
    ensures var file := t.inodes[s.sb.freeInode];
            Restored(g, Deletion.Removed(t, h, v, p, |g.dirs[s.table[p].node.index]|, stale), lost) <==>
              v.Repaired? || (s.table[p].node.size % BLOCKSIZE != 0 && file.size > 0
                              && Release.LinksKept(AsWritten, ReturnedBlocks(AsWritten, file), stale, t.sb.freeBlock))
  {
    hide Inv, Deletion.Removed, Deletion.GhostAfterRemove, LostSet, FreeSet, Deletion.CanRemove, Deletion.Victim;
    SessionCanRemove(s, g, p, name, t, h, lost, v);
    GrownThenShrunk(s, g, p, v);
    var k := |g.dirs[s.table[p].node.index]|;
    var u := Deletion.Removed(t, h, v, p, k, stale);
    Deletion.RemoveKeeps(t, h, v, p, k, stale);
    Deletion.RemoveExactly(t, h, v, p, k, stale);
    if Deletion.RemoveSound(t, h, v, p, k, stale) && Deletion.Unreturned(v, t.inodes[s.sb.freeInode]) == {} {
      assert LostSet(h.own) + {} == LostSet(h.own);
      ComesBack(s, g, p, name, t, h, lost, v, k, stale);
    }
    if Restored(g, u, lost) {
      var f :| Inv(u, f) && f.fi == g.fi && LostSet(f.own) == LostSet(g.own) + lost && FreeSet(f.own) == FreeSet(g.own) - lost;
      assert Deletion.LosesNothing(u, h);
    }
  }

  // ---- whole sessions ----

  /** No entry that `f_remove` passes has the name of the new one. */
  predicate NameIsNew(s: State, v: Variant, p: nat, es: seq<Entry>, name: seq<byte>)
    requires p < |s.table|
  {
    0 <= ScanStart(s, v, p) <= |es| && forall j :: ScanStart(s, v, p) <= j < |es| ==> es[j].name != name
  }

  /** Then `f_remove` of the name is the removal of the last entry. */
  lemma RemovesLast(s: State, g: Ghost, p: nat, name: seq<byte>, t: State, h: Ghost, lost: set<int>, v: Variant, stale: Block)
    requires Session(s, g, p, name, t, h, lost) && CanRelease(v, t.inodes[s.sb.freeInode])
    requires 0 <= s.table[p].node.index < |g.dirs| && NameIsNew(s, v, p, g.dirs[s.table[p].node.index], name)
    ensures CanRemoveFrom(t, v, p, name)
    ensures var k := |g.dirs[s.table[p].node.index]|;
            && Deletion.Removable(t, h, v, p, k)
            && RemoveName(t, v, p, name, stale) == (Deletion.Removed(t, h, v, p, k, stale), true)
  {
    hide Disk, FreeInodes, Tree, LostSet, FreeSet, ReleaseFile, DropEntry, Append.GrownDir, DirEntry;
    SessionCanRemove(s, g, p, name, t, h, lost, v);
    var d, ni := s.table[p].node.index, s.sb.freeInode;
    var k := |g.dirs[d]|;
    Deletion.DropStage(t, h, v, p, k);
    Guards.DirFacts(t, h, p);
    var es := Entries(t.blocks, t.table[p].node);
    assert es == h.dirs[d] && es[k] == Entry(ni, name);
    assert t.table[p].offset == s.table[p].offset;
    FirstIs(es, ScanStart(t, v, p), k, name);
    forall j | 0 <= j < |es| ensures |es[j].name| < FILENAMEMAX {
      Guards.EntryFacts(t, h, p, j);
    }
  }

  lemma {:induction false} FirstIs(es: seq<Entry>, i: nat, k: nat, name: seq<byte>)
    requires i <= k < |es| && es[k].name == name && forall j :: i <= j < k ==> es[j].name != name
    ensures FirstNamed(es, i, name) == k
    decreases k - i
  {
    if i < k {
      FirstIs(es, i + 1, k, name);
    }
  }

  /** The file open in slot f has been written to and is closed. */
  lemma ClosedSession(s: State, g: Ghost, p: nat, name: seq<byte>, access: Access, t1: State, h1: Ghost, t2: State, h2: Ghost, cb: int, lost: set<int>)
    requires CanOpenNew(s, g, p, name) && Inv(t1, h1) && Inv(t2, h2)
    requires NewInPlace(s, p, t1, cb, access)
    requires NewRoles(g, h1, s.table[p].node.index, s.sb.freeInode, name, cb, Birth.BlocksNeeded(s.table[p].node))
    requires OnlyFile(t1, t2, s.freehead) && h2 == h1.(own := h2.own, fb := h2.fb) && |h2.own| == |h1.own|
    requires forall b :: 0 <= b < |g.own| && Taken(h1.own[b]) && h1.own[b].i != s.sb.freeInode ==> h2.own[b] == h1.own[b]
    requires LostSet(h2.own) == LostSet(h1.own) + lost && lost <= {cb}
    ensures |t2.table| == FILETABLESIZE && Session(s, g, p, name, Close(t2, s.freehead), h2, lost)
  {
    hide InodesOk, FreeBlocks, Owners, Deeps, Lasts, DirsMatch, FreeInodes, Tree, LostSet;
    Runs.CloseKeeps(t2, h2, s.freehead);
    var t, ni := Close(t2, s.freehead), s.sb.freeInode;
    forall u | 0 <= u < |t.table| && !t.table[u].free ensures t.table[u].node.index != ni {
      assert u != s.freehead;
      if u != p {
        assert SlotOk(s.table[u], s.inodes, g.role);
      }
    }
    assert SlotOk(t2.table[s.freehead], t2.inodes, h2.role);
    SizeFits(t2, h2, ni);
    forall b | 0 <= b < |g.own| && Taken(g.own[b]) ensures g.own[b].i != ni {
      TakenByUsed(s, g, b);
    }
  }

  lemma SizeFits(s: State, g: Ghost, i: nat)
    requires Inv(s, g) && i < |s.inodes|
    ensures FileSizeOk(s.inodes[i])
  {
    assert InodeOk(s.inodes[i], i, g.role[i]);
  }

  lemma TakenByUsed(s: State, g: Ghost, b: nat)
    requires Inv(s, g) && b < |g.own| && Taken(g.own[b])
    ensures g.own[b].i < |g.role| && g.role[g.own[b].i].InUse?
  {
    if g.own[b].By? {
      assert OwnerOk(s.inodes, g.role, g.own[b], b);
    } else {
      assert DeepOk(s.inodes, s.blocks, g.role, g.own[b], b);
    }
  }

  lemma NewIsWritable(s: State, g: Ghost, p: nat, name: seq<byte>, access: Access, t1: State, h1: Ghost, cb: int, data: seq<byte>)
    requires CanOpenNew(s, g, p, name) && Inv(t1, h1) && NewInPlace(s, p, t1, cb, access)
    requires access == WRITE || access == READANDWRITE
    requires data != [] && |data| <= DIRECT_LIMIT && BlocksFor(|data|) <= |h1.fb|
    ensures var f := s.freehead;
            && WriteWhole.CanWrite(t1, h1, f, data) && !WriteWhole.RefusesWrite(t1, t1.table[f], |data|)
            && WriteWhole.WriteKeepsCount(t1.table[f], |data|)
            && WriteWhole.ReplacesBlock(t1.table[f]) && WriteWhole.ReplacedBlock(t1.table[f]) == cb
  {
    hide Disk, FreeInodes, Tree;
    WriteSteps.BlocksMonotone(1, |data|);
    HeadNotEmpty(t1, h1);
    WriteWhole.SoundKeepsCount(t1, t1.table[s.freehead], |data|);
  }

  lemma HeadNotEmpty(s: State, g: Ghost)
    requires Inv(s, g) && g.fb != []
    ensures s.sb.freeBlock != -1
  {
    assert FreeAt(g.fb, s.blocks, g.own, |g.fb| - 1);
  }

  /** Creating a file, writing any data from its start with `f_write` as written and closing it loses
      one block: the one that `f_open` had given the file. */
  lemma WrittenSession(s: State, g: Ghost, p: nat, name: seq<byte>, access: Access, data: seq<byte>) returns (t: State, h: Ghost)
    requires CanOpenNew(s, g, p, name) && (access == WRITE || access == READANDWRITE)
    requires data != [] && |data| <= DIRECT_LIMIT
    requires BlocksFor(|data|) + Birth.BlocksNeeded(s.table[p].node) <= |g.fb|
    ensures CanAddTo(s, p, name)
    ensures var t1 := CreateFile(s, p, name, access);
            var cb := WithNewEntry(s, p, name).sb.freeBlock;
            && s.freehead < |t1.table| == FILETABLESIZE && WithinDirect(t1.table[s.freehead], |data|)
            && |Write(t1, s.freehead, data).0.table| == FILETABLESIZE
            && t == Close(Write(t1, s.freehead, data).0, s.freehead)
            && Session(s, g, p, name, t, h, {cb as int}) && t.inodes[s.sb.freeInode].size == |data|
  {
    hide Inv, CreateFile, Write, WithNewEntry, LostSet, FreeSet;
    CreatePlaces(s, g, p, name, access);
    CreateGivesRoles(s, g, p, name);
    Birth.CreateKeeps(s, g, p, name, access);
    var t1, h1 := CreateFile(s, p, name, access), Birth.GhostAfterCreate(s, g, p, name);
    var cb := WithNewEntry(s, p, name).sb.freeBlock;
    NewIsWritable(s, g, p, name, access, t1, h1, cb, data);
    h := WriteWhole.WriteKeeps(t1, h1, s.freehead, data);
    var t2 := Write(t1, s.freehead, data).0;
    Runs.LostByWrite(t1, h1, s.freehead, data, t2, h);
    WriteOnlyFile(t1, s.freehead, data);
    CopyOnDisk(t2, h, s.freehead);
    ClosedSession(s, g, p, name, access, t1, h1, t2, h, cb, {cb as int});
    t := Close(t2, s.freehead);
  }

  lemma CopyOnDisk(s: State, g: Ghost, fd: nat)
    requires Inv(s, g) && fd < |s.table| && !s.table[fd].free
    ensures 0 <= s.table[fd].node.index < |s.inodes| && s.inodes[s.table[fd].node.index] == s.table[fd].node
  {
    assert SlotOk(s.table[fd], s.inodes, g.role);
  }

  /** All as written: create, write any data, close, `f_remove` of the name. But for the one block that
      the write has lost, everything comes back exactly when the directory's last block had room for
      the entry, the data fit into one block, and the buffer that line 1622 has released still begins
      with the head of the free list. */
  lemma CreateWriteRemove(s: State, g: Ghost, p: nat, name: seq<byte>, access: Access, data: seq<byte>, stale: Block)
    requires CanOpenNew(s, g, p, name) && (access == WRITE || access == READANDWRITE)
    requires data != [] && |data| <= DIRECT_LIMIT
    requires BlocksFor(|data|) + Birth.BlocksNeeded(s.table[p].node) <= |g.fb|
    requires 0 <= s.table[p].node.index < |g.dirs| && NameIsNew(s, AsWritten, p, g.dirs[s.table[p].node.index], name)
    ensures CanAddTo(s, p, name)
    ensures var t1 := CreateFile(s, p, name, access);
            var cb := WithNewEntry(s, p, name).sb.freeBlock;
            && s.freehead < |t1.table| == FILETABLESIZE && WithinDirect(t1.table[s.freehead], |data|)
            && |Write(t1, s.freehead, data).0.table| == FILETABLESIZE
            && var t := Close(Write(t1, s.freehead, data).0, s.freehead);
               && CanRemoveFrom(t, AsWritten, p, name) && cb in FreeSet(g.own)
               && (Restored(g, RemoveName(t, AsWritten, p, name, stale).0, {cb as int}) <==>
                     s.table[p].node.size % BLOCKSIZE != 0 && |data| <= BLOCKSIZE && Link(stale) == t.sb.freeBlock)
  {
    hide Inv, CreateFile, Write, WithNewEntry, LostSet, FreeSet, RemoveName, CanRemoveFrom, Restored;
    var t, h := WrittenSession(s, g, p, name, access, data);
    SessionEndsExactly(s, g, p, name, t, h, {WithNewEntry(s, p, name).sb.freeBlock as int}, AsWritten, stale);
    RemovesLast(s, g, p, name, t, h, {WithNewEntry(s, p, name).sb.freeBlock as int}, AsWritten, stale);
    OneBlockExactly(|data|);
  }

  lemma OneBlockExactly(z: nat)
    requires z > 0
    ensures BlocksFor(z) > 0 && (BlocksFor(z) == 1 <==> z <= BLOCKSIZE)
  {
  }

  /** With the repaired `f_remove` after the same `f_write` as written, everything but that block comes
      back for any data. */
  lemma CreateWriteRepairedRemove(s: State, g: Ghost, p: nat, name: seq<byte>, access: Access, data: seq<byte>, stale: Block)
    requires CanOpenNew(s, g, p, name) && (access == WRITE || access == READANDWRITE)
    requires data != [] && |data| <= DIRECT_LIMIT
    requires BlocksFor(|data|) + Birth.BlocksNeeded(s.table[p].node) <= |g.fb|
    requires 0 <= s.table[p].node.index < |g.dirs| && NameIsNew(s, Repaired, p, g.dirs[s.table[p].node.index], name)
    ensures CanAddTo(s, p, name)
    ensures var t1 := CreateFile(s, p, name, access);
            var cb := WithNewEntry(s, p, name).sb.freeBlock;
            && s.freehead < |t1.table| == FILETABLESIZE && WithinDirect(t1.table[s.freehead], |data|)
            && |Write(t1, s.freehead, data).0.table| == FILETABLESIZE
            && var t := Close(Write(t1, s.freehead, data).0, s.freehead);
               && CanRemoveFrom(t, Repaired, p, name) && cb in FreeSet(g.own)
               && Restored(g, RemoveName(t, Repaired, p, name, stale).0, {cb as int})
  {
    hide Inv, CreateFile, Write, WithNewEntry, LostSet, FreeSet, RemoveName, CanRemoveFrom, Restored;
    var t, h := WrittenSession(s, g, p, name, access, data);
    SessionEndsExactly(s, g, p, name, t, h, {WithNewEntry(s, p, name).sb.freeBlock as int}, Repaired, stale);
    RemovesLast(s, g, p, name, t, h, {WithNewEntry(s, p, name).sb.freeBlock as int}, Repaired, stale);
  }

  /** All as written, in APPEND mode with data that fits into the file's first block: the write loses
      nothing, and everything comes back under the same conditions on the removal. */
  lemma CreateAppendRemove(s: State, g: Ghost, p: nat, name: seq<byte>, data: seq<byte>, stale: Block)
    requires CanOpenNew(s, g, p, name) && 0 < |data| <= BLOCKSIZE
    requires 0 <= s.table[p].node.index < |g.dirs| && NameIsNew(s, AsWritten, p, g.dirs[s.table[p].node.index], name)
    ensures CanAddTo(s, p, name)
    ensures var t1 := CreateFile(s, p, name, APPEND);
            && s.freehead < |t1.table| == FILETABLESIZE && WithinDirect(t1.table[s.freehead], |data|)
            && |Write(t1, s.freehead, data).0.table| == FILETABLESIZE
            && var t := Close(Write(t1, s.freehead, data).0, s.freehead);
               && CanRemoveFrom(t, AsWritten, p, name)
               && (Restored(g, RemoveName(t, AsWritten, p, name, stale).0, {}) <==>
                     s.table[p].node.size % BLOCKSIZE != 0 && Link(stale) == t.sb.freeBlock)
  {
    hide Inv, CreateFile, Write, WithNewEntry, LostSet, FreeSet, RemoveName, CanRemoveFrom, Restored;
    CreatePlaces(s, g, p, name, APPEND);
    CreateGivesRoles(s, g, p, name);
    Birth.CreateKeeps(s, g, p, name, APPEND);
    var t1, h1 := CreateFile(s, p, name, APPEND), Birth.GhostAfterCreate(s, g, p, name);
    var cb := WithNewEntry(s, p, name).sb.freeBlock;
    Appending.AppendFits(t1, h1, s.freehead, data);
    WriteOnlyFile(t1, s.freehead, data);
    var t2 := Write(t1, s.freehead, data).0;
    CopyOnDisk(t2, h1, s.freehead);
    assert LostSet(h1.own) + {} == LostSet(h1.own);
    ClosedSession(s, g, p, name, APPEND, t1, h1, t2, h1, cb, {});
    SessionEndsExactly(s, g, p, name, Close(t2, s.freehead), h1, {}, AsWritten, stale);
    RemovesLast(s, g, p, name, Close(t2, s.freehead), h1, {}, AsWritten, stale);
    OneBlockExactly(|data|);
  }

  // ---- with the intended f_write ----

  lemma AddOnlyFile(s: State, fd: nat, x: Node)
    requires fd < |s.table| && x.InRange()
    ensures OnlyFile(s, InstallIntended.AddNode(s, fd, x), fd)
  {
    hide Splice, Number;
  }

  lemma OnlyFileTrans(s: State, t: State, u: State, fd: nat)
    requires fd < |s.table| && OnlyFile(s, t, fd) && OnlyFile(t, u, fd)
    ensures OnlyFile(s, u, fd)
  {
  }

  lemma {:induction false} AddAllOnlyFile(s: State, fd: nat, xs: seq<Node>)
    requires fd < |s.table| && forall x :: x in xs ==> x.InRange()
    ensures OnlyFile(s, InstallIntended.AddNodes(s, fd, xs), fd)
    decreases |xs|
  {
    hide InstallIntended.AddNode, OnlyFile;
    if xs == [] {
      SameOnlyFile(s, fd);
    } else {
      assert xs[0] in xs && forall x :: x in xs[1..] ==> x in xs;
      var t := InstallIntended.AddNode(s, fd, xs[0]);
      AddOnlyFile(s, fd, xs[0]);
      AddAllOnlyFile(t, fd, xs[1..]);
      OnlyFileTrans(s, t, InstallIntended.AddNodes(t, fd, xs[1..]), fd);
    }
  }

  lemma SameOnlyFile(s: State, fd: nat)
    requires fd < |s.table|
    ensures OnlyFile(s, s, fd)
  {
  }

  lemma PutOnlyFile(s: State, fd: nat, at: nat, bytes: seq<byte>)
    requires fd < |s.table| && at % BLOCKSIZE + |bytes| <= BLOCKSIZE && at < MAX_SIZE
    ensures OnlyFile(s, Intended.PutBytes(s, fd, at, bytes), fd)
  {
    hide Splice, DataCount, InstallIntended.InstallNext, DataBlock;
    var k := at / BLOCKSIZE;
    if k >= DataCount(s.table[fd].node) {
      InstallIntended.NewInRange(k);
      AddAllOnlyFile(s, fd, NewNodes(k));
      NextIs(s, fd, k);
    }
  }

  lemma NextIs(s: State, fd: nat, k: nat)
    requires fd < |s.table| && k < MAX_BLOCKS
    ensures forall x :: x in NewNodes(k) ==> x.InRange()
    ensures InstallIntended.InstallNext(s, fd, k) == InstallIntended.AddNodes(s, fd, NewNodes(k))
  {
    InstallIntended.NewInRange(k);
  }

  lemma {:induction false} PutAllOnlyFile(s: State, fd: nat, at: nat, data: seq<byte>)
    requires fd < |s.table| && at + |data| <= MAX_SIZE
    ensures OnlyFile(s, Intended.PutAll(s, fd, at, data), fd)
    decreases |data|
  {
    hide Intended.PutBytes, OnlyFile;
    if data == [] {
      SameOnlyFile(s, fd);
    } else {
      var c := Intended.Part(at, |data|);
      var t := Intended.PutBytes(s, fd, at, data[..c]);
      PutOnlyFile(s, fd, at, data[..c]);
      PutAllOnlyFile(t, fd, at + c, data[c..]);
      OnlyFileTrans(s, t, Intended.PutAll(t, fd, at + c, data[c..]), fd);
    }
  }

  lemma OffsetOnlyFile(s: State, t: State, fd: nat, offset: int)
    requires fd < |s.table| && OnlyFile(s, t, fd)
    ensures OnlyFile(s, SetSlot(t, fd, t.table[fd].(offset := offset)), fd)
  {
  }

  lemma NewTakesData(s: State, g: Ghost, p: nat, name: seq<byte>, access: Access, t1: State, h1: Ghost, cb: int, data: seq<byte>)
    requires CanOpenNew(s, g, p, name) && Inv(t1, h1) && NewInPlace(s, p, t1, cb, access)
    requires |data| <= MAX_SIZE && Intended.BlocksWith(|data|) <= |h1.fb| + 1
    ensures var f := s.freehead;
            && WriteSteps.OpenReg(t1, h1, f) && Intended.WithinTree(t1.table[f], |data|) && Place(t1.table[f]) == 0
            && Intended.CanPutAll(t1, h1, f, 0, data)
  {
    hide Disk, FreeInodes, Tree;
    DirectFirst(1);
  }

  /** Creating a file, writing any data up to the end of what pointers lead to, with the intended
      `f_write`, closing and removing it restores the free blocks, index blocks included, and the inode
      list, in any mode. */
  lemma CreateIntendedRemove(s: State, g: Ghost, p: nat, name: seq<byte>, access: Access, data: seq<byte>, stale: Block)
    requires CanOpenNew(s, g, p, name) && |data| <= MAX_SIZE
    requires Intended.BlocksWith(|data|) + Birth.BlocksNeeded(s.table[p].node) <= |g.fb| + 1
    requires 0 <= s.table[p].node.index < |g.dirs| && NameIsNew(s, Repaired, p, g.dirs[s.table[p].node.index], name)
    ensures CanAddTo(s, p, name)
    ensures var t1 := CreateFile(s, p, name, access);
            && s.freehead < |t1.table| == FILETABLESIZE && Intended.WithinTree(t1.table[s.freehead], |data|)
            && |Intended.IntendedWrite(t1, s.freehead, data).0.table| == FILETABLESIZE
            && var t := Close(Intended.IntendedWrite(t1, s.freehead, data).0, s.freehead);
               CanRemoveFrom(t, Repaired, p, name) && Restored(g, RemoveName(t, Repaired, p, name, stale).0, {})
  {
    hide Inv, CreateFile, WithNewEntry, LostSet, FreeSet, RemoveName, CanRemoveFrom, Restored, Intended.PutAll, Intended.BlocksWith;
    CreatePlaces(s, g, p, name, access);
    CreateGivesRoles(s, g, p, name);
    Birth.CreateKeeps(s, g, p, name, access);
    var t1, h1 := CreateFile(s, p, name, access), Birth.GhostAfterCreate(s, g, p, name);
    var cb := WithNewEntry(s, p, name).sb.freeBlock;
    NewTakesData(s, g, p, name, access, t1, h1, cb, data);
    var h2 := Intended.IntendedWriteRefines(t1, h1, s.freehead, data);
    Runs.SameLost(h1, h2, t1.table[s.freehead].node.index);
    PutAllOnlyFile(t1, s.freehead, 0, data);
    var t2 := Intended.IntendedWrite(t1, s.freehead, data).0;
    OffsetOnlyFile(t1, Intended.PutAll(t1, s.freehead, 0, data), s.freehead, |data|);
    assert LostSet(h1.own) + {} == LostSet(h1.own);
    ClosedSession(s, g, p, name, access, t1, h1, t2, h2, cb, {});
    SessionEndsExactly(s, g, p, name, Close(t2, s.freehead), h2, {}, Repaired, stale);
    RemovesLast(s, g, p, name, Close(t2, s.freehead), h2, {}, Repaired, stale);
  }
}
