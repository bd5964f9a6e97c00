/** `f_remove` by path as a whole, in terms of the state before the call and of the names in the path. */
module RemoveByPath {
  import opened Bytes
  import opened Records
  import opened Operations
  import opened Paths
  import opened Walk
  import opened Calls
  import opened Invariant
  import opened Guards
  import opened Runs
  import opened WalkSlots
  import opened ByPath
  import Append
  import Cycle
  import Removal
  import Release
  import Deletion
  import Scan

  // ---- the directory and the disk ----

  /** Where the two blocks of the directory are that its part of the call writes. */
  lemma DropFrame(s: State, g: Ghost, v: Variant, p: nat, k: nat)
    requires Deletion.Removable(s, g, v, p, k)
    ensures var dir := s.table[p].node;
            && SizeOk(dir) && k < Count(dir) && 0 <= dir.index < |g.dirs| && k < |g.dirs[dir.index]|
            && |MovedEntry(s, dir).name| < FILENAMEMAX
            && (GivesUpBlock(dir) ==> 0 <= LastEntryBlock(dir) < |g.own|)
            && var (t, own) := (DropEntry(s, v, p, k), Removal.GhostAfterDrop(g, dir, k).own);
               && t.table == s.table[p := s.table[p].(node := ShrunkDir(v, dir), offset := ENTRYSIZE * k)] && t.freehead == s.freehead
               && t.sb.freeInode == s.sb.freeInode && |g.own| == |own| == |s.blocks| == |t.blocks|
               && forall b :: 0 <= b < |g.own| && Taken(g.own[b]) && g.own[b].i != dir.index ==> own[b] == g.own[b] && t.blocks[b] == s.blocks[b]
  {
    hide InodesOk, Owners, Deeps, Lasts, DirsMatch, TableOk, FreeInodes, Tree, FreeBlocks, DropEntry, Removal.RemoveSwap,
         Append.OpenDir, DirEntry, Deletion.Dropped;
    Deletion.VictimFacts(s, g, p, k);
    Deletion.DropStage(s, g, v, p, k);
    Removal.OpenDirKnown(s, g, p, k);
    Deletion.OwnLengths(s.inodes, s.blocks, g.role, g.own);
    Removal.DropForm(s, v, p, k);
  }

  /** Directory d has lost entry k, the last one having taken its place, and no other directory differs
      unless it is the one that goes, j. */
  ghost predicate EntryDropped(s: State, g: Ghost, t: State, d: int, k: int, j: int) {
    && |g.role| == |s.inodes| == |t.inodes| && UsedDir(s.inodes, g.role, d) && t.inodes[d].kind == DIR
    && var es := RawEntries(s.blocks, s.inodes[d]);
       && 0 <= k < |es| && es[k].inode == j && RawEntries(t.blocks, t.inodes[d]) == es[k := es[|es| - 1]][..|es| - 1]
       && multiset(RawEntries(t.blocks, t.inodes[d])) == multiset(es) - multiset{es[k]}
       && forall i {:trigger UsedDir(s.inodes, g.role, i)} :: UsedDir(s.inodes, g.role, i) && i != d && i != j ==>
            t.inodes[i] == s.inodes[i] && RawEntries(t.blocks, t.inodes[i]) == RawEntries(s.blocks, s.inodes[i])
  }

  /** The state after entry k of the directory open in slot p has gone: its inode j heads the free list. */
  ghost predicate Gone(s: State, g: Ghost, w: seq<Slot>, d: int, p: int, k: int, j: int, u: State) {
    && 0 <= p < |w| && DiskKept(s, g, u, d, j) && EntryDropped(s, g, u, d, k, j)
    && 0 <= j < |s.inodes| && g.role[j].InUse? && u.sb.freeInode == j && u.inodes[j] == s.inodes[j].(next := s.sb.freeInode)
    && FreeInodes(j, u.inodes, g.role[j := Idle(|g.fi|)], g.fi + [j])
    && u.table == w[p := w[p].(node := u.inodes[d], offset := ENTRYSIZE * k)]
  }

  lemma RemovedFrame(s: State, g: Ghost, v: Variant, p: nat, k: nat, stale: Block)
    requires Deletion.Removable(s, g, v, p, k)
    ensures var u, d, j := Deletion.Removed(s, g, v, p, k, stale), s.table[p].node.index, Deletion.Victim(s, g, p, k);
            && DiskKept(s, g, u, d, j) && u.freehead == s.freehead && 0 <= j < |s.inodes| && g.role[j].InUse?
            && u.table == s.table[p := s.table[p].(node := u.inodes[d], offset := ENTRYSIZE * k)]
            && u.sb.freeInode == j && u.inodes[j] == s.inodes[j].(next := s.sb.freeInode)
            && FreeInodes(j, u.inodes, g.role[j := Idle(|g.fi|)], g.fi + [j as int])
  {
    hide InodesOk, Owners, Deeps, Lasts, DirsMatch, TableOk, FreeInodes, Tree, FreeBlocks, DropEntry, ReleaseFile, Removal.RemoveSwap, ShrunkDir,
         Removal.GhostAfterDrop, Deletion.OwnAfter, Release.LinksKept;
    DropFrame(s, g, v, p, k);
    Deletion.VictimFacts(s, g, p, k);
    Deletion.DropStage(s, g, v, p, k);
    Deletion.RemovedParts(s, g, v, p, k, stale);
    Cycle.SameLengths(s, g);
    var dir, j := s.table[p].node, Deletion.Victim(s, g, p, k);
    Deletion.ReleaseKeeps(DropEntry(s, v, p, k), Removal.GhostAfterDrop(g, dir, k), v, j, s.inodes[j], stale, v.Repaired? || !GivesUpBlock(dir));
    HeadIsTop(DropEntry(s, v, p, k), Deletion.Removed(s, g, v, p, k, stale), g.role[j := Idle(|g.fi|)], g.fi, j);
  }

  lemma HeadIsTop(s: State, u: State, role: seq<Role>, fi: seq<int>, j: int)
    requires FreeInodes(u.sb.freeInode, u.inodes, role, fi + [j])
    ensures u.sb.freeInode == j
  {
  }

  lemma RolesOfRemoved(s: State, g: Ghost, v: Variant, p: nat, k: nat)
    requires Deletion.Removable(s, g, v, p, k)
    ensures var h, d, j := Deletion.GhostAfterRemove(s, g, v, p, k), s.table[p].node.index, Deletion.Victim(s, g, p, k);
            && 0 <= d < |g.dirs| && k < |g.dirs[d]| && h.dirs == g.dirs[d := Removal.RemoveSwap(g.dirs[d], k)]
            && 0 <= j < |g.role| && h.role == g.role[j := Idle(|g.fi|)]
  {
    hide InodesOk, Owners, Deeps, Lasts, DirsMatch, TableOk, FreeInodes, Tree, FreeBlocks, Removal.RemoveSwap;
    Cycle.SameLengths(s, g);
    Deletion.VictimFacts(s, g, p, k);
    Deletion.DropStage(s, g, v, p, k);
  }

  /** Directories whose inodes and listed entries are as before hold what they held. */
  lemma SameElsewhere(s: State, g: Ghost, u: State, h: Ghost, i: int)
    requires DirsMatch(s.inodes, s.blocks, g.role, g.dirs) && DirsMatch(u.inodes, u.blocks, h.role, h.dirs)
    requires UsedDir(s.inodes, g.role, i) && UsedDir(u.inodes, h.role, i) && u.inodes[i] == s.inodes[i] && h.dirs[i] == g.dirs[i]
    ensures RawEntries(u.blocks, u.inodes[i]) == RawEntries(s.blocks, s.inodes[i])
  {
    hide DirsMatch, RawEntries;
    EntriesAre(s, g, i);
    EntriesAre(u, h, i);
  }

  lemma DroppedByRoles(s: State, g: Ghost, u: State, h: Ghost, d: int, dir: Inode, k: nat, j: int, node: Inode, idle: Role)
    requires DirsMatch(s.inodes, s.blocks, g.role, g.dirs) && DirsMatch(u.inodes, u.blocks, h.role, h.dirs)
    requires |g.role| == |s.inodes| == |g.dirs| && UsedDir(s.inodes, g.role, d) && k < |g.dirs[d]| && j == g.dirs[d][k].inode
    requires 0 <= j < |s.inodes| && j != d && dir.kind == DIR && idle.Idle?
    requires u.inodes == s.inodes[d := dir][j := node]
    requires h.role == g.role[j := idle] && h.dirs == g.dirs[d := Removal.RemoveSwap(g.dirs[d], k)]
    ensures EntryDropped(s, g, u, d, k, j)
  {
    hide DirsMatch, RawEntries;
    EntriesAre(s, g, d);
    EntriesAre(u, h, d);
    Removal.RemoveSwapIsRemoval(g.dirs[d], k);
    forall i | UsedDir(s.inodes, g.role, i) && i != d && i != j
      ensures u.inodes[i] == s.inodes[i] && RawEntries(u.blocks, u.inodes[i]) == RawEntries(s.blocks, s.inodes[i])
    {
      SameElsewhere(s, g, u, h, i);
    }
  }

  lemma RemovedEntries(s: State, g: Ghost, v: Variant, p: nat, k: nat, stale: Block)
    requires Deletion.Removable(s, g, v, p, k)
    ensures EntryDropped(s, g, Deletion.Removed(s, g, v, p, k, stale), s.table[p].node.index, k, Deletion.Victim(s, g, p, k))
  {
    hide InodesOk, Owners, Deeps, Lasts, DirsMatch, TableOk, FreeInodes, Tree, FreeBlocks, RawEntries, Deletion.Removed, Deletion.GhostAfterRemove,
         ShrunkDir, EntryDropped, Removal.RemoveSwap;
    Deletion.RemovedParts(s, g, v, p, k, stale);
    RolesOfRemoved(s, g, v, p, k);
    Cycle.SameLengths(s, g);
    ShrunkIsDir(v, s.table[p].node);
    var j := Deletion.Victim(s, g, p, k);
    DroppedByRoles(s, g, Deletion.Removed(s, g, v, p, k, stale), Deletion.GhostAfterRemove(s, g, v, p, k), s.table[p].node.index,
                   ShrunkDir(v, s.table[p].node), k, j, s.inodes[j].(next := s.sb.freeInode), Idle(|g.fi|));
  }

  lemma ShrunkIsDir(v: Variant, node: Inode)
    requires SizeOk(node) && 1 <= Count(node)
    ensures ShrunkDir(v, node).kind == node.kind
  {
  }

  /** Entry k is the first of this name from the given one on. */
  predicate NameAt(es: seq<Entry>, start: int, name: seq<byte>, k: int) {
    0 <= start <= k < |es| && es[k].name == name && forall j :: start <= j < k ==> es[j].name != name
  }

  /** `f_remove` of a name in directory d, whose slot is p once the walk has left table w, when it looks
      for the name from entry `start` on. */
  ghost predicate RemoveDone(s: State, g: Ghost, w: seq<Slot>, d: int, p: int, start: int, name: seq<byte>, u: State, ok: bool) {
    && 0 <= d < |s.inodes| && 0 <= p < |w|
    && var es := RawEntries(s.blocks, s.inodes[d]);
       if exists k :: NameAt(es, start, name, k) then
         exists k :: NameAt(es, start, name, k)
                     && if SlotOf(w, es[k].inode) == -1 then ok && Gone(s, g, w, d, p, k, es[k].inode, u)
                        else !ok && DiskSame(s, u) && u.table == w[p := w[p].(offset := ENTRYSIZE * (k + 1))]
       else !ok && DiskSame(s, u) && u.table == w[p := w[p].(offset := ENTRYSIZE * |es|)]
  }

  lemma FirstNamedIs(es: seq<Entry>, start: nat, name: seq<byte>)
    requires start <= |es|
    ensures var r := FirstNamed(es, start, name);
            if r < |es| then NameAt(es, start, name, r) && forall k :: NameAt(es, start, name, k) ==> k == r
            else forall k :: !NameAt(es, start, name, k)
  {
    hide FirstNamed;
  }

  /** In terms of the entry that the scan picks. */
  lemma RemoveDoneIs(s: State, g: Ghost, w: seq<Slot>, d: int, p: int, start: nat, name: seq<byte>, u: State, ok: bool)
    requires 0 <= d < |s.inodes| && 0 <= p < |w| && start <= |RawEntries(s.blocks, s.inodes[d])|
    requires var es := RawEntries(s.blocks, s.inodes[d]);
             var k := FirstNamed(es, start, name);
             if k < |es| && SlotOf(w, es[k].inode) == -1 then ok && Gone(s, g, w, d, p, k, es[k].inode, u)
             else !ok && DiskSame(s, u) && u.table == w[p := w[p].(offset := if k == |es| then ENTRYSIZE * |es| else ENTRYSIZE * (k + 1))]
    ensures RemoveDone(s, g, w, d, p, start, name, u, ok)
  {
    hide FirstNamed, RawEntries, SlotOf, NameAt, Gone;
    var es := RawEntries(s.blocks, s.inodes[d]);
    FirstNamedIs(es, start, name);
    var k := FirstNamed(es, start, name);
    assert k < |es| ==> NameAt(es, start, name, k);
  }

  /** Inside the directory. */
  lemma RemoveInDoes(s: State, g: Ghost, v: Variant, t: State, e: Entry, name: seq<byte>, stale: Block)
    requires AtDir(t, g, e) && DiskSame(s, t) && 0 <= e.inode < |s.inodes| && Scan.CanAsk(t, g, v, DirSlot(t, e), name)
    ensures CanRemoveFrom(t, v, DirSlot(t, e), name)
    ensures var (u, ok) := RemoveName(t, v, DirSlot(t, e), name, stale);
            && u.freehead == t.freehead && RemoveDone(s, g, t.table, e.inode, DirSlot(t, e), ScanStart(t, v, DirSlot(t, e)), name, u, ok)
  {
    hide Inv, RemoveName, CanRemoveFrom, Gone, RemoveDone, Deletion.Removed, Deletion.Removable, Deletion.Victim,
         FirstNamed, Scan.CanAsk, RawEntries, SlotOf, DirEntry;
    var p := DirSlot(t, e);
    AskedDir(t, g, v, p, name);
    DirSlotHolds(s, g, t, e);
    Scan.Picked(t, g, v, p, name, stale);
    Scan.AskedThere(t, g, v, p, name);
    RawIsEntries(t.blocks, t.table[p].node);
    var es := Entries(t.blocks, t.table[p].node);
    var k := FirstNamed(es, ScanStart(t, v, p), name);
    if k < |es| && SlotOf(t.table, es[k].inode) == -1 {
      GoneFrom(s, g, v, t, p, k, stale);
    }
    var (u, ok) := RemoveName(t, v, p, name, stale);
    RemoveDoneIs(s, g, t.table, e.inode, p, ScanStart(t, v, p), name, u, ok);
  }

  lemma AskedDir(t: State, g: Ghost, v: Variant, p: nat, name: seq<byte>)
    requires Scan.CanAsk(t, g, v, p, name)
    ensures p < |t.table| && t.table[p].node.kind == DIR
  {
    hide Inv;
  }

  lemma GoneFrom(s: State, g: Ghost, v: Variant, t: State, p: nat, k: nat, stale: Block)
    requires DiskSame(s, t) && Deletion.Removable(t, g, v, p, k)
    ensures var u := Deletion.Removed(t, g, v, p, k, stale);
            u.freehead == t.freehead && Gone(s, g, t.table, t.table[p].node.index, p, k, Deletion.Victim(t, g, p, k), u)
  {
    hide Inv, RawEntries, Deletion.Removed;
    RemovedFrame(t, g, v, p, k, stale);
    RemovedEntries(t, g, v, p, k, stale);
  }

  /** What the caller of `f_remove` sees to: the walk can be made, and what is to go is a file or an empty
      directory. */
  ghost predicate RemoveAsked(s: State, g: Ghost, v: Variant, path: seq<byte>) {
    var toks := Tokens(path, SLASH_QUOTE);
    && |s.table| == FILETABLESIZE && toks != [] && WalkGuard(s, ParentPath(toks))
    && var (t, e) := Walk.Opendir(s, ParentPath(toks));
       (e.Some? ==> 0 <= DirSlot(t, e.value) && Scan.CanAsk(t, g, v, DirSlot(t, e.value), toks[|toks| - 1]))
  }

  /** How `f_remove` of this name ends when its walk has found e, if anything, and left table w. */
  ghost predicate RemoveEnds(s: State, g: Ghost, v: Variant, w: seq<Slot>, e: Option<Entry>, name: seq<byte>, stale: Block, u: State, ok: bool) {
    if e.None? then !ok && DiskSame(s, u) && u.table == w
    else
      var d, p := e.value.inode, SlotOf(w, e.value.inode);
      && 0 <= p < |w|
      && RemoveDone(s, g, w, d, p, if v.Repaired? then 0 else w[p].offset / ENTRYSIZE, name, u, ok)
      && Scan.PathRight(s.(table := w, freehead := u.freehead), g, v, p, name, stale, u, ok)
  }

  /** `f_remove`. The directory is the one that all names but the last lead to; without one the call
      fails and the disk is as it was. The first entry of the last name that lies at or behind the offset
      of the directory's slot, repaired the first of all, is the one that counts. If there is none, or if
      what it names is open, the call fails and the disk is as it was. Otherwise the call succeeds: the
      entry is gone, its inode heads the free list, and nothing differs that other files and directories
      have on disk. That is what the call is for exactly under the condition of `Scan.AsksRight`. */
  lemma RemovePathDoes(s: State, g: Ghost, v: Variant, path: seq<byte>, stale: Block) returns (w: seq<Slot>)
    requires Inv(s, g) && RemoveAsked(s, g, v, path)
    ensures CanRemovePath(s, v, path)
    ensures var toks := Tokens(path, SLASH_QUOTE);
            var names, name := toks[..|toks| - 1], toks[|toks| - 1];
            var e := Follow(s.inodes, s.blocks, 0, names, ROOT_ENTRY);
            var (u, ok) := RemovePath(s, v, path, stale);
            && Arrived(s, names, w, e) && LeadsTo(s, v, FRemove(path, stale), u)
            && RemoveEnds(s, g, v, w, e, name, stale, u, ok)
  {
    hide Inv, Walk.Opendir, Follow, Lookup, Forged, Passed, EndsAt, RemoveName, CanRemoveFrom, WalkGuard, Tokens, RemoveDone, SlotsLeft,
         Scan.CanAsk, Scan.DoneRight, Scan.AsksRight;
    var toks := Tokens(path, SLASH_QUOTE);
    CleanAbove(toks);
    ParentTokens(toks);
    Arrive(s, g, ParentPath(toks));
    var (t, e) := Walk.Opendir(s, ParentPath(toks));
    w := t.table;
    if e.Some? {
      RemoveInDoes(s, g, v, t, e.value, NameOf(toks), stale);
      Scan.AskedThere(t, g, v, DirSlot(t, e.value), NameOf(toks));
      Scan.RemoveNameExactly(t, g, v, DirSlot(t, e.value), NameOf(toks), stale);
    }
  }

  /** What was closed is closed after the walk, unless the walk ends in it or it is the root. */
  lemma StaysClosed(s: State, names: seq<seq<byte>>, w: seq<Slot>, e: Entry, x: int)
    requires Arrived(s, names, w, Some(e)) && SlotOf(s.table, x) == -1 && x != 0 && x != e.inode
    requires ReadInode(s.inodes, e.inode).index == e.inode && s.inodes[0].index == 0
    ensures SlotOf(w, x) == -1
  {
    hide Follow, Lookup, Forged, Passed, EndsAt;
  }

  lemma AskedNames(s: State, g: Ghost, v: Variant, path: seq<byte>)
    requires RemoveAsked(s, g, v, path)
    ensures Tokens(path, SLASH_QUOTE) != []
  {
    hide Walk.Opendir, Scan.CanAsk;
  }

  /** What can be asked for in a directory is neither the directory nor the root. */
  lemma AskedChild(s: State, g: Ghost, v: Variant, path: seq<byte>, k: int)
    requires Inv(s, g) && RemoveAsked(s, g, v, path)
    requires var toks := Tokens(path, SLASH_QUOTE);
             var e := Follow(s.inodes, s.blocks, 0, toks[..|toks| - 1], ROOT_ENTRY);
             e.Some? && NameAt(RawEntries(s.blocks, ReadInode(s.inodes, e.value.inode)), 0, toks[|toks| - 1], k)
    ensures var toks := Tokens(path, SLASH_QUOTE);
            var d := Follow(s.inodes, s.blocks, 0, toks[..|toks| - 1], ROOT_ENTRY).value.inode;
            && 0 <= d < |s.inodes| && s.inodes[d].index == d
            && 0 <= k < |RawEntries(s.blocks, s.inodes[d])|
            && RawEntries(s.blocks, s.inodes[d])[k].inode != 0 && RawEntries(s.blocks, s.inodes[d])[k].inode != d
  {
    hide Inv, Walk.Opendir, Follow, Lookup, Forged, Passed, EndsAt, SlotsLeft, RawEntries, WalkGuard, RootLeft, Scan.CanAsk, NameAt, AtDir, Tokens;
    var toks := Tokens(path, SLASH_QUOTE);
    CleanAbove(toks);
    ParentTokens(toks);
    Arrive(s, g, ParentPath(toks));
    var (t, e) := Walk.Opendir(s, ParentPath(toks));
    ChildOfAsked(s, g, v, t, e.value, toks[|toks| - 1], k);
  }

  lemma ChildOfAsked(s: State, g: Ghost, v: Variant, t: State, e: Entry, name: seq<byte>, k: int)
    requires Inv(s, g) && AtDir(t, g, e) && DiskSame(s, t) && 0 <= e.inode < |s.inodes| && Scan.CanAsk(t, g, v, DirSlot(t, e), name)
    requires NameAt(RawEntries(s.blocks, s.inodes[e.inode]), 0, name, k)
    ensures 0 <= k < |RawEntries(s.blocks, s.inodes[e.inode])|
    ensures var x := RawEntries(s.blocks, s.inodes[e.inode])[k].inode; x != 0 && x != e.inode
  {
    hide Disk, FreeInodes, Tree, RawEntries, DirEntry;
    var p := DirSlot(t, e);
    DirSlotHolds(s, g, t, e);
    DirFacts(t, g, p);
    RawIsEntries(t.blocks, t.table[p].node);
    EntryFacts(t, g, p, 0);
    EntryFacts(t, g, p, 1);
    ChildIsOther(s, g, e.inode, k);
  }

  lemma ChildIsOther(s: State, g: Ghost, d: nat, k: nat)
    requires Inv(s, g) && UsedDir(s.inodes, g.role, d) && d < |g.dirs| && 2 <= k < |g.dirs[d]|
    ensures g.dirs[d][k].inode != 0 && g.dirs[d][k].inode != d
  {
    hide Disk, FreeInodes;
    Scan.EntriesDiffer(s, g, d, k, k);
    assert ChildOk(s.inodes, g.role, g.pos, g.dirs[d][k], d, k);
  }

  /** So `f_remove`, as written, of a name in such a directory looks at all its entries: if the first of
      the name is a closed one, it is the one that goes. */
  lemma RemovedIfRewound(s: State, g: Ghost, path: seq<byte>, stale: Block, k: int) returns (w: seq<Slot>)
    requires Inv(s, g) && RemoveAsked(s, g, AsWritten, path)
    requires var toks := Tokens(path, SLASH_QUOTE);
             var names, name := toks[..|toks| - 1], toks[|toks| - 1];
             var e := Follow(s.inodes, s.blocks, 0, names, ROOT_ENTRY);
             && e.Some? && Rewound(s, names, e.value.inode)
             && var es := RawEntries(s.blocks, ReadInode(s.inodes, e.value.inode));
                NameAt(es, 0, name, k) && SlotOf(s.table, es[k].inode) == -1
    ensures CanRemovePath(s, AsWritten, path) && Tokens(path, SLASH_QUOTE) != []
    ensures var toks := Tokens(path, SLASH_QUOTE);
            var names := toks[..|toks| - 1];
            var e := Follow(s.inodes, s.blocks, 0, names, ROOT_ENTRY);
            var d := e.value.inode;
            var (u, ok) := RemovePath(s, AsWritten, path, stale);
            && 0 <= d < |s.inodes| && Arrived(s, names, w, e)
            && ok && Gone(s, g, w, d, SlotOf(w, d), k, RawEntries(s.blocks, s.inodes[d])[k].inode, u)
  {
    hide Inv, Follow, Lookup, Forged, Passed, RawEntries, WalkGuard, RemovePath, Gone, CanRemovePath, RemoveAsked, Scan.PathRight, Arrived, SlotOf;
    AskedNames(s, g, AsWritten, path);
    AskedChild(s, g, AsWritten, path, k);
    w := RemovePathDoes(s, g, AsWritten, path, stale);
    RootIsThere(s, g);
    var toks := Tokens(path, SLASH_QUOTE);
    var names := toks[..|toks| - 1];
    var e := Follow(s.inodes, s.blocks, 0, names, ROOT_ENTRY).value;
    OffsetLeft(s, names, w, e);
    StaysClosed(s, names, w, e, RawEntries(s.blocks, s.inodes[e.inode])[k].inode);
  }
}
