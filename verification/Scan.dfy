/** Where `f_remove` looks for a name. Line 1533 reads on from the offset that the directory's slot
    happens to have, so the call finds what a scan from the first entry finds only sometimes. */
module Scan {
  import opened Bytes
  import opened Records
  import opened Operations
  import opened Paths
  import opened Walk
  import opened Calls
  import opened Invariant
  import Removal
  import Release
  import Deletion
  import Listing
  import Guards
  import Runs

  // ---- the scan alone ----

  predicate NoneBefore(es: seq<Entry>, start: nat, name: seq<byte>)
    requires start <= |es|
  {
    forall j :: 0 <= j < start ==> es[j].name != name
  }

  predicate NoneFrom(es: seq<Entry>, start: nat, name: seq<byte>) {
    forall j :: start <= j < |es| ==> es[j].name != name
  }

  /** Scanning from an entry finds what scanning from the first one finds exactly when no entry before
      it has the name; and it finds nothing exactly when all entries of the name lie before it. */
  lemma ScanExactly(es: seq<Entry>, start: nat, name: seq<byte>)
    requires start <= |es|
    ensures FirstNamed(es, start, name) == FirstNamed(es, 0, name) <==> NoneBefore(es, start, name)
    ensures FirstNamed(es, start, name) == |es| <==> NoneFrom(es, start, name)
  {
  }

  // ---- the call ----

  /** A name is asked for in the directory open in slot p. What is removed must be a file or an empty
      directory: the code leaves that to its callers. */
  ghost predicate CanAsk(s: State, g: Ghost, v: Variant, p: nat, name: seq<byte>) {
    && Inv(s, g) && p < |s.table| && !s.table[p].free && s.table[p].node.kind == DIR && SizeOk(s.table[p].node)
    && name != DOT && name != DOTDOT
    && forall e :: e in Entries(s.blocks, s.table[p].node) && e.name == name && SlotOf(s.table, e.inode) == -1 ==> MayGo(s, v, e)
  }

  predicate MayGo(s: State, v: Variant, e: Entry) {
    var file := ReadInode(s.inodes, e.inode);
    CanRelease(v, file) && (file.kind == DIR ==> file.size == 2 * ENTRYSIZE)
  }

  /** What `f_remove` is for. If the directory has no such name, or what the first entry of that name
      names is open, the call fails and nothing but the offset of the slot differs. Otherwise it
      succeeds, that entry is gone, its inode is the head of the free list, and some assignment of
      roles explains the state in which no block is lost that was not lost before. */
  ghost predicate DoneRight(s: State, g: Ghost, p: nat, name: seq<byte>, u: State, ok: bool)
    requires p < |s.table| && 0 <= s.table[p].node.index < |g.dirs|
  {
    var d, es := s.table[p].node.index, g.dirs[s.table[p].node.index];
    var k := FirstNamed(es, 0, name);
    if k == |es| || SlotOf(s.table, es[k].inode) != -1 then
      !ok && p < |u.table| && u == WithOffset(s, p, u.table[p].offset)
    else
      ok && exists f :: Explains(s, g, d, k, u, f)
  }

  ghost predicate Explains(s: State, g: Ghost, d: int, k: nat, u: State, f: Ghost)
    requires 0 <= d < |g.dirs| && k < |g.dirs[d]|
  {
    && Inv(u, f) && LostSet(f.own) == LostSet(g.own)
    && d < |f.dirs| && f.dirs[d] == Removal.RemoveSwap(g.dirs[d], k)
    && f.fi == g.fi + [g.dirs[d][k].inode as int]
  }

  /** When the call is right, as the state before it decides. For a name that is there and not open: no
      entry before the offset has it, the directory gives up no block, the file is not an empty one,
      and the links of the returned blocks are kept. */
  predicate AsksRight(s: State, v: Variant, p: nat, name: seq<byte>, stale: Block)
    requires p < |s.table| && SizeOk(s.table[p].node) && 1 <= Count(s.table[p].node)
    requires 0 <= ScanStart(s, v, p) <= Count(s.table[p].node)
  {
    var es := Entries(s.blocks, s.table[p].node);
    var k, k' := FirstNamed(es, 0, name), FirstNamed(es, ScanStart(s, v, p), name);
    if k == |es| then true
    else if SlotOf(s.table, es[k].inode) != -1 then k' == |es| || SlotOf(s.table, es[k'].inode) != -1
    else
      var file := ReadInode(s.inodes, es[k].inode);
      && CanRelease(v, file)
      && NoneBefore(es, ScanStart(s, v, p), name)
      && (v.Repaired? || !GivesUpBlock(s.table[p].node))
      && Release.LinksKept(v, ReturnedBlocks(v, file), stale, Deletion.HeadAfterDrop(s, p))
      && Deletion.Unreturned(v, file) == {}
  }

  /** The entry that the call picks. */
  lemma Picked(s: State, g: Ghost, v: Variant, p: nat, name: seq<byte>, stale: Block)
    requires CanAsk(s, g, v, p, name)
    ensures CanRemoveFrom(s, v, p, name) && 2 <= Count(s.table[p].node) && 0 <= s.table[p].node.index < |g.dirs|
    ensures var es := Entries(s.blocks, s.table[p].node);
            var k := FirstNamed(es, ScanStart(s, v, p), name);
            var (u, ok) := RemoveName(s, v, p, name, stale);
            && es == g.dirs[s.table[p].node.index]
            && (forall j :: 0 <= j < |es| ==> 0 <= es[j].inode < |s.inodes| && s.inodes[es[j].inode].index == es[j].inode)
            && if k == |es| then (u, ok) == (WithOffset(s, p, ENTRYSIZE * |es|), false)
               else if SlotOf(s.table, es[k].inode) != -1 then (u, ok) == (WithOffset(s, p, ENTRYSIZE * (k + 1)), false)
               else
                 && Deletion.Removable(s, g, v, p, k) && Deletion.Victim(s, g, p, k) == es[k].inode
                 && (u, ok) == (Deletion.Removed(s, g, v, p, k, stale), true)
  {
    hide Inv, ReleaseFile, DropEntry, DirEntry, CanRelease;
    Guards.DirFacts(s, g, p);
    var es := Entries(s.blocks, s.table[p].node);
    forall j | 0 <= j < |es|
      ensures |es[j].name| < FILENAMEMAX && 0 <= es[j].inode < |s.inodes| && s.inodes[es[j].inode].index == es[j].inode
    {
      Guards.EntryFacts(s, g, p, j);
    }
    var k := FirstNamed(es, ScanStart(s, v, p), name);
    if k < |es| {
      assert es[k] in es;
      if SlotOf(s.table, es[k].inode) == -1 {
        Runs.FoundCanGo(s, g, v, p, k);
      }
    }
  }

  /** The inodes on the free list are those that were there before and the one that has joined. */
  lemma OneJoined(s: State, g: Ghost, u: State, f: Ghost, d: nat, j: int)
    requires FreeInodes(s.sb.freeInode, s.inodes, g.role, g.fi) && FreeInodes(u.sb.freeInode, u.inodes, f.role, f.fi)
    requires f.fi == g.fi + [j] && d < |s.inodes| == |u.inodes|
    ensures |f.role| == |g.role| == |s.inodes| && (f.role[d].Idle? ==> d == j || g.role[d].Idle?)
  {
    if f.role[d].Idle? {
      assert InodeListed(f.fi, f.role[d], d);
      assert f.role[d].d < |g.fi| ==> IdleAt(g.fi, s.inodes, g.role, f.role[d].d);
    }
  }

  /** Two entries of a directory never name the same inode, nor does one name the directory. */
  lemma EntriesDiffer(s: State, g: Ghost, d: nat, j: nat, k: nat)
    requires Inv(s, g) && UsedDir(s.inodes, g.role, d) && d < |g.dirs| && 2 <= j < |g.dirs[d]| && 2 <= k < |g.dirs[d]|
    ensures g.dirs[d][j].inode == g.dirs[d][k].inode ==> j == k
    ensures g.dirs[d][k].inode != d
  {
    hide Disk, FreeInodes;
    assert ChildOk(s.inodes, g.role, g.pos, g.dirs[d][j], d, j) && ChildOk(s.inodes, g.role, g.pos, g.dirs[d][k], d, k);
    assert Named(s.inodes, g.role, g.pos, g.rank, g.dirs, g.dirs[d][k].inode);
  }

  /** The entries on disk are those of any explanation. */
  lemma EntriesExplained(u: State, f: Ghost, d: nat)
    requires Inv(u, f) && UsedDir(u.inodes, f.role, d)
    ensures d < |f.dirs| && SizeOk(u.inodes[d]) && Entries(u.blocks, u.inodes[d]) == f.dirs[d]
  {
    hide FreeInodes, FreeBlocks, Owners, Deeps, Lasts, Tree, TableOk, InodesOk;
    assert EntriesMatch(u.inodes[d], u.blocks, f.dirs[d]);
  }

  /** What is explained as the removal of entry k is not the removal of a later one. */
  lemma ExplainedIsPicked(s: State, g: Ghost, v: Variant, p: nat, k: nat, k': nat, stale: Block, f: Ghost)
    requires Deletion.Removable(s, g, v, p, k') && 2 <= k <= k'
    requires 0 <= s.table[p].node.index < |g.dirs| && k' < |g.dirs[s.table[p].node.index]|
    requires Explains(s, g, s.table[p].node.index, k, Deletion.Removed(s, g, v, p, k', stale), f)
    ensures k == k'
  {
    hide Disk, Tree, FreeInodes, Deletion.Removed, DirEntry, ReleaseFile, DropEntry, Removal.RemoveSwap, LostSet;
    var d := s.table[p].node.index;
    var u := Deletion.Removed(s, g, v, p, k', stale);
    Listing.EntriesAfterRemove(s, g, v, p, k', stale);
    Listing.DirAfterRemove(s, g, v, p, k', stale);
    Guards.DirFacts(s, g, p);
    EntriesDiffer(s, g, d, |g.dirs[d]| - 1, k);
    OneJoined(s, g, u, f, d, g.dirs[d][k].inode);
    EntriesExplained(u, f, d);
    SwapDecides(g.dirs[d], k, k');
  }

  lemma SwapAt(es: seq<Entry>, k: nat, i: nat)
    requires k < |es| && i < |es| - 1
    ensures Removal.RemoveSwap(es, k)[i] == if i == k then es[|es| - 1] else es[i]
  {
  }

  lemma SwapDecides(es: seq<Entry>, k: nat, k': nat)
    requires k <= k' < |es| && Removal.RemoveSwap(es, k) == Removal.RemoveSwap(es, k')
    requires es[|es| - 1].inode == es[k].inode ==> |es| - 1 == k
    ensures k == k'
  {
    if k < |es| - 1 {
      SwapAt(es, k, k);
      SwapAt(es, k', k);
    }
  }

  /** `f_remove` of a name does what it is for exactly when the state before it says so. */
  lemma RemoveNameExactly(s: State, g: Ghost, v: Variant, p: nat, name: seq<byte>, stale: Block)
    requires CanAsk(s, g, v, p, name)
    ensures CanRemoveFrom(s, v, p, name) && 2 <= Count(s.table[p].node) && 0 <= s.table[p].node.index < |g.dirs|
    ensures var (u, ok) := RemoveName(s, v, p, name, stale);
            DoneRight(s, g, p, name, u, ok) <==> AsksRight(s, v, p, name, stale)
  {
    hide Inv, RemoveName, Explains, DirEntry, Deletion.Removed, Deletion.Unreturned, Release.LinksKept;
    Picked(s, g, v, p, name, stale);
    var es := Entries(s.blocks, s.table[p].node);
    var k, k' := FirstNamed(es, 0, name), FirstNamed(es, ScanStart(s, v, p), name);
    ScanExactly(es, ScanStart(s, v, p), name);
    var (u, ok) := RemoveName(s, v, p, name, stale);
    if k < |es| && SlotOf(s.table, es[k].inode) == -1 {
      assert es[k] in es;
      Guards.EntryFacts(s, g, p, k);
      if k' < |es| && SlotOf(s.table, es[k'].inode) == -1 {
        RemovedExactly(s, g, v, p, name, k, k', stale);
      }
    }
  }

  /** The case in which an entry is removed. */
  lemma RemovedExactly(s: State, g: Ghost, v: Variant, p: nat, name: seq<byte>, k: nat, k': nat, stale: Block)
    requires Deletion.Removable(s, g, v, p, k') && 2 <= k <= k' && SizeOk(s.table[p].node) && 1 <= Count(s.table[p].node)
    requires 0 <= s.table[p].node.index < |g.dirs| && k' < |g.dirs[s.table[p].node.index]|
    ensures (exists f :: Explains(s, g, s.table[p].node.index, k, Deletion.Removed(s, g, v, p, k', stale), f)) <==>
              k == k' && Deletion.RemoveSound(s, g, v, p, k', stale) && Deletion.Unreturned(v, s.inodes[Deletion.Victim(s, g, p, k')]) == {}
  {
    hide Inv, Deletion.Removed, Deletion.RemoveSound, Deletion.Unreturned, Deletion.GhostAfterRemove, LostSet;
    var d, u := s.table[p].node.index, Deletion.Removed(s, g, v, p, k', stale);
    Deletion.RemoveKeeps(s, g, v, p, k', stale);
    Deletion.RemoveExactly(s, g, v, p, k', stale);
    if f :| Explains(s, g, d, k, u, f) {
      ExplainedIsPicked(s, g, v, p, k, k', stale, f);
      assert Deletion.LosesNothing(u, g);
    }
    if k == k' && Deletion.RemoveSound(s, g, v, p, k', stale) && Deletion.Unreturned(v, s.inodes[Deletion.Victim(s, g, p, k')]) == {} {
      RolesAfter(s, g, v, p, k');
      assert Explains(s, g, d, k, u, Deletion.GhostAfterRemove(s, g, v, p, k'));
    }
  }

  lemma RolesAfter(s: State, g: Ghost, v: Variant, p: nat, k: nat)
    requires Deletion.Removable(s, g, v, p, k)
    ensures var h, d := Deletion.GhostAfterRemove(s, g, v, p, k), s.table[p].node.index;
            && 0 <= d < |g.dirs| && k < |g.dirs[d]|
            && h.fi == g.fi + [g.dirs[d][k].inode as int] && d < |h.dirs| && h.dirs[d] == Removal.RemoveSwap(g.dirs[d], k)
  {
    hide Disk, FreeInodes, Tree, Removal.RemoveSwap;
    Deletion.VictimFacts(s, g, p, k);
    Deletion.DropStage(s, g, v, p, k);
  }

  /** Repaired, it always does. */
  lemma RepairedAsksRight(s: State, g: Ghost, p: nat, name: seq<byte>, stale: Block)
    requires CanAsk(s, g, Repaired, p, name)
    ensures CanRemoveFrom(s, Repaired, p, name) && 2 <= Count(s.table[p].node)
    ensures AsksRight(s, Repaired, p, name, stale)
  {
    hide Inv, Disk, RemoveName, DirEntry, CanRelease, SlotOf, FirstNamed, CanRemoveFrom, Deletion.Removable, Deletion.Removed, ReturnedBlocks, Deletion.HeadAfterDrop;
    Picked(s, g, Repaired, p, name, stale);
    var es := Entries(s.blocks, s.table[p].node);
    var k := FirstNamed(es, 0, name);
    if k < |es| {
      assert es[k] in es;
    }
  }

  /** As written, a name that is there is reported missing exactly when all its entries lie before the
      offset: if none of them is open, that is when the call fails. */
  lemma ReportsMissing(s: State, g: Ghost, p: nat, name: seq<byte>, stale: Block)
    requires CanAsk(s, g, AsWritten, p, name)
    requires forall e :: e in Entries(s.blocks, s.table[p].node) && e.name == name ==> SlotOf(s.table, e.inode) == -1
    ensures CanRemoveFrom(s, AsWritten, p, name)
    ensures RemoveName(s, AsWritten, p, name, stale).1 <==> !NoneFrom(Entries(s.blocks, s.table[p].node), ScanStart(s, AsWritten, p), name)
  {
    hide Inv, RemoveName, DirEntry, CanRelease;
    Picked(s, g, AsWritten, p, name, stale);
    var es := Entries(s.blocks, s.table[p].node);
    var k := FirstNamed(es, ScanStart(s, AsWritten, p), name);
    ScanExactly(es, ScanStart(s, AsWritten, p), name);
    if k < |es| {
      assert es[k] in es;
    }
  }

  /** `f_remove` by path: the walk, and then the name. */
  lemma RemovePathExactly(s: State, g: Ghost, v: Variant, path: seq<byte>, stale: Block)
    requires Inv(s, g) && Tokens(path, SLASH_QUOTE) != [] && Guards.WalkGuard(s, ParentPath(Tokens(path, SLASH_QUOTE)))
    requires var toks := Tokens(path, SLASH_QUOTE);
             var (t, e) := Walk.Opendir(s, ParentPath(toks));
             e.Some? ==> 0 <= DirSlot(t, e.value) && CanAsk(t, g, v, DirSlot(t, e.value), NameOf(toks))
    ensures CanRemovePath(s, v, path)
    ensures var toks := Tokens(path, SLASH_QUOTE);
            var (t, e) := Walk.Opendir(s, ParentPath(toks));
            var (u, ok) := RemovePath(s, v, path, stale);
            && Inv(t, g)
            && (e.None? ==> (u, ok) == (t, false))
            && (e.Some? ==> PathRight(t, g, v, DirSlot(t, e.value), NameOf(toks), stale, u, ok))
  {
    hide Inv, RemoveName, CanRemoveFrom, Walk.Opendir, DoneRight, AsksRight, CanAsk;
    var toks := Tokens(path, SLASH_QUOTE);
    Guards.WalkKeeps(s, g, ParentPath(toks));
    var (t, e) := Walk.Opendir(s, ParentPath(toks));
    if e.Some? {
      RemoveNameExactly(t, g, v, DirSlot(t, e.value), NameOf(toks), stale);
      AskedThere(t, g, v, DirSlot(t, e.value), NameOf(toks));
    }
  }

  /** What the call leaves is right exactly when the call was. */
  ghost predicate PathRight(t: State, g: Ghost, v: Variant, p: int, name: seq<byte>, stale: Block, u: State, ok: bool) {
    && 0 <= p < |t.table| && 0 <= t.table[p].node.index < |g.dirs| && SizeOk(t.table[p].node) && 1 <= Count(t.table[p].node)
    && 0 <= ScanStart(t, v, p) <= Count(t.table[p].node)
    && (DoneRight(t, g, p, name, u, ok) <==> AsksRight(t, v, p, name, stale))
  }

  lemma AskedThere(t: State, g: Ghost, v: Variant, p: nat, name: seq<byte>)
    requires CanAsk(t, g, v, p, name)
    ensures p < |t.table| && SizeOk(t.table[p].node) && 0 <= ScanStart(t, v, p) <= Count(t.table[p].node)
  {
    hide Inv;
    Guards.DirFacts(t, g, p);
  }
}
