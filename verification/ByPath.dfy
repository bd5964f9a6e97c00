/** The calls by path as wholes: what `f_open`, `f_mkdir` and `f_remove` do, in terms of the state
    before the call and of the names in the path. */
module ByPath {
  import opened Bytes
  import opened Records
  import opened Operations
  import opened Paths
  import opened Walk
  import opened Calls
  import opened Invariant
  import opened Guards
  import opened Runs
  import opened WalkSlots
  import Absolute
  import Opendir
  import Append
  import Birth
  import Cycle
  import Listing

  // ---- the names in a path ----

  /** The path that the code builds for `f_opendir` stands for all names but the last. `f_opendir` cuts
      names at apostrophes, too; names without any come back as they are, however many there are. */
  lemma ParentTokens(toks: seq<seq<byte>>)
    requires toks != []
    ensures var names := toks[..|toks| - 1];
            && Tokens(ParentPath(toks), SLASH_QUOTE) == Pieces(names, SLASH_QUOTE)
            && ((forall n :: n in names ==> Clean(n, SLASH_QUOTE)) ==> Tokens(ParentPath(toks), SLASH_QUOTE) == names)
  {
    var names := toks[..|toks| - 1];
    TokensArePieces(names, SLASH_QUOTE);
    if forall n :: n in names ==> Clean(n, SLASH_QUOTE) {
      TokensOfPath(names, SLASH_QUOTE);
    }
  }

  /** The names of the directories on the way to what a path names. */
  function Above(toks: seq<seq<byte>>): seq<seq<byte>>
    requires toks != []
  {
    Pieces(toks[..|toks| - 1], SLASH_QUOTE)
  }

  /** What `f_remove` cuts at slashes and apostrophes has nothing left to cut. */
  lemma CleanAbove(toks: seq<seq<byte>>)
    requires toks != [] && forall n :: n in toks ==> Clean(n, SLASH_QUOTE)
    ensures Above(toks) == toks[..|toks| - 1]
  {
    ParentTokens(toks);
  }

  // ---- the walk to the directory ----

  /** The walk along these names has returned e and left this table. */
  ghost predicate Arrived(s: State, names: seq<seq<byte>>, w: seq<Slot>, e: Option<Entry>) {
    && |w| == |s.table| == FILETABLESIZE && |s.inodes| > 0
    && e == Follow(s.inodes, s.blocks, 0, names, ROOT_ENTRY)
    && (e == Lookup(s.inodes, s.blocks, 0, names, ROOT_ENTRY) <==> !Forged(s.inodes, s.blocks, 0, names))
    && var passed := Passed(s.inodes, s.blocks, 0, names);
       && SlotsLeft(s.inodes, s.table, w, passed, e) && RootLeft(s, w[0], e)
       && (e.Some? ==> EndsAt(s, w, passed, e.value, e.value.inode))
  }

  /** Where the walk of a guarded call ends is an inode in use. */
  lemma EndNumber(s: State, g: Ghost, path: seq<byte>)
    requires Inv(s, g) && WalkGuard(s, path)
    ensures var e := Walk.Opendir(s, path).1;
            e.Some? ==> 0 <= e.value.inode < |s.inodes| == |g.role| && g.role[e.value.inode].InUse? && s.inodes[e.value.inode].index == e.value.inode
  {
    hide Disk, FreeInodes, Tree, Walk.Opendir, Follow, Lookup, Forged;
    if Forged(s.inodes, s.blocks, 0, Tokens(path, SLASH_QUOTE)) {
      Opendir.OpendirExactly(s, g, path);
      var e := Walk.Opendir(s, path).1;
      if e.Some? {
        InUseExactly(s, g, e.value.inode);
        Opendir.UsedNumber(s, g, e.value.inode);
      }
    } else {
      Opendir.OpendirIsLookup(s, g, path);
    }
  }

  /** What every call by path begins with. */
  lemma Arrive(s: State, g: Ghost, path: seq<byte>)
    requires Inv(s, g) && WalkGuard(s, path)
    ensures var (t, e) := Walk.Opendir(s, path);
            && Arrived(s, Tokens(path, SLASH_QUOTE), t.table, e)
            && t == s.(table := t.table, freehead := t.freehead) && Inv(t, g)
            && (e.Some? ==> AtDir(t, g, e.value) && 0 <= e.value.inode < |s.inodes| == |g.role|
                            && g.role[e.value.inode].InUse? && s.inodes[e.value.inode].index == e.value.inode)
  {
    hide Inv, Walk.Opendir, Follow, Lookup, Forged, Passed, EndsAt, RootLeft, SlotsLeft, Opendir.WalkLeaves;
    EndNumber(s, g, path);
    WalkKeeps(s, g, path);
    OpendirLeaves(s, g, path);
    Opendir.OpendirExactly(s, g, path);
  }

  // ---- the lookup in a tree that has grown ----

  /** Directories keep their entries, in order, and may have more behind them. */
  ghost predicate DirsGrow(s: State, g: Ghost, t: State) {
    && |g.role| == |s.inodes| == |t.inodes|
    && forall i {:trigger UsedDir(s.inodes, g.role, i)} :: UsedDir(s.inodes, g.role, i) ==>
         && t.inodes[i].kind == DIR
         && RawEntries(s.blocks, s.inodes[i]) <= RawEntries(t.blocks, t.inodes[i])
  }

  /** A name that is there is found where it was. */
  lemma FirstInPrefix(a: seq<Entry>, b: seq<Entry>, name: seq<byte>)
    requires a <= b && FirstNamed(a, 0, name) < |a|
    ensures FirstNamed(b, 0, name) == FirstNamed(a, 0, name) && b[FirstNamed(a, 0, name)] == a[FirstNamed(a, 0, name)]
  {
    hide FirstNamed;
    assert forall j :: 0 <= j < |a| ==> a[j] == b[j];
  }

  /** Whatever the lookup has found, it goes on finding. */
  lemma {:induction false} LookupStays(s: State, g: Ghost, t: State, cur: int, toks: seq<seq<byte>>, found: Entry)
    requires Inv(s, g) && DirsGrow(s, g, t) && 0 <= cur < |s.inodes| && g.role[cur].InUse?
    requires Lookup(s.inodes, s.blocks, cur, toks, found).Some?
    ensures Lookup(t.inodes, t.blocks, cur, toks, found) == Lookup(s.inodes, s.blocks, cur, toks, found)
    decreases |toks|
  {
    hide Inv, FirstNamed, DirEntry;
    if toks != [] {
      assert UsedDir(s.inodes, g.role, cur);
      var es := RawEntries(s.blocks, s.inodes[cur]);
      var k := FirstNamed(es, 0, toks[0]);
      FirstInPrefix(es, RawEntries(t.blocks, t.inodes[cur]), toks[0]);
      Opendir.EntryInUse(s, g, cur, k);
      LookupStays(s, g, t, es[k].inode, toks[1..], es[k]);
    }
  }

  predicate NoneNamed(es: seq<Entry>, name: seq<byte>) {
    forall e :: e in es ==> e.name != name
  }

  /** The new entry of a directory is what the path to it leads to, unless the name was there before:
      then the path leads where it led. */
  lemma NewEntryFound(s: State, g: Ghost, t: State, names: seq<seq<byte>>, d: int, e: Entry)
    requires Inv(s, g) && DirsGrow(s, g, t) && UsedDir(s.inodes, g.role, d)
    requires var at := Lookup(s.inodes, s.blocks, 0, names, ROOT_ENTRY); at.Some? && at.value.inode == d
    requires RawEntries(t.blocks, t.inodes[d]) == RawEntries(s.blocks, s.inodes[d]) + [e]
    ensures Lookup(t.inodes, t.blocks, 0, names + [e.name], ROOT_ENTRY)
              == if NoneNamed(RawEntries(s.blocks, s.inodes[d]), e.name) then Some(e)
                 else Lookup(s.inodes, s.blocks, 0, names + [e.name], ROOT_ENTRY)
  {
    hide Inv, Lookup, FirstNamed, RawEntries;
    Opendir.RootInUse(s, g);
    var es, es' := RawEntries(s.blocks, s.inodes[d]), RawEntries(t.blocks, t.inodes[d]);
    LookupStays(s, g, t, 0, names, ROOT_ENTRY);
    Absolute.LookupThen(t.inodes, t.blocks, 0, names, [e.name], ROOT_ENTRY);
    Absolute.LookupThen(s.inodes, s.blocks, 0, names, [e.name], ROOT_ENTRY);
    var at := Lookup(s.inodes, s.blocks, 0, names, ROOT_ENTRY).value;
    OneName(s.inodes, s.blocks, d, e.name, at);
    OneName(t.inodes, t.blocks, d, e.name, at);
    var k, k' := FirstNamed(es, 0, e.name), FirstNamed(es', 0, e.name);
    if k < |es| {
      assert es[k] in es;
      FirstInPrefix(es, es', e.name);
    } else {
      assert es'[|es|] == e;
    }
  }

  lemma OneName(inodes: seq<Inode>, blocks: seq<Block>, d: int, name: seq<byte>, found: Entry)
    requires 0 <= d < |inodes| && inodes[d].kind == DIR
    ensures var es := RawEntries(blocks, inodes[d]);
            var k := FirstNamed(es, 0, name);
            Lookup(inodes, blocks, d, [name], found) == if k == |es| then None else Some(es[k])
  {
    hide FirstNamed, RawEntries;
  }

  // ---- one entry more ----

  /** Of the inodes only d and ni may differ, and of the blocks that files and directories have only
      theirs. */
  ghost predicate DiskKept(s: State, g: Ghost, t: State, d: int, ni: int) {
    && |g.role| == |s.inodes| == |t.inodes| && |g.own| == |s.blocks| == |t.blocks|
    && (forall i :: 0 <= i < |s.inodes| && i != d && i != ni ==> t.inodes[i] == s.inodes[i])
    && (forall b :: 0 <= b < |g.own| && Taken(g.own[b]) && g.own[b].i != d && g.own[b].i != ni ==> t.blocks[b] == s.blocks[b])
  }

  /** Directory d has this entry behind the others, and no other directory differs. */
  ghost predicate EntryAdded(s: State, g: Ghost, t: State, d: int, e: Entry) {
    && |g.role| == |s.inodes| == |t.inodes| && UsedDir(s.inodes, g.role, d) && t.inodes[d].kind == DIR
    && RawEntries(t.blocks, t.inodes[d]) == RawEntries(s.blocks, s.inodes[d]) + [e]
    && forall i {:trigger UsedDir(s.inodes, g.role, i)} :: UsedDir(s.inodes, g.role, i) && i != d ==>
         t.inodes[i] == s.inodes[i] && RawEntries(t.blocks, t.inodes[i]) == RawEntries(s.blocks, s.inodes[i])
  }

  lemma AddedGrows(s: State, g: Ghost, t: State, d: int, e: Entry)
    requires EntryAdded(s, g, t, d, e)
    ensures DirsGrow(s, g, t)
  {
    hide RawEntries;
  }

  /** The entries of a directory are those of any explanation. */
  lemma EntriesAre(t: State, h: Ghost, d: int)
    requires DirsMatch(t.inodes, t.blocks, h.role, h.dirs) && UsedDir(t.inodes, h.role, d)
    ensures |h.dirs| == |t.inodes| && RawEntries(t.blocks, t.inodes[d]) == h.dirs[d]
  {
    assert EntriesMatch(t.inodes[d], t.blocks, h.dirs[d]);
  }

  lemma AddedByRoles(s: State, g: Ghost, t: State, h: Ghost, d: int, ni: int32, name: seq<byte>, cb: int, needed: nat)
    requires Inv(s, g) && AllButLasts(t, h) && |s.inodes| == |t.inodes| && UsedDir(s.inodes, g.role, d) && ni != d
    requires Cycle.NewRoles(g, h, d, ni, name, cb, needed)
    requires forall i :: 0 <= i < |s.inodes| && i != d && i != ni ==> t.inodes[i] == s.inodes[i]
    requires t.inodes[d].kind == DIR
    ensures EntryAdded(s, g, t, d, Entry(ni, name)) && t.inodes[ni].parent == d
  {
    hide InodesOk, FreeBlocks, FreeInodes, Owners, Deeps, Lasts, DirsMatch, Tree, TableOk, RawEntries, LostSet;
    Cycle.SameLengths(s, g);
    EntriesAre(s, g, d);
    EntriesAre(t, h, d);
    LastChild(t, h, d);
    forall i | UsedDir(s.inodes, g.role, i) && i != d
      ensures t.inodes[i] == s.inodes[i] && RawEntries(t.blocks, t.inodes[i]) == RawEntries(s.blocks, s.inodes[i])
    {
      EntriesAre(s, g, i);
      EntriesAre(t, h, i);
    }
  }

  lemma LastChild(t: State, h: Ghost, d: int)
    requires Tree(t.inodes, h.role, h.pos, h.rank, h.dirs) && UsedDir(t.inodes, h.role, d) && 2 < |h.dirs[d]|
    ensures var e := h.dirs[d][|h.dirs[d]| - 1]; 0 < e.inode < |t.inodes| && t.inodes[e.inode].parent == d
  {
    assert ChildOk(t.inodes, h.role, h.pos, h.dirs[d][|h.dirs[d]| - 1], d, |h.dirs[d]| - 1);
  }

  /** The entry goes to a block of the directory or to a free one. */
  lemma EntryFrame(s: State, g: Ghost, p: nat, name: seq<byte>)
    requires Birth.CanCreate(s, g, p, name)
    ensures CanAddTo(s, p, name)
    ensures var s1 := WithNewEntry(s, p, name);
            && |g.own| == |s.blocks| == |s1.blocks| && 0 <= s1.sb.freeBlock < |s1.blocks| && !Taken(g.own[s1.sb.freeBlock])
            && forall b :: 0 <= b < |g.own| && Taken(g.own[b]) && g.own[b].i != s.table[p].node.index ==> s1.blocks[b] == s.blocks[b]
  {
    hide InodesOk, Owners, Deeps, Lasts, DirsMatch, TableOk, FreeInodes, Tree, FreeBlocks;
    Birth.Stage(s, g, p, name);
    Birth.HeadInode(s, g, p, name);
    Birth.InodeTakenFirst(s, g, p, name);
    Append.OpenDirFacts(s, g, p);
    var e := Entry(s.sb.freeInode, name);
    var u := Birth.InodeTaken(s);
    Append.AppendRoles(u, g, p, e, s.blocks[Append.EntryBlock(s, p)]);
    Append.AppendForm(u, p, e);
    Cycle.CreateGivesRoles(s, g, p, name);
  }

  /** What creating anything in directory d does to the disk; the new inode comes off the free list. */
  ghost predicate Created(s: State, g: Ghost, t: State, h: Ghost, d: int, name: seq<byte>) {
    var ni := s.sb.freeInode;
    && AllButLasts(t, h) && DiskKept(s, g, t, d, ni) && EntryAdded(s, g, t, d, Entry(ni, name))
    && 0 <= ni < |s.inodes| && g.role[ni].Idle? && t.inodes[ni].index == ni && t.inodes[ni].parent == d
    && h.role == g.role[ni := InUse] && g.fi == h.fi + [ni as int]
  }

  lemma InvIsAll(t: State, h: Ghost)
    requires Inv(t, h)
    ensures AllButLasts(t, h)
  {
    hide InodesOk, FreeBlocks, FreeInodes, Owners, Deeps, Lasts, DirsMatch, Tree, TableOk;
  }

  /** The new file. */
  lemma FileCreated(s: State, g: Ghost, p: nat, name: seq<byte>, access: Access)
    requires Cycle.CanOpenNew(s, g, p, name)
    ensures CanAddTo(s, p, name)
    ensures var t, d, ni := CreateFile(s, p, name, access), s.table[p].node.index, s.sb.freeInode;
            && Created(s, g, t, Birth.GhostAfterCreate(s, g, p, name), d, name) && Inv(t, Birth.GhostAfterCreate(s, g, p, name))
            && t.inodes[ni].kind == REG && t.inodes[ni].size == 0 && t.inodes[ni].next == -1 && p != s.freehead
            && t.table == s.table[p := s.table[p].(node := t.inodes[d])][s.freehead := Slot(false, t.inodes[ni], 0, access)]
            && t.freehead == FirstFree(t.table)
  {
    hide Inv, CreateFile, WithNewEntry, Birth.GhostAfterCreate, RawEntries, LostSet;
    Birth.HeadInode(s, g, p, name);
    Cycle.CreatePlaces(s, g, p, name, access);
    Cycle.CreateGivesRoles(s, g, p, name);
    Birth.CreateKeeps(s, g, p, name, access);
    EntryFrame(s, g, p, name);
    DirInUse(s, g, p);
    Cycle.SameLengths(s, g);
    Birth.EntryForm(s, g, p, name);
    Birth.CreateForm(s, p, name, access);
    InvIsAll(CreateFile(s, p, name, access), Birth.GhostAfterCreate(s, g, p, name));
    AddedByRoles(s, g, CreateFile(s, p, name, access), Birth.GhostAfterCreate(s, g, p, name), s.table[p].node.index, s.sb.freeInode, name,
                 WithNewEntry(s, p, name).sb.freeBlock, Birth.BlocksNeeded(s.table[p].node));
  }

  lemma DirInUse(s: State, g: Ghost, p: nat)
    requires Inv(s, g) && Append.OpenDir(s, p)
    ensures UsedDir(s.inodes, g.role, s.table[p].node.index) && s.inodes[s.table[p].node.index] == s.table[p].node
    ensures Append.GrownDir(s, p).kind == DIR
  {
    hide FreeInodes, Tree;
    Append.OpenDirFacts(s, g, p);
  }

  lemma NewDirHolds(t: State, h: Ghost, ni: int)
    requires AllButLasts(t, h) && UsedDir(t.inodes, h.role, ni)
    ensures |h.dirs| == |t.inodes| && RawEntries(t.blocks, t.inodes[ni]) == h.dirs[ni]
  {
    hide InodesOk, FreeBlocks, FreeInodes, Owners, Deeps, Tree, TableOk;
    EntriesAre(t, h, ni);
  }

  /** The new directory. */
  lemma DirCreated(s: State, g: Ghost, v: Variant, p: nat, name: seq<byte>)
    requires Birth.CanCreate(s, g, p, name)
    ensures CanAddTo(s, p, name)
    ensures var t, d, ni := MakeDir(s, v, p, name), s.table[p].node.index, s.sb.freeInode;
            && Created(s, g, t, Birth.GhostAfterCreate(s, g, p, name), d, name)
            && (Inv(t, Birth.GhostAfterCreate(s, g, p, name)) <==> Birth.ChildLastSet(s, v, p))
            && t.inodes[ni].kind == DIR && 0 <= d <= 0x7FFF_FFFF
            && RawEntries(t.blocks, t.inodes[ni]) == [Entry(ni, DOT), Entry(d, DOTDOT)]
            && t.table == s.table[p := s.table[p].(node := t.inodes[d])] && t.freehead == s.freehead
  {
    hide Inv, MakeDir, WithNewEntry, RawEntries, LostSet, Birth.ChildLastSet, AllButLasts;
    Birth.HeadInode(s, g, p, name);
    Birth.Stage(s, g, p, name);
    Cycle.CreateGivesRoles(s, g, p, name);
    Birth.MakeDirKeepsRest(s, g, v, p, name);
    EntryFrame(s, g, p, name);
    DirInUse(s, g, p);
    Cycle.SameLengths(s, g);
    Birth.EntryForm(s, g, p, name);
    Birth.MakeDirForm(s, v, p, name);
    var t, h := MakeDir(s, v, p, name), Birth.GhostAfterCreate(s, g, p, name);
    AddedByRoles(s, g, t, h, s.table[p].node.index, s.sb.freeInode, name, WithNewEntry(s, p, name).sb.freeBlock, Birth.BlocksNeeded(s.table[p].node));
    NewDirHolds(t, h, s.sb.freeInode);
  }

  // ---- f_open ----

  predicate Regular(inodes: seq<Inode>, e: Entry, name: seq<byte>) { e.name == name && ReadInode(inodes, e.inode).kind == REG }

  /** Entry k is the first of this name that is a regular file. */
  predicate FileAt(inodes: seq<Inode>, es: seq<Entry>, name: seq<byte>, k: int) {
    0 <= k < |es| && Regular(inodes, es[k], name) && forall j :: 0 <= j < k ==> !Regular(inodes, es[j], name)
  }

  /** The walk has left table w. Then the file is open in the first slot that was free in it; the slot p
      of the directory is `at` bytes into it and holds it as it is on disk; no other slot differs. */
  ghost predicate InFirstFree(w: seq<Slot>, p: int, at: int, dir: Inode, file: Slot, t: State, fd: int) {
    && 0 <= p < |w| && 0 <= fd < |w| && w[fd].free && (forall u :: 0 <= u < fd ==> !w[u].free)
    && t.table == w[p := w[p].(offset := at, node := dir)][fd := file]
    && |t.table| == |w| && t.table[fd] == file && t.freehead == FirstFree(t.table)
  }

  /** A call that has found nothing to do: the disk is as before. */
  predicate DiskSame(s: State, t: State) { t == s.(table := t.table, freehead := t.freehead) }

  /** `f_open` of a name in directory d, whose slot is p once the walk has left table w. */
  ghost predicate OpenDone(s: State, g: Ghost, w: seq<Slot>, d: int, p: int, name: seq<byte>, access: Access, t: State, fd: int, h: Ghost) {
    && 0 <= d < |s.inodes| && 0 <= p < |w|
    && var es := RawEntries(s.blocks, s.inodes[d]);
       if exists k :: FileAt(s.inodes, es, name, k) then
         exists k :: FileAt(s.inodes, es, name, k) && DiskSame(s, t)
                     && InFirstFree(w, p, ENTRYSIZE * (k + 1), s.inodes[d], Slot(false, ReadInode(s.inodes, es[k].inode), 0, access), t, fd)
       else if access == READ || s.sb.freeInode == -1 then
         fd == -1 && DiskSame(s, t) && t.table == w[p := w[p].(offset := ENTRYSIZE * |es|)]
       else
         var ni := s.sb.freeInode;
         && Created(s, g, t, h, d, name) && Inv(t, h) && t.inodes[ni].kind == REG && t.inodes[ni].size == 0 && t.inodes[ni].next == -1
         && InFirstFree(w, p, ENTRYSIZE * |es|, t.inodes[d], Slot(false, t.inodes[ni], 0, access), t, fd)
  }

  /** What a call by path needs in the directory that its walk finds: as its guard, but the file may be
      open already. */
  predicate OpenAsked(s: State, path: seq<byte>, access: Access) {
    var toks := Tokens(path, SLASH_ONLY);
    && |s.table| == FILETABLESIZE && toks != [] && WalkGuard(s, ParentPath(toks))
    && var (t, e) := Walk.Opendir(s, ParentPath(toks));
       (e.Some? ==> OpenRoom(t, DirSlot(t, e.value), toks[|toks| - 1], access))
  }

  /** The search of the code finds that entry. */
  lemma FirstRegularNone(inodes: seq<Inode>, es: seq<Entry>, name: seq<byte>)
    ensures var r := FirstRegular(inodes, es, 0, name);
            if r < |es| then FileAt(inodes, es, name, r) else forall k :: !FileAt(inodes, es, name, k)
  {
    hide FirstRegular;
  }

  lemma RawCount(blocks: seq<Block>, node: Inode)
    requires SizeOk(node)
    ensures |RawEntries(blocks, node)| == Count(node)
  {
  }

  /** The slot that the walk has the directory in. */
  lemma DirSlotHolds(s: State, g: Ghost, t: State, e: Entry)
    requires AtDir(t, g, e) && DiskSame(s, t) && 0 <= e.inode < |s.inodes| && t.table[DirSlot(t, e)].node.kind == DIR
    ensures var p := DirSlot(t, e);
            && t.table[p].node.index == e.inode && t.table[p].node == s.inodes[e.inode] && UsedDir(s.inodes, g.role, e.inode)
            && SizeOk(s.inodes[e.inode]) && 2 <= Count(s.inodes[e.inode])
  {
    hide Inv;
    DirFacts(t, g, DirSlot(t, e));
  }

  /** Table and free head play no part in it. */
  lemma CreatedFrom(s: State, u: State, g: Ghost, t: State, h: Ghost, d: int, name: seq<byte>)
    requires DiskSame(s, u) && Created(u, g, t, h, d, name)
    ensures Created(s, g, t, h, d, name)
  {
    hide Inv, RawEntries;
  }

  /** The file is not there and is made. */
  lemma OpenNewDoes(s: State, g: Ghost, t: State, e: Entry, name: seq<byte>, access: Access) returns (h: Ghost)
    requires AtDir(t, g, e) && DiskSame(s, t) && OpenRoom(t, DirSlot(t, e), name, access)
    requires RoomFor(t, DirSlot(t, e)) && t.sb.freeInode != -1
    ensures var p := DirSlot(t, e);
            && CanAddTo(t, p, name) && SizeOk(t.table[p].node)
            && var at := ENTRYSIZE * Count(t.table[p].node);
               && CanAddTo(WithOffset(t, p, at), p, name)
               && var (u, d, ni) := (CreateFile(WithOffset(t, p, at), p, name, access), t.table[p].node.index, s.sb.freeInode);
                  && Created(s, g, u, h, d, name) && Inv(u, h) && u.inodes[ni].kind == REG && u.inodes[ni].size == 0 && u.inodes[ni].next == -1
                  && InFirstFree(t.table, p, at, u.inodes[d], Slot(false, u.inodes[ni], 0, access), u, t.freehead)
  {
    hide Inv, CreateFile, CanAddTo, RawEntries, Created, FirstRegular, Birth.GhostAfterCreate;
    var p := DirSlot(t, e);
    DirFacts(t, g, p);
    var at := ENTRYSIZE * Count(t.table[p].node);
    OffsetKeeps(t, g, p, at);
    var u := WithOffset(t, p, at);
    RoomIsRoom(t, g, p, name);
    Birth.HeadInode(t, g, p, name);
    RoomIsRoom(u, g, p, name);
    FileCreated(u, g, p, name, access);
    h := Birth.GhostAfterCreate(u, g, p, name);
    var v := CreateFile(u, p, name, access);
    CreatedFrom(s, u, g, v, h, t.table[p].node.index, name);
    CreatedIndex(s, g, v, h, t.table[p].node.index, name);
  }

  lemma CreatedIndex(s: State, g: Ghost, t: State, h: Ghost, d: int, name: seq<byte>)
    requires Created(s, g, t, h, d, name)
    ensures 0 <= d < |t.inodes| && 0 <= s.sb.freeInode < |t.inodes|
  {
    hide Inv, RawEntries;
  }

  /** Inside the directory. */
  lemma OpenInDoes(s: State, g: Ghost, t: State, e: Entry, name: seq<byte>, access: Access) returns (h: Ghost)
    requires AtDir(t, g, e) && DiskSame(s, t) && 0 <= e.inode < |s.inodes| && OpenRoom(t, DirSlot(t, e), name, access)
    ensures var p := DirSlot(t, e);
            var es := RawEntries(t.blocks, t.table[p].node);
            && (FirstRegular(t.inodes, es, 0, name) == |es| && access != READ && t.sb.freeInode != -1 ==> CanAddTo(t, p, name))
            && OpenDone(s, g, t.table, e.inode, p, name, access, OpenIn(t, p, name, access).0, OpenIn(t, p, name, access).1, h)
  {
    hide Inv, CreateFile, CanAddTo, RawEntries, FirstRegular, Created;
    var p := DirSlot(t, e);
    DirSlotHolds(s, g, t, e);
    var es := RawEntries(t.blocks, t.table[p].node);
    RawCount(t.blocks, t.table[p].node);
    FirstRegularNone(t.inodes, es, name);
    h := g;
    if FirstRegular(t.inodes, es, 0, name) == |es| && access != READ && t.sb.freeInode != -1 {
      h := OpenNewDoes(s, g, t, e, name, access);
    }
  }

  /** Where the names lead after something of this name has been made in directory d: to what is new,
      unless d had an entry of that name before. */
  ghost predicate LeadsToNew(s: State, t: State, names: seq<seq<byte>>, d: int, name: seq<byte>)
    requires 0 <= d < |s.inodes|
  {
    Lookup(t.inodes, t.blocks, 0, names + [name], ROOT_ENTRY)
      == if NoneNamed(RawEntries(s.blocks, s.inodes[d]), name) then Some(Entry(s.sb.freeInode, name))
         else Lookup(s.inodes, s.blocks, 0, names + [name], ROOT_ENTRY)
  }

  lemma NewIsFound(s: State, g: Ghost, t: State, h: Ghost, names: seq<seq<byte>>, d: int, name: seq<byte>)
    requires Inv(s, g) && Created(s, g, t, h, d, name)
    requires var at := Lookup(s.inodes, s.blocks, 0, names, ROOT_ENTRY); at.Some? && at.value.inode == d
    ensures 0 <= d < |s.inodes| && LeadsToNew(s, t, names, d, name)
  {
    hide Inv, Lookup, RawEntries, DiskKept;
    AddedGrows(s, g, t, d, Entry(s.sb.freeInode, name));
    NewEntryFound(s, g, t, names, d, Entry(s.sb.freeInode, name));
  }

  /** What follows for the slot and for the path. */
  lemma OpenDoneMeans(s: State, g: Ghost, names: seq<seq<byte>>, w: seq<Slot>, e: Entry, name: seq<byte>, access: Access, t: State, fd: int, h: Ghost)
    requires Inv(s, g) && Arrived(s, names, w, Some(e))
    requires OpenDone(s, g, w, e.inode, SlotOf(w, e.inode), name, access, t, fd, h)
    ensures fd == -1 || (0 <= fd < |s.table| && !Stays(s.table[fd], Passed(s.inodes, s.blocks, 0, names)))
    ensures DiskSame(s, t) || Forged(s.inodes, s.blocks, 0, names) || LeadsToNew(s, t, names, e.inode, name)
  {
    hide Inv, Follow, Lookup, Forged, Passed, EndsAt, RawEntries, Created, FirstFree, SlotOf, LeadsToNew;
    if 0 <= fd < |w| {
      assert LeftAs(s.inodes, s.table[fd], w[fd], Passed(s.inodes, s.blocks, 0, names), Some(e)) || fd == 0;
    }
    if !DiskSame(s, t) && !Forged(s.inodes, s.blocks, 0, names) {
      NewIsFound(s, g, t, h, names, e.inode, name);
    }
  }

  /** `f_open`, whether the file is there, is missing or is made, and whether or not it is open already.
      The directory is the one that all names but the last lead to. Without one the call fails. If it
      has a regular file of the last name, the first such is open at its start in the first free slot,
      which was free before or was closed by the walk, with the access asked for, and the disk is as it
      was. If not, the call fails when asked to read or without a free inode; otherwise there is a new
      empty file behind the other entries, open in the same way, and the path leads to it. All other
      slots are as the walk has left them. */
  lemma OpenPathDoes(s: State, g: Ghost, path: seq<byte>, access: Access) returns (w: seq<Slot>, h: Ghost)
    requires Inv(s, g) && OpenAsked(s, path, access)
    ensures CanOpen(s, path, access)
    ensures var toks := Tokens(path, SLASH_ONLY);
            var names, name := Above(toks), toks[|toks| - 1];
            var e := Follow(s.inodes, s.blocks, 0, names, ROOT_ENTRY);
            var (t, fd) := OpenPath(s, path, access);
            && Arrived(s, names, w, e) && LeadsTo(s, AsWritten, FOpen(path, access), t)
            && (fd == -1 || (0 <= fd < |s.table| && !Stays(s.table[fd], Passed(s.inodes, s.blocks, 0, names))))
            && if e.None? then fd == -1 && DiskSame(s, t) && t.table == w
               else
                 && OpenDone(s, g, w, e.value.inode, SlotOf(w, e.value.inode), name, access, t, fd, h)
                 && (DiskSame(s, t) || Forged(s.inodes, s.blocks, 0, names) || LeadsToNew(s, t, names, e.value.inode, name))
  {
    hide Inv, Walk.Opendir, Follow, Lookup, Forged, Passed, EndsAt, OpenIn, OpenRoom, CanAddTo, RawEntries, WalkGuard, Created, Tokens,
         OpenDone, LeadsToNew, Stays, SlotsLeft;
    var toks := Tokens(path, SLASH_ONLY);
    ParentTokens(toks);
    Arrive(s, g, ParentPath(toks));
    var (t, e) := Walk.Opendir(s, ParentPath(toks));
    w, h := t.table, g;
    if e.Some? {
      h := OpenInDoes(s, g, t, e.value, NameOf(toks), access);
      RoomThere(t, DirSlot(t, e.value), NameOf(toks), access);
      var (u, fd) := OpenIn(t, DirSlot(t, e.value), NameOf(toks), access);
      OpenDoneMeans(s, g, Above(toks), w, e.value, NameOf(toks), access, u, fd, h);
    }
  }

  lemma RoomThere(t: State, p: int, name: seq<byte>, access: Access)
    requires OpenRoom(t, p, name, access)
    ensures 0 <= t.freehead < |t.table|
  {
  }

  // ---- f_mkdir ----

  /** `f_mkdir` of a name in directory d, whose slot is p once the walk has left table w. */
  ghost predicate MkdirDone(s: State, g: Ghost, v: Variant, w: seq<Slot>, d: int, p: int, name: seq<byte>, t: State, h: Ghost) {
    && 0 <= d < |s.inodes| && 0 <= p < |w|
    && if s.sb.freeInode == -1 then DiskSame(s, t) && t.table == w
       else
         var ni := s.sb.freeInode;
         && Created(s, g, t, h, d, name) && t.inodes[ni].kind == DIR && d <= 0x7FFF_FFFF
         && RawEntries(t.blocks, t.inodes[ni]) == [Entry(ni, DOT), Entry(d, DOTDOT)]
         && (Inv(t, h) <==> Birth.ChildLastSet(s.(table := w), v, p))
         && t.table == w[p := w[p].(node := t.inodes[d])]
  }

  /** As the guard, but the child's `last_block_index` may go wrong. */
  predicate MkdirAsked(s: State, path: seq<byte>) {
    var toks := Tokens(path, SLASH_ONLY);
    && |s.table| == FILETABLESIZE && toks != [] && WalkGuard(s, ParentPath(toks))
    && var (t, e) := Walk.Opendir(s, ParentPath(toks));
       (e.Some? ==> MkdirRoom(t, DirSlot(t, e.value), toks[|toks| - 1]))
  }

  /** Inside the directory. */
  lemma MkdirInDoes(s: State, g: Ghost, v: Variant, t: State, e: Entry, name: seq<byte>) returns (h: Ghost)
    requires AtDir(t, g, e) && DiskSame(s, t) && 0 <= e.inode < |s.inodes| && MkdirRoom(t, DirSlot(t, e), name)
    ensures t.sb.freeInode != -1 ==> CanAddTo(t, DirSlot(t, e), name)
    ensures MkdirDone(s, g, v, t.table, e.inode, DirSlot(t, e), name, MkdirIn(t, v, DirSlot(t, e), name), h)
  {
    hide Inv, MakeDir, CanAddTo, RawEntries, Created, Birth.GhostAfterCreate;
    var p := DirSlot(t, e);
    DirSlotHolds(s, g, t, e);
    h := g;
    if t.sb.freeInode != -1 {
      RoomIsRoom(t, g, p, name);
      DirCreated(t, g, v, p, name);
      h := Birth.GhostAfterCreate(t, g, p, name);
      CreatedFrom(s, t, g, MakeDir(t, v, p, name), h, e.inode, name);
      CreatedIndex(s, g, MakeDir(t, v, p, name), h, e.inode, name);
    }
  }

  lemma MkdirDoneMeans(s: State, g: Ghost, v: Variant, names: seq<seq<byte>>, w: seq<Slot>, e: Entry, name: seq<byte>, t: State, h: Ghost)
    requires Inv(s, g) && Arrived(s, names, w, Some(e))
    requires MkdirDone(s, g, v, w, e.inode, SlotOf(w, e.inode), name, t, h)
    ensures s.sb.freeInode == -1 || Forged(s.inodes, s.blocks, 0, names) || LeadsToNew(s, t, names, e.inode, name)
  {
    hide Inv, Follow, Lookup, Forged, Passed, EndsAt, RawEntries, Created, SlotOf, LeadsToNew;
    if s.sb.freeInode != -1 && !Forged(s.inodes, s.blocks, 0, names) {
      NewIsFound(s, g, t, h, names, e.inode, name);
    }
  }

  /** `f_mkdir`. The directory is the one that all names but the last lead to. Without one, or without
      a free inode, it returns NULL and the disk is as it was. Otherwise that directory has one more entry, behind the
      others and returned, for an inode that was free and now is a directory of "." and ".."; nothing else on disk
      that files or directories have differs, and the path leads to the new directory, unless the name
      was there before. The state is valid exactly when the child's `last_block_index` gets set. */
  lemma MkdirPathDoes(s: State, g: Ghost, v: Variant, path: seq<byte>) returns (w: seq<Slot>, h: Ghost)
    requires Inv(s, g) && MkdirAsked(s, path)
    ensures CanMkdir(s, path)
    ensures var toks := Tokens(path, SLASH_ONLY);
            var names, name := Above(toks), toks[|toks| - 1];
            var e := Follow(s.inodes, s.blocks, 0, names, ROOT_ENTRY);
            var t := MkdirPath(s, v, path);
            && Arrived(s, names, w, e) && LeadsTo(s, v, FMkdir(path), t)
            && MkdirResult(s, path) == (if e.None? || s.sb.freeInode == -1 then None else Some(Entry(s.sb.freeInode, name)))
            && if e.None? then DiskSame(s, t) && t.table == w
               else
                 && MkdirDone(s, g, v, w, e.value.inode, SlotOf(w, e.value.inode), name, t, h)
                 && (s.sb.freeInode == -1 || Forged(s.inodes, s.blocks, 0, names) || LeadsToNew(s, t, names, e.value.inode, name))
  {
    hide Inv, Walk.Opendir, Follow, Lookup, Forged, Passed, EndsAt, MkdirIn, MkdirRoom, CanAddTo, RawEntries, WalkGuard, Created, Tokens,
         MkdirDone, LeadsToNew, SlotsLeft;
    var toks := Tokens(path, SLASH_ONLY);
    ParentTokens(toks);
    Arrive(s, g, ParentPath(toks));
    var (t, e) := Walk.Opendir(s, ParentPath(toks));
    w, h := t.table, g;
    if e.Some? {
      h := MkdirInDoes(s, g, v, t, e.value, NameOf(toks));
      MkdirDoneMeans(s, g, v, Above(toks), w, e.value, NameOf(toks), MkdirIn(t, v, DirSlot(t, e.value), NameOf(toks)), h);
    }
  }

  // ---- f_opendir ----

  /** A directory that is not open, or that the walk itself goes through, or the root, is at its first
      entry when the walk ends in it; any other is where it was. */
  predicate Rewound(s: State, names: seq<seq<byte>>, d: int) {
    d == 0 || SlotOf(s.table, d) == -1 || d in Passed(s.inodes, s.blocks, 0, names)
  }

  lemma OffsetLeft(s: State, names: seq<seq<byte>>, w: seq<Slot>, e: Entry)
    requires Arrived(s, names, w, Some(e))
    ensures var p, was := SlotOf(w, e.inode), SlotOf(s.table, e.inode);
            && 0 <= p < |w|
            && w[p].offset == if Rewound(s, names, e.inode) then 0 else s.table[was].offset
  {
    hide Follow, Lookup, Forged, Passed, SlotsLeft, SlotOf;
  }

  lemma RawIsEntries(blocks: seq<Block>, node: Inode)
    requires SizeOk(node)
    ensures RawEntries(blocks, node) == Entries(blocks, node)
  {
  }

  /** After `f_opendir` of such a directory, calls of `f_readdir` return all its entries. */
  lemma OpenedListsAll(s: State, g: Ghost, path: seq<byte>)
    requires Inv(s, g) && WalkGuard(s, path)
    requires var e := Follow(s.inodes, s.blocks, 0, Tokens(path, SLASH_QUOTE), ROOT_ENTRY);
             e.Some? && ReadInode(s.inodes, e.value.inode).kind == DIR && Rewound(s, Tokens(path, SLASH_QUOTE), e.value.inode)
    ensures var (t, e) := Walk.Opendir(s, path);
            && LeadsTo(s, AsWritten, FOpendir(path), t)
            && e == Follow(s.inodes, s.blocks, 0, Tokens(path, SLASH_QUOTE), ROOT_ENTRY)
            && e.Some? && 0 <= e.value.inode < |s.inodes| && ValidFd(DirSlot(t, e.value)) && |t.table| == FILETABLESIZE
            && Listing.AtEntry(t.table[DirSlot(t, e.value)])
            && Listing.List(t, DirSlot(t, e.value)).1 == RawEntries(s.blocks, s.inodes[e.value.inode])
  {
    hide Inv, Walk.Opendir, Follow, Lookup, Forged, Passed, EndsAt, SlotsLeft, RawEntries, WalkGuard, Listing.List, Rewound, RootLeft, Entries;
    Arrive(s, g, path);
    var (t, e) := Walk.Opendir(s, path);
    OffsetLeft(s, Tokens(path, SLASH_QUOTE), t.table, e.value);
    var p := DirSlot(t, e.value);
    SlotInode(t, g, p);
    DirSlotHolds(s, g, t, e.value);
    DirFacts(t, g, p);
    Listing.ListIsSuffix(t, p, 0);
    RawIsEntries(t.blocks, t.table[p].node);
    var es := Entries(t.blocks, t.table[p].node);
    assert es[0..] == es;
  }

  lemma SlotInode(t: State, g: Ghost, p: nat)
    requires Inv(t, g) && p < |t.table| && !t.table[p].free
    ensures 0 <= t.table[p].node.index < |t.inodes| && t.table[p].node == t.inodes[t.table[p].node.index]
  {
    hide FreeInodes, FreeBlocks, Owners, Deeps, Lasts, DirsMatch, Tree, InodesOk;
    assert SlotOk(t.table[p], t.inodes, g.role);
  }
}
