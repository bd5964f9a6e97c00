/** `f_open` (creating) and `f_mkdir` keep the invariant; for `f_mkdir` as written, exactly when
    the parent's last block still has room. */
module Birth {
  import opened Bytes
  import opened Records
  import opened Operations
  import opened Invariant
  import opened Roles
  import opened Append

  function BlocksNeeded(dir: Inode): nat {
    if dir.size % BLOCKSIZE == 0 then 2 else 1
  }

  /** Slot p holds a directory with room, and there is an inode and a block for the child. */
  ghost predicate CanCreate(s: State, g: Ghost, p: nat, name: seq<byte>) {
    && Inv(s, g) && OpenDir(s, p) && NameOk(name)
    && g.fi != [] && |g.fb| >= BlocksNeeded(s.table[p].node)
  }

  /** A child fresh from the inode free list, whose first block is x. */
  predicate NewChild(child: Inode, ni: int, parent: int, cb: int, x: Block) {
    && child.index == ni && child.parent == parent && child.dblocks[0] == cb
    && ((child.kind == REG && child.size == 0)
        || (child.kind == DIR && child.size == 2 * ENTRYSIZE && EntriesMatch2(x, ni, parent)))
  }

  predicate EntriesMatch2(x: Block, self: int, parent: int) {
    && EntryIn(x, 0).inode == self && EntryIn(x, 0).name == DOT
    && EntryIn(x, 1).inode == parent && EntryIn(x, 1).name == DOTDOT
  }

  lemma DotEntriesMatch(data: Block, self: int32, parent: int32)
    ensures EntriesMatch2(DotEntries(data, self, parent), self, parent)
  {
    var a, b := EntryBytes(Entry(self, DOT)), EntryBytes(Entry(parent, DOTDOT));
    var y := Splice(data, 0, a);
    EntryAfterSplice(data, 0, a, 0);
    EntryAfterSplice(y, 1, b, 0);
    EntryAfterSplice(y, 1, b, 1);
    EntryRoundTrip(Entry(self, DOT), a);
    EntryRoundTrip(Entry(parent, DOTDOT), b);
  }

  lemma BirthKeepsInodes(s: State, g: Ghost, ni: int, child: Inode, cb: int, x: Block, parent: int)
    requires InodesOk(s.inodes, g.role) && TableOk(s.table, s.inodes, g.role)
    requires 0 <= ni < |s.inodes| && g.role[ni].Idle? && NewChild(child, ni, parent, cb, x)
    ensures InodesOk(s.inodes[ni := child], g.role[ni := InUse])
    ensures TableOk(s.table, s.inodes[ni := child], g.role[ni := InUse])
  {
    var inodes', role' := s.inodes[ni := child], g.role[ni := InUse];
    forall i | 0 <= i < |inodes'| ensures InodeOk(inodes'[i], i, role'[i]) {
      assert InodeOk(s.inodes[i], i, g.role[i]);
    }
    forall k | 0 <= k < |s.table| ensures SlotOk(s.table[k], inodes', role') {
      assert SlotOk(s.table[k], s.inodes, g.role);
    }
  }

  lemma BirthKeepsBlocks(s: State, g: Ghost, ni: int, child: Inode, x: Block, parent: int)
    requires FreeBlocks(Top(g.fb), s.blocks, g.own, g.fb) && Owners(s.inodes, g.role, g.own)
    requires 0 <= ni < |s.inodes| && g.role[ni].Idle? && g.fb != []
    requires NewChild(child, ni, parent, Top(g.fb), x)
    ensures var cb := Top(g.fb);
            && 0 <= cb < |s.blocks|
            && FreeBlocks(Link(s.blocks[cb]), s.blocks[cb := x], g.own[cb := By(ni, 0)], g.fb[..|g.fb| - 1])
            && Owners(s.inodes[ni := child], g.role[ni := InUse], g.own[cb := By(ni, 0)])
  {
    var cb := Top(g.fb);
    TakeBlock(s.blocks, g.own, g.fb, By(ni, 0));
    WriteOwnedBlock(Link(s.blocks[cb]), s.blocks, g.own[cb := By(ni, 0)], g.fb[..|g.fb| - 1], cb, x);
    BirthOwner(s.inodes, g.role, g.own, ni, child);
  }

  /** The entries of the other directories stay; those of a new directory are "." and "..". */
  lemma BirthKeepsDirs(s: State, g: Ghost, ni: int, child: Inode, cb: int, x: Block, parent: int, es: seq<Entry>)
    requires InodesOk(s.inodes, g.role) && Owners(s.inodes, g.role, g.own) && |g.own| == |s.blocks|
    requires DirsMatch(s.inodes, s.blocks, g.role, g.dirs) && Lasts(s.inodes, g.role)
    requires 0 <= ni < |s.inodes| && g.role[ni].Idle?
    requires 0 <= cb < |s.blocks| && g.own[cb].Free?
    requires NewChild(child, ni, parent, cb, x)
    requires child.kind == DIR ==> |es| == 2 && es[0] == EntryIn(x, 0) && es[1] == EntryIn(x, 1)
    ensures DirsMatch(s.inodes[ni := child], s.blocks[cb := x], g.role[ni := InUse], g.dirs[ni := es])
    ensures Lasts(s.inodes[ni := child], g.role[ni := InUse]) <==> child.kind == REG || LastOk(child)
    ensures forall i :: 0 <= i < |s.inodes| && i != ni && g.role[i].InUse? && s.inodes[i].kind == DIR ==> LastOk(s.inodes[i])
  {
    var inodes', blocks', role' := s.inodes[ni := child], s.blocks[cb := x], g.role[ni := InUse];
    var dirs := g.dirs[ni := es];
    forall i | 0 <= i < |inodes'| && role'[i].InUse? && inodes'[i].kind == DIR
      ensures EntriesMatch(inodes'[i], blocks', dirs[i])
    {
      if i != ni {
        assert InodeOk(s.inodes[i], i, g.role[i]) && EntriesMatch(s.inodes[i], s.blocks, g.dirs[i]);
        EntriesUntouched(s.inodes, s.blocks, g.role, g.own, i, g.dirs[i], cb, x);
      } else {
        forall k | 0 <= k < 2 ensures DirEntry(blocks', child, k) == es[k] {
        }
      }
    }
    LastsOfAll(s.inodes, g.role, ni, child);
  }

  /** The new directory's `last_block_index` is the only one in question. */
  lemma LastsOfAll(inodes: seq<Inode>, role: seq<Role>, ni: int, child: Inode)
    requires Lasts(inodes, role) && 0 <= ni < |inodes| && (child.kind == REG || child.kind == DIR)
    ensures Lasts(inodes[ni := child], role[ni := InUse]) <==> child.kind == REG || LastOk(child)
    ensures forall i :: 0 <= i < |inodes| && i != ni && role[i].InUse? && inodes[i].kind == DIR ==> LastOk(inodes[i])
  {
    var n1, r1 := inodes[ni := child], role[ni := InUse];
    assert n1[ni] == child && r1[ni].InUse?;
    forall i | 0 <= i < |n1| && i != ni && r1[i].InUse? && n1[i].kind == DIR ensures LastOk(n1[i]) {
      assert LastOk(inodes[i]);
    }
    if Lasts(n1, r1) && child.kind == DIR {
      assert LastOk(n1[ni]);
    }
  }

  /** A new child at the end of directory d keeps the tree. */
  lemma TreeGrows(inodes: seq<Inode>, role: seq<Role>, pos: seq<int>, rank: seq<nat>, dirs: seq<seq<Entry>>,
                  d: int, dir: Inode, ni: int, child: Inode, name: seq<byte>, es: seq<Entry>)
    requires Tree(inodes, role, pos, rank, dirs) && UsedDir(inodes, role, d) && 0 <= ni < |inodes| && role[ni].Idle?
    requires role[0].InUse? && |inodes| <= 0x7FFF_FFFF && NameOk(name)
    requires dir.kind == DIR && dir.parent == inodes[d].parent
    requires child.parent == d && (child.kind == DIR ==> DotsOk(es, ni, d) && |es| == 2)
    ensures Tree(inodes[d := dir][ni := child], role[ni := InUse], pos[ni := |dirs[d]|], rank[ni := rank[d] + 1],
                 dirs[d := dirs[d] + [Entry(ni, name)]][ni := es])
  {
    var n1, r1 := inodes[d := dir][ni := child], role[ni := InUse];
    var p1, k1 := pos[ni := |dirs[d]|], rank[ni := rank[d] + 1];
    var d1 := dirs[d := dirs[d] + [Entry(ni, name)]][ni := es];
    assert DotsOk(dirs[d], d, inodes[d].parent);
    forall i | 0 <= i < |n1| && r1[i].InUse? && n1[i].kind == DIR ensures DotsOk(d1[i], i, n1[i].parent) {
      if i != ni {
        assert DotsOk(dirs[i], i, inodes[i].parent);
      }
    }
    forall i, k | 0 <= i < |n1| && r1[i].InUse? && n1[i].kind == DIR && 2 <= k < |d1[i]|
      ensures ChildOk(n1, r1, p1, d1[i][k], i, k)
    {
      if i != ni && k < |dirs[i]| {
        assert ChildOk(inodes, role, pos, dirs[i][k], i, k);
      }
    }
    forall j | 0 < j < |n1| && r1[j].InUse? ensures Named(n1, r1, p1, k1, d1, j) {
      if j != ni {
        assert Named(inodes, role, pos, rank, dirs, j);
      }
    }
  }

  /** Opening a fresh inode in a free slot. */
  lemma TableOpens(table: seq<Slot>, inodes: seq<Inode>, role: seq<Role>, f: int, slot: Slot)
    requires TableOk(table, inodes, role) && 0 < f < |table| && table[f].free && slot.node.index != 0
    requires !slot.free && SlotOk(slot, inodes, role)
    requires forall t :: 0 <= t < |table| && !table[t].free ==> table[t].node.index != slot.node.index
    ensures TableOk(table[f := slot], inodes, role)
  {
    var table' := table[f := slot];
    forall t | 0 <= t < |table| ensures SlotOk(table'[t], inodes, role) {
      assert SlotOk(table[t], inodes, role);
    }
  }

  // ---- between the entry and the child ----

  /** The entry for inode ni is written as the last one of directory d, the child is not there yet. */
  ghost predicate Staged(s: State, g: Ghost, d: int, ni: int, name: seq<byte>) {
    && Disk(s, g)
    && g.fi != [] && ni == Top(g.fi) && g.fb != []
    && FreeInodes(ni, s.inodes, g.role, g.fi)
    && 0 <= ni < |s.inodes| && g.role[ni].Idle? && UsedDir(s.inodes, g.role, d)
    && s.sb.freeInode == s.inodes[ni].next && s.sb.freeBlock == Top(g.fb)
    && 0 <= Top(g.fb) < |s.blocks| && g.own[Top(g.fb)].Free?
    && |g.dirs| == |s.inodes| && NameOk(name)
    && |g.dirs[d]| > 0
    && (var es := g.dirs[d];
        && es[|es| - 1].inode == ni && es[|es| - 1].name == name
        && Tree(s.inodes, g.role, g.pos, g.rank, g.dirs[d := es[..|es| - 1]]))
  }

  /** The roles once the child is there. */
  ghost function GhostAfterBirth(g: Ghost, d: int, ni: int, name: seq<byte>): Ghost
    requires 0 <= ni < |g.role| == |g.pos| == |g.rank| == |g.dirs| && 0 <= d < |g.dirs| && |g.dirs[d]| > 0
    requires ni <= 0x7FFF_FFFF && d <= 0x7FFF_FFFF
    requires g.fi != [] && g.fb != [] && 0 <= Top(g.fb) < |g.own|
  {
    Ghost(g.fi[..|g.fi| - 1], g.fb[..|g.fb| - 1], g.role[ni := InUse], g.own[Top(g.fb) := By(ni, 0)],
          g.pos[ni := |g.dirs[d]| - 1], g.rank[ni := g.rank[d] + 1], g.dirs[ni := [Entry(ni, DOT), Entry(d, DOTDOT)]])
  }

  /** The state once the child is there. */
  function Born(s: State, ni: int, child: Inode, cb: int, x: Block): State
    requires 0 <= ni < |s.inodes| && 0 <= cb < |s.blocks|
  {
    s.(inodes := s.inodes[ni := child], blocks := s.blocks[cb := x], sb := PopFreeBlock(s), dsb := PopFreeBlock(s))
  }

  lemma BirthKeepsTree(s: State, g: Ghost, d: int, ni: int, name: seq<byte>, child: Inode, x: Block)
    requires Staged(s, g, d, ni, name) && NewChild(child, ni, d, Top(g.fb), x)
    ensures var h := GhostAfterBirth(g, d, ni, name); Tree(s.inodes[ni := child], h.role, h.pos, h.rank, h.dirs)
  {
    var es := g.dirs[d];
    var dirs0 := g.dirs[d := es[..|es| - 1]];
    assert es == dirs0[d] + [Entry(ni, name)];
    assert dirs0[d := dirs0[d] + [Entry(ni, name)]] == g.dirs;
    assert s.inodes[d := s.inodes[d]] == s.inodes;
    TreeGrows(s.inodes, g.role, g.pos, g.rank, dirs0, d, s.inodes[d], ni, child, name, [Entry(ni, DOT), Entry(d, DOTDOT)]);
  }

  /** Neither the child nor its block has anything to do with the deeper blocks of other files. */
  lemma BirthKeepsDeeps(s: State, g: Ghost, ni: int, child: Inode, x: Block, parent: int)
    requires Deeps(s.inodes, s.blocks, g.role, g.own) && 0 <= ni < |s.inodes| && g.role[ni].Idle? && g.fb != []
    requires 0 <= Top(g.fb) < |s.blocks| == |g.own| && g.own[Top(g.fb)].Free?
    requires NewChild(child, ni, parent, Top(g.fb), x)
    ensures Deeps(s.inodes[ni := child], s.blocks[Top(g.fb) := x], g.role[ni := InUse], g.own[Top(g.fb) := By(ni, 0)])
  {
    hide Deeps;
    SmallIsShallow(child, InUse);
    DeepsAside(s.inodes, s.blocks, g.role, g.own, ni, child, InUse, s.blocks[Top(g.fb) := x], g.own[Top(g.fb) := By(ni, 0)]);
  }

  lemma BirthKeeps(s: State, g: Ghost, d: int, ni: int, name: seq<byte>, child: Inode, x: Block)
    requires Staged(s, g, d, ni, name) && NewChild(child, ni, d, Top(g.fb), x)
    ensures var t, h := Born(s, ni, child, Top(g.fb), x), GhostAfterBirth(g, d, ni, name);
            && AllButLasts(t, h)
            && (Lasts(t.inodes, h.role) <==> child.kind == REG || LastOk(child))
  {
    BirthKeepsInodes(s, g, ni, child, Top(g.fb), x, d);
    BirthKeepsBlocks(s, g, ni, child, x, d);
    BirthKeepsDirs(s, g, ni, child, Top(g.fb), x, d, [Entry(ni, DOT), Entry(d, DOTDOT)]);
    BirthKeepsTree(s, g, d, ni, name, child, x);
    BirthKeepsDeeps(s, g, ni, child, x, d);
    TakeInode(s.inodes, g.role, g.fi, child);
  }

  // ---- up to the entry ----

  /** The head of the inode free list. */
  lemma HeadInode(s: State, g: Ghost, p: nat, name: seq<byte>)
    requires CanCreate(s, g, p, name)
    ensures s.sb.freeInode == Top(g.fi) && 0 <= Top(g.fi) < |s.inodes| && g.role[Top(g.fi)].Idle?
    ensures Top(g.fi) != s.table[p].node.index && s.inodes[Top(g.fi)].index == Top(g.fi)
    ensures CanAddTo(s, p, name)
  {
    OpenDirFacts(s, g, p);
    assert IdleAt(g.fi, s.inodes, g.role, |g.fi| - 1);
    assert InodeOk(s.inodes[Top(g.fi)], Top(g.fi), g.role[Top(g.fi)]);
  }

  /** The state between taking the inode and writing the entry. */
  function InodeTaken(s: State): State
    requires 0 <= s.sb.freeInode < |s.inodes|
  {
    s.(sb := s.sb.(freeInode := s.inodes[s.sb.freeInode].next))
  }

  lemma InodeTakenFirst(s: State, g: Ghost, p: nat, name: seq<byte>)
    requires CanCreate(s, g, p, name) && CanAddTo(s, p, name)
    ensures var e := Entry(s.sb.freeInode, name);
            && CanAppend(s, g, p, e) && CanAppend(InodeTaken(s), g, p, e)
            && GhostAfterAppend(InodeTaken(s), g, p, e) == GhostAfterAppend(s, g, p, e)
            && GrownDir(InodeTaken(s), p) == GrownDir(s, p)
  {
    OpenDirFacts(s, g, p);
  }

  /** After the entry is written the disk is consistent. */
  lemma EntryKeepsDisk(s: State, g: Ghost, p: nat, name: seq<byte>)
    requires CanCreate(s, g, p, name) && CanAddTo(s, p, name)
    ensures CanAppend(s, g, p, Entry(s.sb.freeInode, name))
    ensures Disk(WithNewEntry(s, p, name), GhostAfterAppend(s, g, p, Entry(s.sb.freeInode, name)))
  {
    InodeTakenFirst(s, g, p, name);
    AppendKeepsDisk(InodeTaken(s), g, p, Entry(s.sb.freeInode, name));
  }

  /** The parts of the state that the child does not touch. */
  lemma EntryForm(s: State, g: Ghost, p: nat, name: seq<byte>)
    requires CanCreate(s, g, p, name) && CanAddTo(s, p, name)
    ensures var d := s.table[p].node.index;
            var s1 := WithNewEntry(s, p, name);
            && 0 <= d < |s.inodes| && g.role[d].InUse?
            && s1.inodes == s.inodes[d := GrownDir(s, p)]
            && s1.table == s.table[p := s.table[p].(node := GrownDir(s, p))]
            && s1.freehead == s.freehead
            && |s1.blocks| == |s.blocks|
            && s1.sb.freeInode == s.inodes[s.sb.freeInode].next
  {
    OpenDirFacts(s, g, p);
    InodeTakenFirst(s, g, p, name);
    AppendEntries(s, g, p, Entry(s.sb.freeInode, name));
    AppendForm(InodeTaken(s), p, Entry(s.sb.freeInode, name));
  }

  /** The block for the child is the head of the list that is left. */
  lemma HeadBlock(s: State, g: Ghost)
    requires FreeBlocks(s.sb.freeBlock, s.blocks, g.own, g.fb) && g.fb != []
    ensures s.sb.freeBlock == Top(g.fb) && 0 <= Top(g.fb) < |s.blocks| && g.own[Top(g.fb)].Free?
  {
    assert FreeAt(g.fb, s.blocks, g.own, |g.fb| - 1);
  }

  /** A directory may grow without disturbing the tree. */
  lemma TreeIgnoresSize(inodes: seq<Inode>, role: seq<Role>, pos: seq<int>, rank: seq<nat>, dirs: seq<seq<Entry>>, d: int, dir: Inode)
    requires Tree(inodes, role, pos, rank, dirs) && 0 <= d < |inodes|
    requires dir.kind == inodes[d].kind && dir.parent == inodes[d].parent
    ensures Tree(inodes[d := dir], role, pos, rank, dirs)
  {
    var n1 := inodes[d := dir];
    forall i | 0 <= i < |n1| && role[i].InUse? && n1[i].kind == DIR ensures DotsOk(dirs[i], i, n1[i].parent) {
      assert DotsOk(dirs[i], i, inodes[i].parent);
    }
    forall i, k | 0 <= i < |n1| && role[i].InUse? && n1[i].kind == DIR && 2 <= k < |dirs[i]|
      ensures ChildOk(n1, role, pos, dirs[i][k], i, k)
    {
      assert ChildOk(inodes, role, pos, dirs[i][k], i, k);
    }
    forall j | 0 < j < |n1| && role[j].InUse? ensures Named(n1, role, pos, rank, dirs, j) {
      assert Named(inodes, role, pos, rank, dirs, j);
    }
  }

  lemma Stage(s: State, g: Ghost, p: nat, name: seq<byte>)
    requires CanCreate(s, g, p, name)
    ensures CanAddTo(s, p, name)
    ensures CanAppend(s, g, p, Entry(s.sb.freeInode, name))
    ensures var g1 := GhostAfterAppend(s, g, p, Entry(s.sb.freeInode, name));
            && Staged(WithNewEntry(s, p, name), g1, s.table[p].node.index, s.sb.freeInode, name)
            && |g1.dirs[s.table[p].node.index]| == |g.dirs[s.table[p].node.index]| + 1
  {
    HeadInode(s, g, p, name);
    EntryKeepsDisk(s, g, p, name);
    EntryForm(s, g, p, name);
    GrownDirOk(s, g, p);
    var d, ni := s.table[p].node.index, s.sb.freeInode;
    var s1 := WithNewEntry(s, p, name);
    var g1 := GhostAfterAppend(s, g, p, Entry(ni, name));
    HeadBlock(s1, g1);
    WriteUsedInode(ni, s.inodes, g.role, g.fi, d, GrownDir(s, p));
    var es := g1.dirs[d];
    assert es[..|es| - 1] == g.dirs[d];
    assert g1.dirs[d := g.dirs[d]] == g.dirs;
    TreeIgnoresSize(s.inodes, g.role, g.pos, g.rank, g.dirs, d, GrownDir(s, p));
  }

  // ---- the two calls ----

  /** The roles after `f_open` has created a file or `f_mkdir` a directory. */
  ghost function GhostAfterCreate(s: State, g: Ghost, p: nat, name: seq<byte>): Ghost
    requires CanCreate(s, g, p, name)
  {
    Stage(s, g, p, name);
    GhostAfterBirth(GhostAfterAppend(s, g, p, Entry(s.sb.freeInode, name)), s.table[p].node.index, s.sb.freeInode, name)
  }

  /** The new inode and its blocks come off the lists; nothing is lost. */
  lemma CreateLosesNothing(s: State, g: Ghost, p: nat, name: seq<byte>)
    requires CanCreate(s, g, p, name)
    ensures LostSet(GhostAfterCreate(s, g, p, name).own) == LostSet(g.own)
  {
    hide InodesOk, Owners, Deeps, Lasts, DirsMatch, TableOk, FreeInodes, Tree, WithNewEntry, FreeBlocks;
    Stage(s, g, p, name);
    HeadInode(s, g, p, name);
    OpenDirFacts(s, g, p);
    EntryForm(s, g, p, name);
    var g1 := GhostAfterAppend(s, g, p, Entry(s.sb.freeInode, name));
    var h := GhostAfterCreate(s, g, p, name);
    forall b | 0 <= b < |g.own| ensures h.own[b].Lost? <==> g.own[b].Lost? {
      assert g1.own[b].Lost? <==> g.own[b].Lost?;
    }
    assert |h.own| == |g.own|;
  }

  /** The file inode that `f_open` writes. */
  function NewFile(node: Inode, parent: int32, cb: int32): Inode {
    node.(kind := REG, parent := parent, size := 0, next := -1, dblocks := node.dblocks[0 := cb])
  }

  lemma CreateForm(s: State, p: nat, name: seq<byte>, access: Access)
    requires CanAddTo(s, p, name) && 0 <= s.freehead < |s.table|
    requires var s1 := WithNewEntry(s, p, name);
             |s1.inodes| == |s.inodes| && |s1.table| == |s.table| && 0 <= s1.sb.freeBlock < |s1.blocks|
    ensures var s1 := WithNewEntry(s, p, name);
            var ni := s.sb.freeInode;
            var file := NewFile(s1.inodes[ni], s.table[p].node.index, s1.sb.freeBlock);
            var u := Born(s1, ni, file, s1.sb.freeBlock, s1.blocks[s1.sb.freeBlock]);
            var table := u.table[s.freehead := Slot(false, file, 0, access)];
            CreateFile(s, p, name, access) == u.(table := table, freehead := FirstFree(table))
  {
    var s1 := WithNewEntry(s, p, name);
    assert s1.blocks[s1.sb.freeBlock as int := s1.blocks[s1.sb.freeBlock]] == s1.blocks;
  }

  lemma OpenNewFile(s: State, g: Ghost, f: int, slot: Slot, freehead: int)
    requires Inv(s, g) && 0 < f < |s.table| && s.table[f].free && slot.node.index != 0
    requires !slot.free && SlotOk(slot, s.inodes, g.role)
    requires forall t :: 0 <= t < |s.table| && !s.table[t].free ==> s.table[t].node.index != slot.node.index
    ensures Inv(s.(table := s.table[f := slot], freehead := freehead), g)
  {
    TableOpens(s.table, s.inodes, g.role, f, slot);
  }

  /** A free inode is not open. */
  lemma IdleNotOpen(table: seq<Slot>, inodes: seq<Inode>, role: seq<Role>, ni: int)
    requires TableOk(table, inodes, role) && 0 <= ni < |role| && role[ni].Idle?
    ensures forall t :: 0 <= t < |table| && !table[t].free ==> table[t].node.index != ni
  {
    forall t | 0 <= t < |table| && !table[t].free ensures table[t].node.index != ni {
      assert SlotOk(table[t], inodes, role);
    }
  }

  /** The disk with the new file on it, before it is opened. */
  ghost function FileBorn(s: State, g: Ghost, p: nat, name: seq<byte>): State
    requires CanCreate(s, g, p, name)
  {
    Stage(s, g, p, name);
    var s1 := WithNewEntry(s, p, name);
    var ni, cb := s.sb.freeInode, s1.sb.freeBlock;
    Born(s1, ni, NewFile(s1.inodes[ni], s.table[p].node.index, cb), cb, s1.blocks[cb])
  }

  lemma FileBornKeeps(s: State, g: Ghost, p: nat, name: seq<byte>)
    requires CanCreate(s, g, p, name)
    ensures var ni, u := s.sb.freeInode, FileBorn(s, g, p, name);
            && Inv(u, GhostAfterCreate(s, g, p, name)) && 0 <= ni < |u.inodes| && u.inodes[ni].index == ni
            && u.inodes[ni].size == 0 && u.inodes[ni].kind == REG
            && |u.table| == |s.table| && u.table == s.table[p := u.table[p]] && !u.table[p].free
            && (forall t :: 0 <= t < |u.table| && !u.table[t].free ==> u.table[t].node.index != ni)
  {
    Stage(s, g, p, name);
    EntryForm(s, g, p, name);
    var ni, d := s.sb.freeInode, s.table[p].node.index;
    var s1 := WithNewEntry(s, p, name);
    var g1 := GhostAfterAppend(s, g, p, Entry(ni, name));
    assert InodeOk(s1.inodes[ni], ni, g1.role[ni]);
    BirthKeeps(s1, g1, d, ni, name, NewFile(s1.inodes[ni], d, s1.sb.freeBlock), s1.blocks[s1.sb.freeBlock]);
    IdleNotOpen(s1.table, s1.inodes, g1.role, ni);
  }

  /** `f_open` of a new file keeps the invariant. */
  lemma CreateKeeps(s: State, g: Ghost, p: nat, name: seq<byte>, access: Access)
    requires CanCreate(s, g, p, name) && !s.table[0].free
    requires 0 <= s.freehead < |s.table| && s.table[s.freehead].free
    ensures CanAddTo(s, p, name)
    ensures Inv(CreateFile(s, p, name, access), GhostAfterCreate(s, g, p, name))
  {
    hide FreeBlocks, Owners, Deeps, Lasts, DirsMatch, FreeInodes, Tree, CreateFile, WithNewEntry;
    Stage(s, g, p, name);
    EntryForm(s, g, p, name);
    FileBornKeeps(s, g, p, name);
    CreateForm(s, p, name, access);
    var u := FileBorn(s, g, p, name);
    var slot := Slot(false, u.inodes[s.sb.freeInode], 0, access);
    OpenNewFile(u, GhostAfterCreate(s, g, p, name), s.freehead, slot, FirstFree(u.table[s.freehead := slot]));
  }

  /** Whether `f_mkdir` leaves the child's `last_block_index` at its only block: always when the
      parent's last block has room; when it is full, only if the inode happens to remember, from
      an earlier life, the block that is second on the free list. */
  predicate ChildLastSet(s: State, v: Variant, p: nat)
    requires p < |s.table| && 0 <= s.sb.freeInode < |s.inodes|
  {
    || v.Repaired?
    || s.table[p].node.size % BLOCKSIZE != 0
    || s.inodes[s.sb.freeInode].last == Link(GetBlock(s.blocks, s.sb.freeBlock))
  }

  lemma MakeDirForm(s: State, v: Variant, p: nat, name: seq<byte>)
    requires CanAddTo(s, p, name)
    requires var s1 := WithNewEntry(s, p, name); |s1.inodes| == |s.inodes| && 0 <= s1.sb.freeBlock < |s1.blocks|
    ensures var s1 := WithNewEntry(s, p, name);
            var t := MakeDir(s, v, p, name);
            var ni, cb, d := s.sb.freeInode, s1.sb.freeBlock, s.table[p].node.index;
            && |t.inodes| == |s.inodes|
            && t == Born(s1, ni, t.inodes[ni], cb, DotEntries(s1.blocks[cb], ni, d))
            && t.inodes[ni].size == 2 * ENTRYSIZE && t.inodes[ni].kind == DIR && t.inodes[ni].parent == d
            && t.inodes[ni].index == s.inodes[ni].index && t.inodes[ni].dblocks[0] == cb
            && (LastOk(t.inodes[ni]) <==>
                  v.Repaired? || s.table[p].node.size % BLOCKSIZE != 0 || s.inodes[ni].last == cb)
  {
    var s1 := WithNewEntry(s, p, name);
    var x := DotEntries(s1.blocks[s1.sb.freeBlock], s.sb.freeInode, s.table[p].node.index);
    assert Splice(s1.blocks[s1.sb.freeBlock], 0, x) == x;
  }

  /** Behind a full directory block, the child's block is the second on the free list. */
  lemma ChildBlock(s: State, g: Ghost, p: nat, name: seq<byte>)
    requires CanCreate(s, g, p, name) && CanAddTo(s, p, name)
    ensures s.table[p].node.size % BLOCKSIZE == 0 ==>
              WithNewEntry(s, p, name).sb.freeBlock == Link(GetBlock(s.blocks, s.sb.freeBlock))
  {
    OpenDirFacts(s, g, p);
    InodeTakenFirst(s, g, p, name);
    AppendEntries(s, g, p, Entry(s.sb.freeInode, name));
    AppendForm(InodeTaken(s), p, Entry(s.sb.freeInode, name));
  }

  /** `f_mkdir` keeps everything of the invariant but, possibly, the child's `last_block_index`; all
      other directories keep theirs. */
  lemma MakeDirKeepsRest(s: State, g: Ghost, v: Variant, p: nat, name: seq<byte>)
    requires CanCreate(s, g, p, name)
    ensures CanAddTo(s, p, name)
    ensures var t, h, ni := MakeDir(s, v, p, name), GhostAfterCreate(s, g, p, name), s.sb.freeInode;
            && AllButLasts(t, h) && |h.role| == |t.inodes|
            && (Inv(t, h) <==> ChildLastSet(s, v, p))
            && 0 <= ni < |t.inodes| && h.role[ni].InUse? && t.inodes[ni].kind == DIR
            && (LastOk(t.inodes[ni]) <==> ChildLastSet(s, v, p))
            && (forall d :: 0 <= d < |t.inodes| && d != ni && h.role[d].InUse? && t.inodes[d].kind == DIR ==> LastOk(t.inodes[d]))
  {
    hide InodesOk, FreeBlocks, Owners, Deeps, DirsMatch, TableOk, FreeInodes, Tree, MakeDir, WithNewEntry;
    Stage(s, g, p, name);
    HeadInode(s, g, p, name);
    EntryForm(s, g, p, name);
    ChildBlock(s, g, p, name);
    MakeDirForm(s, v, p, name);
    var ni, d := s.sb.freeInode, s.table[p].node.index;
    var s1 := WithNewEntry(s, p, name);
    var x := DotEntries(s1.blocks[s1.sb.freeBlock], ni, d);
    DotEntriesMatch(s1.blocks[s1.sb.freeBlock], ni, d);
    BirthKeeps(s1, GhostAfterAppend(s, g, p, Entry(ni, name)), d, ni, name, MakeDir(s, v, p, name).inodes[ni], x);
  }

  /** Two explanations of a state agree on which inodes are free: the list on disk decides. */
  lemma {:induction false} FreeListDecides(head: int, inodes: seq<Inode>, r1: seq<Role>, f1: seq<int>, r2: seq<Role>, f2: seq<int>, k: nat)
    requires FreeInodes(head, inodes, r1, f1) && FreeInodes(head, inodes, r2, f2)
    ensures k < |f1| ==> k < |f2| && f1[|f1| - 1 - k] == f2[|f2| - 1 - k]
  {
    if k < |f1| {
      assert IdleAt(f1, inodes, r1, |f1| - 1 - k);
      if k == 0 {
        assert f2 != [];
      } else {
        FreeListDecides(head, inodes, r1, f1, r2, f2, k - 1);
        assert IdleAt(f1, inodes, r1, |f1| - k) && IdleAt(f2, inodes, r2, |f2| - k);
      }
    }
  }

  lemma RolesDecided(head: int, inodes: seq<Inode>, r1: seq<Role>, f1: seq<int>, r2: seq<Role>, f2: seq<int>, i: nat)
    requires FreeInodes(head, inodes, r1, f1) && FreeInodes(head, inodes, r2, f2)
    requires i < |inodes|
    ensures r2[i].Idle? ==> r1[i].Idle?
  {
    if r2[i].Idle? {
      assert InodeListed(f2, r2[i], i);
      var k := |f2| - 1 - r2[i].d;
      FreeListDecides(head, inodes, r2, f2, r1, f1, k);
      assert IdleAt(f1, inodes, r1, |f1| - 1 - k);
    }
  }

  /** `f_mkdir` keeps the invariant exactly when it sets the child's `last_block_index`. */
  lemma MakeDirValidExactly(s: State, g: Ghost, v: Variant, p: nat, name: seq<byte>)
    requires CanCreate(s, g, p, name)
    ensures CanAddTo(s, p, name)
    ensures Valid(MakeDir(s, v, p, name)) <==> ChildLastSet(s, v, p)
  {
    MakeDirKeepsRest(s, g, v, p, name);
    var t, h, ni := MakeDir(s, v, p, name), GhostAfterCreate(s, g, p, name), s.sb.freeInode;
    if Valid(t) {
      var g' :| Inv(t, g');
      RolesDecided(t.sb.freeInode, t.inodes, h.role, h.fi, g'.role, g'.fi, ni);
      assert LastOk(t.inodes[ni]);
    }
  }
}
