/** `f_remove` as a whole: the invariant survives exactly when the directory gives up no block
    and the loop over the file's blocks leaves a sound list. */
module Deletion {
  import opened Bytes
  import opened BlockMap
  import opened Records
  import opened FileTree
  import opened Operations
  import opened Invariant
  import opened Roles
  import opened Removal
  import opened Release
  import Birth
  import Conservation

  /** Entry k of the directory open in slot p names a closed file or a closed, empty directory. */
  ghost predicate CanRemove(s: State, g: Ghost, p: nat, k: nat) {
    && Inv(s, g) && p < |s.table| && !s.table[p].free && s.table[p].node.kind == DIR
    && UsedDir(s.inodes, g.role, s.table[p].node.index)
    && |g.dirs| == |s.inodes| && 2 <= k < |g.dirs[s.table[p].node.index]|
    && 0 <= Victim(s, g, p, k) < |s.inodes|
    && (forall t :: 0 <= t < |s.table| && !s.table[t].free ==> s.table[t].node.index != Victim(s, g, p, k))
    && (s.inodes[Victim(s, g, p, k)].kind == DIR ==> s.inodes[Victim(s, g, p, k)].size == 2 * ENTRYSIZE)
  }

  /** The inode that entry k names. */
  ghost function Victim(s: State, g: Ghost, p: nat, k: nat): int32
    requires p < |s.table| && 0 <= s.table[p].node.index < |g.dirs| && k < |g.dirs[s.table[p].node.index]|
  {
    g.dirs[s.table[p].node.index][k].inode
  }

  // ---- the tree ----

  /** Where the entries of directory d are after the swap. */
  ghost function PosAfterSwap(pos: seq<int>, es: seq<Entry>, k: nat): seq<int>
    requires k < |es| && 0 <= es[|es| - 1].inode < |pos|
  {
    pos[es[|es| - 1].inode := k]
  }

  /** Removing a childless inode and its entry keeps the tree. */
  lemma TreeShrinks(inodes: seq<Inode>, role: seq<Role>, pos: seq<int>, rank: seq<nat>, dirs: seq<seq<Entry>>,
                    d: int, dir: Inode, k: nat, j: int, node: Inode, idle: Role)
    requires Tree(inodes, role, pos, rank, dirs) && UsedDir(inodes, role, d) && role[0].InUse?
    requires 2 <= k < |dirs[d]| && j == dirs[d][k].inode && 0 < j < |inodes| && idle.Idle?
    requires dir.kind == DIR && dir.parent == inodes[d].parent
    requires role[j].InUse? && (inodes[j].kind == DIR ==> |dirs[j]| == 2)
    ensures 0 <= dirs[d][|dirs[d]| - 1].inode < |pos|
    ensures Tree(inodes[d := dir][j := node], role[j := idle], PosAfterSwap(pos, dirs[d], k), rank,
                 dirs[d := RemoveSwap(dirs[d], k)])
  {
    var es := dirs[d];
    var m := |es| - 1;
    assert ChildOk(inodes, role, pos, dirs[d][m], d, m) && ChildOk(inodes, role, pos, dirs[d][k], d, k);
    assert Named(inodes, role, pos, rank, dirs, j);
    var n1, r1 := inodes[d := dir][j := node], role[j := idle];
    var p1, d1 := PosAfterSwap(pos, es, k), dirs[d := RemoveSwap(es, k)];
    forall i | 0 <= i < |n1| && r1[i].InUse? && n1[i].kind == DIR ensures DotsOk(d1[i], i, n1[i].parent) {
      assert DotsOk(dirs[i], i, inodes[i].parent);
    }
    forall i, c | 0 <= i < |n1| && r1[i].InUse? && n1[i].kind == DIR && 2 <= c < |d1[i]|
      ensures ChildOk(n1, r1, p1, d1[i][c], i, c)
    {
      var c0 := if i == d && c == k then m else c;
      var e := dirs[i][c0];
      assert d1[i][c] == e;
      assert ChildOk(inodes, role, pos, e, i, c0);
      assert e.inode != j;
      assert e.inode == es[m].inode ==> i == d && c0 == m;
    }
    forall x | 0 < x < |n1| && r1[x].InUse? ensures Named(n1, r1, p1, rank, d1, x) {
      assert Named(inodes, role, pos, rank, dirs, x);
    }
  }

  // ---- the other parts ----

  /** The roles of the blocks once all of inode j's have been returned: its first n direct ones, then
      those of the list. */
  ghost function OwnReturned(own: seq<Owner>, j: int, n: nat, m: nat, list: seq<int32>): (r: seq<Owner>)
    requires forall b :: b in list ==> 0 <= b < |own|
    ensures |r| == |own|
    ensures forall b :: 0 <= b < |own| ==> if b in list then r[b].Free? else r[b] == Released(own[b], j, n, m)
  {
    GivenAll(OwnReleased(own, j, n, m), m + n, list)
  }

  lemma DeathOwners(inodes: seq<Inode>, role: seq<Role>, own: seq<Owner>, j: int, node: Inode, idle: Role, n: nat, m: nat, list: seq<int32>)
    requires Owners(inodes, role, own) && 0 <= j < |inodes| && idle.Idle? && DeepListed(own, j, list)
    ensures Owners(inodes[j := node], role[j := idle], OwnReturned(own, j, n, m, list))
  {
    var own' := OwnReturned(own, j, n, m, list);
    var inodes', role' := inodes[j := node], role[j := idle];
    OthersKeep(inodes, role, own, j, own');
    forall i | 0 <= i < |inodes'| && role'[i].InUse? ensures OwnsAll(inodes'[i], own', i) {
      assert OwnsAll(inodes[i], own', i);
    }
    forall b | 0 <= b < |own'| && own'[b].By? ensures OwnerOk(inodes', role', own'[b], b) {
      assert OwnerOk(inodes, role, own[b], b);
    }
  }

  /** The deeper blocks of the other files stay where they are. */
  lemma DeathDeeps(inodes: seq<Inode>, blocks: seq<Block>, blocks': seq<Block>, role: seq<Role>, own: seq<Owner>,
                   j: int, node: Inode, idle: Role, n: nat, m: nat, list: seq<int32>)
    requires Deeps(inodes, blocks, role, own) && 0 <= j < |inodes| && idle.Idle? && DeepListed(own, j, list)
    requires |blocks'| == |blocks| && forall b :: 0 <= b < |own| && own[b].Deep? && own[b].i != j ==> blocks'[b] == blocks[b]
    ensures Deeps(inodes[j := node], blocks', role[j := idle], OwnReturned(own, j, n, m, list))
  {
    var own' := OwnReturned(own, j, n, m, list);
    var inodes', role' := inodes[j := node], role[j := idle];
    forall i | 0 <= i < |inodes'| && role'[i].InUse? ensures DeepAll(inodes'[i], blocks', own', i) {
      assert DeepAll(inodes[i], blocks, own, i);
      forall x | DeepNeeded(inodes[i], x) ensures DeepAt(inodes[i], blocks', own', i, x) {
        assert DeepAt(inodes[i], blocks, own, i, x);
        DeepNumberStays(blocks, blocks', inodes[i], inodes[i], own, i, x);
      }
    }
    forall b | 0 <= b < |own'| && own'[b].Deep? ensures DeepOk(inodes', blocks', role', own'[b], b) {
      assert DeepOk(inodes, blocks, role, own[b], b);
      var i := own[b].i;
      assert DeepAll(inodes[i], blocks, own, i);
      DeepNumberStays(blocks, blocks', inodes[i], inodes[i], own, i, own[b].x);
    }
  }

  /** Directories other than j keep their entries when only blocks of j change. */
  lemma DeathDirs(inodes: seq<Inode>, blocks: seq<Block>, blocks': seq<Block>, role: seq<Role>, own: seq<Owner>,
                  dirs: seq<seq<Entry>>, j: int, node: Inode, idle: Role)
    requires InodesOk(inodes, role) && Owners(inodes, role, own) && |own| == |blocks| == |blocks'|
    requires DirsMatch(inodes, blocks, role, dirs) && 0 <= j < |inodes| && idle.Idle?
    requires forall b :: 0 <= b < |own| && own[b].By? && own[b].i != j ==> blocks'[b] == blocks[b]
    ensures DirsMatch(inodes[j := node], blocks', role[j := idle], dirs)
  {
    var inodes', role' := inodes[j := node], role[j := idle];
    forall i | 0 <= i < |inodes'| && role'[i].InUse? && inodes'[i].kind == DIR ensures EntriesMatch(inodes'[i], blocks', dirs[i]) {
      assert InodeOk(inodes[i], i, role[i]) && EntriesMatch(inodes[i], blocks, dirs[i]);
      forall k | 0 <= k < Count(inodes[i])
        ensures GetBlock(blocks', inodes[i].dblocks[k / ENTRIES_PER_BLOCK]) == GetBlock(blocks, inodes[i].dblocks[k / ENTRIES_PER_BLOCK])
      {
        EntryBlockOwned(inodes, role, own, i, k);
      }
      EntriesFrame(inodes[i], blocks, inodes[i], blocks', dirs[i]);
    }
  }

  lemma DeathTable(table: seq<Slot>, inodes: seq<Inode>, role: seq<Role>, j: int, node: Inode, idle: Role)
    requires TableOk(table, inodes, role) && 0 <= j < |inodes| == |role|
    requires forall t :: 0 <= t < |table| && !table[t].free ==> table[t].node.index != j
    ensures TableOk(table, inodes[j := node], role[j := idle])
  {
    var inodes', role' := inodes[j := node], role[j := idle];
    forall t | 0 <= t < |table| ensures SlotOk(table[t], inodes', role') {
      assert SlotOk(table[t], inodes, role);
    }
  }

  lemma DeathInodes(inodes: seq<Inode>, role: seq<Role>, j: int, node: Inode, idle: Role)
    requires InodesOk(inodes, role) && 0 < j < |inodes| && idle.Idle? && node.index == j && FileSizeOk(node)
    ensures InodesOk(inodes[j := node], role[j := idle])
    ensures Lasts(inodes, role) ==> Lasts(inodes[j := node], role[j := idle])
  {
    var inodes', role' := inodes[j := node], role[j := idle];
    forall i | 0 <= i < |inodes'| ensures InodeOk(inodes'[i], i, role'[i]) {
      assert InodeOk(inodes[i], i, role[i]);
    }
    if Lasts(inodes, role) {
      forall i | 0 <= i < |inodes'| && role'[i].InUse? && inodes'[i].kind == DIR ensures LastOk(inodes'[i]) {
        assert LastOk(inodes[i]);
      }
    }
  }

  /** Only which blocks are free matters to the free list. */
  lemma SameFreeRoles(head: int, blocks: seq<Block>, own: seq<Owner>, own': seq<Owner>, fb: seq<int>)
    requires FreeBlocks(head, blocks, own, fb) && |own'| == |own|
    requires forall b :: 0 <= b < |own| && (own[b].Free? || own'[b].Free?) ==> own'[b] == own[b]
    ensures FreeBlocks(head, blocks, own', fb)
  {
    forall d | 0 <= d < |fb| ensures FreeAt(fb, blocks, own', d) {
      assert FreeAt(fb, blocks, own, d);
    }
    forall b | 0 <= b < |own'| ensures BlockListed(fb, own'[b], b) {
      assert BlockListed(fb, own[b], b);
    }
  }

  /** The loop over the direct blocks, with the roles of every block of the file settled. */
  lemma ReleaseSettles(s: State, v: Variant, file: Inode, j: nat, n: nat, stale: Block, own: seq<Owner>, fb: seq<int>)
    requires n <= N_DBLOCKS && OwnsFirst(file, own, j, n) && FreeBlocks(s.sb.freeBlock, s.blocks, own, fb)
    ensures var t := ReleaseBlocks(s, v, file, 0, n, stale);
            && |t.blocks| == |s.blocks|
            && (LinksKept(v, n, stale, s.sb.freeBlock) <==>
                FreeBlocks(t.sb.freeBlock, t.blocks, OwnReleased(own, j, n, |fb|), fb + file.dblocks[..n]))
            && (forall b :: 0 <= b < |own| && !(own[b].By? && own[b].i == j) ==> t.blocks[b] == s.blocks[b])
  {
    var t := ReleaseBlocks(s, v, file, 0, n, stale);
    var q := fb + file.dblocks[..n];
    ReleaseExactly(s, v, file, j, n, stale, own, fb);
    ReleaseFrame(s, v, file, 0, n, stale);
    var o1, o2 := OwnPartly(own, j, n, |fb|), OwnReleased(own, j, n, |fb|);
    if FreeBlocks(t.sb.freeBlock, t.blocks, o1, q) {
      SameFreeRoles(t.sb.freeBlock, t.blocks, o1, o2, q);
    }
    if FreeBlocks(t.sb.freeBlock, t.blocks, o2, q) {
      SameFreeRoles(t.sb.freeBlock, t.blocks, o2, o1, q);
    }
    assert file.dblocks[0..n] == file.dblocks[..n];
    forall k | 0 <= k < n ensures 0 <= file.dblocks[..n][k] < |own| && own[file.dblocks[..n][k]] == By(j, k) {
      assert OwnsAt(file, own, j, k);
    }
  }

  lemma ListGoes(own: seq<Owner>, j: nat, n: nat, m: nat, list: seq<int32>)
    requires DeepListed(own, j, list)
    ensures Distinct(list)
    ensures forall b :: b in list ==> 0 <= b < |own| && !OwnReleased(own, j, n, m)[b].Free?
  {
  }

  /** Both loops: the direct blocks, then, repaired, those beyond. */
  lemma AllReturned(s: State, v: Variant, file: Inode, j: nat, n: nat, stale: Block, own: seq<Owner>, fb: seq<int>, list: seq<int32>)
    requires n <= N_DBLOCKS && OwnsFirst(file, own, j, n) && FreeBlocks(s.sb.freeBlock, s.blocks, own, fb)
    requires DeepListed(own, j, list) && (v.AsWritten? ==> list == [])
    ensures var t := ReturnBlocks(ReleaseBlocks(s, v, file, 0, n, stale), list);
            && |t.blocks| == |s.blocks| == |own|
            && t == s.(sb := s.sb.(freeBlock := t.sb.freeBlock), blocks := t.blocks)
            && (LinksKept(v, n, stale, s.sb.freeBlock) <==>
                FreeBlocks(t.sb.freeBlock, t.blocks, OwnReturned(own, j, n, |fb|, list), fb + file.dblocks[..n] + list))
            && (forall b :: 0 <= b < |own| && !(Taken(own[b]) && own[b].i == j) ==> t.blocks[b] == s.blocks[b])
  {
    hide FreeBlocks, ReleaseBlocks, ReturnBlocks, Distinct, OwnsFirst;
    SameLength(s, own, fb);
    ListGoes(own, j, n, |fb|, list);
    var u := ReleaseBlocks(s, v, file, 0, n, stale);
    ReleaseSettles(s, v, file, j, n, stale, own, fb);
    ReleaseFrame(s, v, file, 0, n, stale);
    if v.Repaired? {
      ReturnsKeep(u, list, OwnReleased(own, j, n, |fb|), fb + file.dblocks[..n]);
    } else {
      ReturnNothing(u);
      assert fb + file.dblocks[..n] + list == fb + file.dblocks[..n];
    }
  }

  lemma ReturnNothing(s: State)
    ensures ReturnBlocks(s, []) == s
  {
  }

  // ---- the whole call ----

  /** The free-list head when the loop over the file's blocks starts. */
  function HeadAfterDrop(s: State, p: nat): int
    requires p < |s.table| && SizeOk(s.table[p].node) && 1 <= Count(s.table[p].node)
  {
    if GivesUpBlock(s.table[p].node) then LastEntryBlock(s.table[p].node) else s.sb.freeBlock
  }

  /** Entry k can be removed, and the model says what becomes of the blocks it names. */
  ghost predicate Removable(s: State, g: Ghost, v: Variant, p: nat, k: nat) {
    CanRemove(s, g, p, k) && CanRelease(v, s.inodes[Victim(s, g, p, k)])
  }

  /** When `f_remove` of entry k leaves a sound disk: the directory gives up no block and the links of
      the returned blocks are kept. */
  ghost predicate RemoveSound(s: State, g: Ghost, v: Variant, p: nat, k: nat, stale: Block)
    requires Removable(s, g, v, p, k) && SizeOk(s.table[p].node) && 1 <= Count(s.table[p].node)
  {
    && (v.Repaired? || !GivesUpBlock(s.table[p].node))
    && LinksKept(v, ReturnedBlocks(v, s.inodes[Victim(s, g, p, k)]), stale, HeadAfterDrop(s, p))
  }

  /** The block that `f_open` gave a file which is still empty: line 1650 does not return it. */
  function Unreturned(v: Variant, file: Inode): set<int> {
    if v.AsWritten? && file.kind == REG && file.size == 0 then {file.dblocks[0] as int} else {}
  }

  lemma DirOf(s: State, g: Ghost, p: nat)
    requires Inv(s, g) && p < |s.table| && !s.table[p].free && s.table[p].node.kind == DIR
    requires UsedDir(s.inodes, g.role, s.table[p].node.index)
    ensures var dir := s.table[p].node;
            && dir == s.inodes[dir.index] && SizeOk(dir) && DirSizeOk(dir) && |g.dirs| == |s.inodes|
            && EntriesMatch(dir, s.blocks, g.dirs[dir.index])
  {
    hide FreeBlocks, Owners, Deeps, FreeInodes, Tree, Lasts;
    var d := s.table[p].node.index;
    assert SlotOk(s.table[p], s.inodes, g.role) && InodeOk(s.inodes[d], d, g.role[d]);
    assert EntriesMatch(s.inodes[d], s.blocks, g.dirs[d]);
  }

  lemma ChildOf(s: State, g: Ghost, d: int, k: nat)
    requires Inv(s, g) && UsedDir(s.inodes, g.role, d) && |g.dirs| == |s.inodes| && 2 <= k < |g.dirs[d]|
    ensures var e := g.dirs[d][k];
            && NameOk(e.name) && 0 < e.inode < |s.inodes| && |g.role| == |s.inodes| && g.role[e.inode].InUse? && e.inode != d
            && InodeOk(s.inodes[e.inode], e.inode, g.role[e.inode])
            && (s.inodes[e.inode].kind == DIR ==> |g.dirs[e.inode]| == s.inodes[e.inode].size / ENTRYSIZE)
  {
    hide FreeBlocks, Owners, Deeps, FreeInodes, TableOk, Lasts;
    assert ChildOk(s.inodes, g.role, g.pos, g.dirs[d][k], d, k);
    var j := g.dirs[d][k].inode;
    assert InodeOk(s.inodes[j], j, g.role[j]);
    assert Named(s.inodes, g.role, g.pos, g.rank, g.dirs, j);
    if s.inodes[j].kind == DIR {
      assert EntriesMatch(s.inodes[j], s.blocks, g.dirs[j]);
    }
  }

  lemma VictimFacts(s: State, g: Ghost, p: nat, k: nat)
    requires CanRemove(s, g, p, k)
    ensures var dir, j := s.table[p].node, Victim(s, g, p, k);
            && CanDrop(s, g, p, k)
            && k < Count(dir) == |g.dirs[dir.index]|
            && 0 < j < |s.inodes| && g.role[j].InUse? && j != dir.index
            && InodeOk(s.inodes[j], j, g.role[j])
            && (s.inodes[j].kind == DIR ==> |g.dirs[j]| == 2)
            && DirEntry(s.blocks, dir, k) == g.dirs[dir.index][k]
  {
    hide FreeBlocks, Owners, Deeps, FreeInodes, DirsMatch, TableOk, Lasts, Tree, InodesOk, DirEntry;
    DirOf(s, g, p);
    var dir, j := s.table[p].node, Victim(s, g, p, k);
    ChildOf(s, g, dir.index, k);
    ChildOf(s, g, dir.index, Count(dir) - 1);
    assert DirEntry(s.blocks, dir, Count(dir) - 1) == g.dirs[dir.index][Count(dir) - 1];
  }

  lemma OwnsFirstOf(inodes: seq<Inode>, role: seq<Role>, own: seq<Owner>, j: int, n: nat)
    requires Owners(inodes, role, own) && 0 <= j < |inodes| && role[j].InUse? && n <= Owned(inodes[j]) && n <= N_DBLOCKS
    ensures OwnsFirst(inodes[j], own, j, n)
  {
    forall k | 0 <= k < n ensures OwnsAt(inodes[j], own, j, k) {
      OwnsItsBlock(inodes, role, own, j, k);
    }
    forall b | 0 <= b < |own| && own[b].By? && own[b].i == j ensures own[b].k < N_DBLOCKS && inodes[j].dblocks[own[b].k] == b {
      assert OwnerOk(inodes, role, own[b], b);
    }
  }

  /** What the directory part leaves for the rest of the call. */
  ghost predicate Dropped(s: State, g: Ghost, v: Variant, j: int, file: Inode, lasts: bool) {
    && InodesOk(s.inodes, g.role) && FreeBlocks(s.sb.freeBlock, s.blocks, g.own, g.fb)
    && Owners(s.inodes, g.role, g.own) && Deeps(s.inodes, s.blocks, g.role, g.own)
    && DirsMatch(s.inodes, s.blocks, g.role, g.dirs)
    && TableOk(s.table, s.inodes, g.role) && (lasts <==> Lasts(s.inodes, g.role))
    && FreeInodes(s.sb.freeInode, s.inodes, g.role, g.fi)
    && 0 < j < |s.inodes| && g.role[j].InUse? && s.inodes[j] == file && file.index == j && CanRelease(v, file)
    && (forall t :: 0 <= t < |s.table| && !s.table[t].free ==> s.table[t].node.index != j)
  }

  /** The blocks of the file beyond the direct ones. */
  lemma DeepOfFile(s: State, g: Ghost, v: Variant, j: int, file: Inode, lasts: bool)
    requires Dropped(s, g, v, j, file, lasts)
    ensures DeepListed(g.own, j, DeepNumbers(s.blocks, file)) && (v.AsWritten? ==> DeepNumbers(s.blocks, file) == [])
  {
    hide FreeBlocks, Owners, DirsMatch, TableOk, Lasts, FreeInodes, InodesOk;
    DeepList(s.inodes, s.blocks, g.role, g.own, j);
  }

  /** The roles of the blocks after the rest of the call. */
  ghost function OwnAfter(s: State, g: Ghost, v: Variant, j: int, file: Inode, lasts: bool): (r: seq<Owner>)
    requires Dropped(s, g, v, j, file, lasts)
    ensures |r| == |g.own|
  {
    DeepOfFile(s, g, v, j, file, lasts);
    OwnReturned(g.own, j, ReturnedBlocks(v, file), |g.fb|, DeepNumbers(s.blocks, file))
  }

  /** The rest of the call, on everything but the tree. */
  lemma ReleaseKeeps(s: State, g: Ghost, v: Variant, j: int, file: Inode, stale: Block, lasts: bool)
    requires Dropped(s, g, v, j, file, lasts)
    ensures var n := ReturnedBlocks(v, file);
            var t := ReleaseFile(s, v, file, stale);
            var inodes', role' := s.inodes[j := file.(next := s.sb.freeInode)], g.role[j := Idle(|g.fi|)];
            var own' := OwnAfter(s, g, v, j, file, lasts);
            && t.inodes == inodes' && t.dsb == t.sb && t.table == s.table && t.freehead == s.freehead && |t.blocks| == |s.blocks|
            && InodesOk(inodes', role') && Owners(inodes', role', own') && Deeps(inodes', t.blocks, role', own')
            && FreeInodes(t.sb.freeInode, inodes', role', g.fi + [j])
            && (LinksKept(v, n, stale, s.sb.freeBlock) <==>
                FreeBlocks(t.sb.freeBlock, t.blocks, own', g.fb + file.dblocks[..n] + DeepNumbers(s.blocks, file)))
            && DirsMatch(inodes', t.blocks, role', g.dirs)
            && TableOk(t.table, inodes', role')
            && (lasts ==> Lasts(inodes', role'))
            && (forall b :: 0 <= b < |g.own| && !(Taken(g.own[b]) && g.own[b].i == j) ==> t.blocks[b] == s.blocks[b])
  {
    hide FreeBlocks, Deeps, Owners, DirsMatch, TableOk, Lasts, FreeInodes, InodesOk, ReleaseBlocks, ReturnBlocks, LinksKept;
    var n := ReturnedBlocks(v, file);
    var list := DeepNumbers(s.blocks, file);
    var node := file.(next := s.sb.freeInode);
    var s1 := SaveInode(s, j, node).(sb := s.sb.(freeInode := file.index));
    FileFacts(s, g, v, j, file, lasts);
    DeepOfFile(s, g, v, j, file, lasts);
    OwnsFirstOf(s.inodes, g.role, g.own, j, n);
    AllReturned(s1, v, file, j, n, stale, g.own, g.fb, list);
    var t := ReturnBlocks(ReleaseBlocks(s1, v, file, 0, n, stale), list);
    AsWrittenStops(s1, v, file, n, stale, list);
    GiveInode(s.inodes, g.role, g.fi, j, node);
    DeathOwners(s.inodes, g.role, g.own, j, node, Idle(|g.fi|), n, |g.fb|, list);
    DeathDeeps(s.inodes, s.blocks, t.blocks, g.role, g.own, j, node, Idle(|g.fi|), n, |g.fb|, list);
    DeathDirs(s.inodes, s.blocks, t.blocks, g.role, g.own, g.dirs, j, node, Idle(|g.fi|));
    DeathTable(s.table, s.inodes, g.role, j, node, Idle(|g.fi|));
    DeathInodes(s.inodes, g.role, j, node, Idle(|g.fi|));
  }

  lemma AsWrittenStops(s: State, v: Variant, file: Inode, n: nat, stale: Block, list: seq<int32>)
    requires n <= N_DBLOCKS && (v.AsWritten? ==> list == [])
    ensures var u := ReleaseBlocks(s, v, file, 0, n, stale);
            ReturnBlocks(u, list) == if v.Repaired? then ReturnBlocks(u, list) else u
  {
  }

  /** What is known of the file when its turn comes. */
  lemma FileFacts(s: State, g: Ghost, v: Variant, j: int, file: Inode, lasts: bool)
    requires Dropped(s, g, v, j, file, lasts)
    ensures |g.own| == |s.blocks| && |g.role| == |s.inodes| && s.sb.freeInode == Top(g.fi)
    ensures FileSizeOk(file) && ReturnedBlocks(v, file) <= Owned(file)
    ensures v.Repaired? || !(file.kind == REG && file.size == 0) ==> ReturnedBlocks(v, file) == Owned(file)
  {
    hide FreeBlocks, Owners, DirsMatch, Lasts;
    assert InodeOk(s.inodes[j], j, g.role[j]);
  }

  /** After the directory part, the victim is as before and the directory is sound but for
      `last_block_index`. */
  lemma DropStage(s: State, g: Ghost, v: Variant, p: nat, k: nat)
    requires Removable(s, g, v, p, k)
    ensures var dir, j := s.table[p].node, Victim(s, g, p, k);
            && SizeOk(dir) && k < Count(dir)
            && 0 <= dir.index < |g.dirs| && k < |g.dirs[dir.index]|
            && |MovedEntry(s, dir).name| < FILENAMEMAX
            && (GivesUpBlock(dir) ==> 0 <= LastEntryBlock(dir) < |g.own|)
            && Dropped(DropEntry(s, v, p, k), GhostAfterDrop(g, dir, k), v, j, s.inodes[j], v.Repaired? || !GivesUpBlock(dir))
            && DropEntry(s, v, p, k).sb.freeBlock == HeadAfterDrop(s, p)
            && DropEntry(s, v, p, k).inodes == s.inodes[dir.index := ShrunkDir(v, dir)]
  {
    hide FreeBlocks, Owners, Deeps, DirsMatch, TableOk, Lasts, Tree, InodesOk, FreeInodes, DropEntry, RemoveSwap;
    VictimFacts(s, g, p, k);
    DropKeeps(s, g, v, p, k);
    WriteUsedInode(s.sb.freeInode, s.inodes, g.role, g.fi, s.table[p].node.index, ShrunkDir(v, s.table[p].node));
  }

  /** The roles after the whole call. */
  ghost function GhostAfterRemove(s: State, g: Ghost, v: Variant, p: nat, k: nat): Ghost
    requires Removable(s, g, v, p, k)
  {
    VictimFacts(s, g, p, k);
    DropStage(s, g, v, p, k);
    var dir, j := s.table[p].node, Victim(s, g, p, k);
    var file := s.inodes[j];
    var s1, g1 := DropEntry(s, v, p, k), GhostAfterDrop(g, dir, k);
    var es := g.dirs[dir.index];
    assert ChildOk(s.inodes, g.role, g.pos, es[|es| - 1], dir.index, |es| - 1);
    Ghost(g.fi + [j as int], g1.fb + file.dblocks[..ReturnedBlocks(v, file)] + DeepNumbers(s1.blocks, file), g.role[j := Idle(|g.fi|)],
          OwnAfter(s1, g1, v, j, file, v.Repaired? || !GivesUpBlock(dir)),
          PosAfterSwap(g.pos, es, k), g.rank, g1.dirs)
  }

  lemma RemoveTree(s: State, g: Ghost, v: Variant, p: nat, k: nat, node: Inode)
    requires Removable(s, g, v, p, k)
    ensures var dir, j := s.table[p].node, Victim(s, g, p, k);
            var h := GhostAfterRemove(s, g, v, p, k);
            && SizeOk(dir) && 1 <= Count(dir)
            && Tree(s.inodes[dir.index := ShrunkDir(v, dir)][j := node], h.role, h.pos, h.rank, h.dirs)
  {
    hide FreeBlocks, Owners, Deeps, DirsMatch, TableOk, Lasts, FreeInodes;
    VictimFacts(s, g, p, k);
    var dir, j := s.table[p].node, Victim(s, g, p, k);
    OpenDirKnown(s, g, p, k);
    TreeShrinks(s.inodes, g.role, g.pos, g.rank, g.dirs, dir.index, ShrunkDir(v, dir), k, j, node, Idle(|g.fi|));
  }

  /** The state after `f_remove` of entry k. */
  ghost function Removed(s: State, g: Ghost, v: Variant, p: nat, k: nat, stale: Block): State
    requires Removable(s, g, v, p, k)
  {
    DropStage(s, g, v, p, k);
    ReleaseFile(DropEntry(s, v, p, k), v, s.inodes[Victim(s, g, p, k)], stale)
  }

  /** Everything but the two conditions of `RemoveSound` holds in any case. */
  lemma RemovedParts(s: State, g: Ghost, v: Variant, p: nat, k: nat, stale: Block)
    requires Removable(s, g, v, p, k)
    ensures SizeOk(s.table[p].node) && 1 <= Count(s.table[p].node)
    ensures var u, h := Removed(s, g, v, p, k, stale), GhostAfterRemove(s, g, v, p, k);
            var dir, j := s.table[p].node, Victim(s, g, p, k);
            && u.dsb == u.sb && InodesOk(u.inodes, h.role) && Owners(u.inodes, h.role, h.own)
            && Deeps(u.inodes, u.blocks, h.role, h.own) && DirsMatch(u.inodes, u.blocks, h.role, h.dirs)
            && TableOk(u.table, u.inodes, h.role) && FreeInodes(u.sb.freeInode, u.inodes, h.role, h.fi)
            && Tree(u.inodes, h.role, h.pos, h.rank, h.dirs)
            && (LinksKept(v, ReturnedBlocks(v, s.inodes[j]), stale, HeadAfterDrop(s, p)) <==> FreeBlocks(u.sb.freeBlock, u.blocks, h.own, h.fb))
            && (Lasts(u.inodes, h.role) <==> v.Repaired? || !GivesUpBlock(dir))
            && 0 <= dir.index < |s.inodes| && 0 < j < |s.inodes| && j != dir.index
            && u.inodes == s.inodes[dir.index := ShrunkDir(v, dir)][j := s.inodes[j].(next := s.sb.freeInode)]
  {
    hide FreeBlocks, Owners, Deeps, DirsMatch, TableOk, FreeInodes, Tree, InodesOk, ReleaseFile, DropEntry, LinksKept;
    DropStage(s, g, v, p, k);
    VictimFacts(s, g, p, k);
    var dir, j := s.table[p].node, Victim(s, g, p, k);
    var s1, g1 := DropEntry(s, v, p, k), GhostAfterDrop(g, dir, k);
    ReleaseKeeps(s1, g1, v, j, s.inodes[j], stale, v.Repaired? || !GivesUpBlock(dir));
    RemoveTree(s, g, v, p, k, Removed(s, g, v, p, k, stale).inodes[j]);
    DropLast(s, g, v, p, k);
    DropLeavesInodes(s, v, p, k);
    var u := Removed(s, g, v, p, k, stale);
    if Lasts(u.inodes, g.role[j := Idle(|g.fi|)]) {
      assert LastOk(u.inodes[dir.index]);
    }
  }

  lemma DropLeavesInodes(s: State, v: Variant, p: nat, k: nat)
    requires p < |s.table| && SizeOk(s.table[p].node) && k < Count(s.table[p].node)
    requires |MovedEntry(s, s.table[p].node).name| < FILENAMEMAX
    ensures DropEntry(s, v, p, k).sb.freeInode == s.sb.freeInode
  {
  }

  /** The loop loses nothing but the block of an empty file. */
  lemma ReleaseLost(s: State, g: Ghost, v: Variant, j: int, file: Inode, lasts: bool)
    requires Dropped(s, g, v, j, file, lasts)
    ensures LostSet(OwnAfter(s, g, v, j, file, lasts)) == LostSet(g.own) + Unreturned(v, file)
  {
    hide FreeBlocks, Deeps, DirsMatch, TableOk, Lasts, FreeInodes;
    FileFacts(s, g, v, j, file, lasts);
    DeepOfFile(s, g, v, j, file, lasts);
    var own' := OwnAfter(s, g, v, j, file, lasts);
    var n := ReturnedBlocks(v, file);
    if Unreturned(v, file) != {} {
      OwnsItsBlock(s.inodes, g.role, g.own, j, 0);
    }
    forall b | 0 <= b < |g.own|
      ensures own'[b].Lost? <==> g.own[b].Lost? || b in Unreturned(v, file)
    {
      assert b in DeepNumbers(s.blocks, file) ==> g.own[b].Deep?;
      if g.own[b].By? && g.own[b].i == j {
        assert OwnerOk(s.inodes, g.role, g.own[b], b);
        assert g.own[b].k < n <==> Unreturned(v, file) == {};
      }
    }
  }

  /** A directory block that is given up goes to the free list. */
  lemma DropLoses(g: Ghost, dir: Inode, k: nat)
    requires SizeOk(dir) && 0 <= dir.index < |g.dirs| && k < |g.dirs[dir.index]| && 1 <= Count(dir)
    requires OwnsAt(dir, g.own, dir.index, (Count(dir) - 1) / ENTRIES_PER_BLOCK)
    ensures LostSet(GhostAfterDrop(g, dir, k).own) == LostSet(g.own)
  {
  }

  /** The call as a whole loses exactly that block. */
  lemma RemoveLoses(s: State, g: Ghost, v: Variant, p: nat, k: nat)
    requires Removable(s, g, v, p, k)
    ensures LostSet(GhostAfterRemove(s, g, v, p, k).own) == LostSet(g.own) + Unreturned(v, s.inodes[Victim(s, g, p, k)])
  {
    hide Inv, Disk, DropEntry, GhostAfterDrop, Dropped, OwnAfter, LostSet, ShrunkDir, Unreturned, DeepNumbers, ReturnedBlocks, RemoveSwap;
    DropStage(s, g, v, p, k);
    VictimFacts(s, g, p, k);
    OpenDirKnown(s, g, p, k);
    var dir, j := s.table[p].node, Victim(s, g, p, k);
    ReleaseLost(DropEntry(s, v, p, k), GhostAfterDrop(g, dir, k), v, j, s.inodes[j], v.Repaired? || !GivesUpBlock(dir));
    DropLoses(g, dir, k);
  }

  /** `f_remove` of entry k keeps the invariant when it is sound; of its blocks it loses the one
      that `f_open` gave a file which is still empty, and no other. */
  lemma RemoveKeeps(s: State, g: Ghost, v: Variant, p: nat, k: nat, stale: Block)
    requires Removable(s, g, v, p, k)
    ensures SizeOk(s.table[p].node) && 1 <= Count(s.table[p].node)
    ensures RemoveSound(s, g, v, p, k, stale) <==> Inv(Removed(s, g, v, p, k, stale), GhostAfterRemove(s, g, v, p, k))
    ensures LostSet(GhostAfterRemove(s, g, v, p, k).own) == LostSet(g.own) + Unreturned(v, s.inodes[Victim(s, g, p, k)])
  {
    hide FreeBlocks, Owners, Deeps, DirsMatch, TableOk, FreeInodes, Tree, InodesOk, Lasts, Removed, GhostAfterRemove, LinksKept;
    RemovedParts(s, g, v, p, k, stale);
    RemoveLoses(s, g, v, p, k);
  }

  // ---- exactly when nothing is lost ----

  /** Some assignment of roles explains the state in which no block is lost that was not lost before. */
  ghost predicate LosesNothing(u: State, g: Ghost) {
    exists f :: Inv(u, f) && LostSet(f.own) == LostSet(g.own)
  }

  /** What any explanation of the state after the call must agree on. */
  lemma AgreeAfter(s: State, g: Ghost, v: Variant, p: nat, k: nat, stale: Block, f: Ghost)
    requires Removable(s, g, v, p, k) && Inv(Removed(s, g, v, p, k, stale), f)
    ensures SizeOk(s.table[p].node) && (v.Repaired? || !GivesUpBlock(s.table[p].node))
    ensures |f.own| == |g.own| == |GhostAfterRemove(s, g, v, p, k).own|
    ensures LostSet(f.own) == LostSet(g.own) ==>
              FreeSet(f.own) == FreeSet(GhostAfterRemove(s, g, v, p, k).own) + Unreturned(v, s.inodes[Victim(s, g, p, k)])
  {
    hide FreeBlocks, Owners, Deeps, DirsMatch, TableOk, FreeInodes, Tree, InodesOk, Removed, GhostAfterRemove, LinksKept, Unreturned;
    RemovedParts(s, g, v, p, k, stale);
    RemoveLoses(s, g, v, p, k);
    var u, h := Removed(s, g, v, p, k, stale), GhostAfterRemove(s, g, v, p, k);
    RoleLengths(u.sb.freeInode, u.inodes, h.role, h.fi);
    RoleLengths(u.sb.freeInode, u.inodes, f.role, f.fi);
    forall i | 0 <= i < |u.inodes| ensures h.role[i].InUse? <==> f.role[i].InUse? {
      Birth.RolesDecided(u.sb.freeInode, u.inodes, h.role, h.fi, f.role, f.fi, i);
      Birth.RolesDecided(u.sb.freeInode, u.inodes, f.role, f.fi, h.role, h.fi, i);
    }
    SameLasts(u.inodes, f.role, h.role);
    OwnLengths(u.inodes, u.blocks, h.role, h.own);
    OwnLengths(u.inodes, u.blocks, f.role, f.own);
    GhostLengths(s, g, v, p, k);
    forall b | 0 <= b < |h.own| ensures Taken(h.own[b]) <==> Taken(f.own[b]) {
      if Taken(h.own[b]) {
        Conservation.TakenDecided(u.inodes, u.blocks, h.role, h.own, f.role, f.own, b);
      }
      if Taken(f.own[b]) {
        Conservation.TakenDecided(u.inodes, u.blocks, f.role, f.own, h.role, h.own, b);
      }
    }
    if LostSet(f.own) == LostSet(g.own) {
      NotTakenLost(s, g, v, p, k);
      FreeByRest(h.own, f.own, Unreturned(v, s.inodes[Victim(s, g, p, k)]));
    }
  }

  lemma RoleLengths(head: int, inodes: seq<Inode>, role: seq<Role>, fi: seq<int>)
    requires FreeInodes(head, inodes, role, fi)
    ensures |role| == |inodes|
  {
  }

  lemma OwnLengths(inodes: seq<Inode>, blocks: seq<Block>, role: seq<Role>, own: seq<Owner>)
    requires Deeps(inodes, blocks, role, own)
    ensures |own| == |blocks|
  {
  }

  lemma GhostLengths(s: State, g: Ghost, v: Variant, p: nat, k: nat)
    requires Removable(s, g, v, p, k)
    ensures |GhostAfterRemove(s, g, v, p, k).own| == |g.own|
  {
    hide Inv, FreeBlocks, Owners, Deeps, DirsMatch, TableOk, FreeInodes, Tree, InodesOk, OwnAfter;
    VictimFacts(s, g, p, k);
    DropStage(s, g, v, p, k);
  }

  /** `last_block_index` is asked for the directories in use only. */
  lemma SameLasts(inodes: seq<Inode>, r1: seq<Role>, r2: seq<Role>)
    requires |r1| == |r2| == |inodes| && Lasts(inodes, r1)
    requires forall i :: 0 <= i < |inodes| && r2[i].InUse? ==> r1[i].InUse?
    ensures Lasts(inodes, r2)
  {
    forall i | 0 <= i < |inodes| && r2[i].InUse? && inodes[i].kind == DIR ensures LastOk(inodes[i]) {
      assert LastOk(inodes[i]);
    }
  }

  /** The unreturned block was not lost before. */
  lemma NotTakenLost(s: State, g: Ghost, v: Variant, p: nat, k: nat)
    requires Removable(s, g, v, p, k)
    ensures Unreturned(v, s.inodes[Victim(s, g, p, k)]) !! LostSet(g.own)
    ensures forall b :: b in Unreturned(v, s.inodes[Victim(s, g, p, k)]) ==> 0 <= b < |g.own|
  {
    hide FreeBlocks, Deeps, DirsMatch, TableOk, FreeInodes, Tree, InodesOk;
    VictimFacts(s, g, p, k);
    if Unreturned(v, s.inodes[Victim(s, g, p, k)]) != {} {
      OwnsItsBlock(s.inodes, g.role, g.own, Victim(s, g, p, k), 0);
    }
  }

  /** The blocks that are neither taken nor lost. */
  lemma FreeByRest(own: seq<Owner>, own': seq<Owner>, x: set<int>)
    requires |own'| == |own| && forall b :: 0 <= b < |own| ==> (Taken(own[b]) <==> Taken(own'[b]))
    requires LostSet(own) == LostSet(own') + x && x !! LostSet(own') && forall b :: b in x ==> 0 <= b < |own|
    ensures FreeSet(own') == FreeSet(own) + x
  {
    forall b | 0 <= b < |own| ensures own'[b].Free? <==> own[b].Free? || b in x {
      assert own[b].Lost? <==> b in LostSet(own);
      assert own'[b].Lost? <==> b in LostSet(own');
    }
  }

  /** As written and with no directory block given up: the blocks that were free are as before, and
      every returned one holds the stale buffer. */
  lemma StaleLeft(s: State, g: Ghost, p: nat, k: nat, stale: Block)
    requires Removable(s, g, AsWritten, p, k) && SizeOk(s.table[p].node) && !GivesUpBlock(s.table[p].node)
    ensures |g.own| == |s.blocks|
    ensures var u, file := Removed(s, g, AsWritten, p, k, stale), s.inodes[Victim(s, g, p, k)];
            var n := ReturnedBlocks(AsWritten, file);
            && |u.blocks| == |s.blocks|
            && (forall b :: 0 <= b < |g.own| && g.own[b].Free? ==> u.blocks[b] == s.blocks[b])
            && (forall q :: 0 <= q < n ==> 0 <= file.dblocks[q] < |s.blocks| && g.own[file.dblocks[q]] == By(Victim(s, g, p, k), q)
                                           && u.blocks[file.dblocks[q]] == stale)
            && (n > 0 ==> u.sb.freeBlock == file.dblocks[n - 1])
  {
    hide FreeBlocks, Owners, Deeps, DirsMatch, TableOk, FreeInodes, Tree, InodesOk, Lasts, ReleaseBlocks, DropEntry, LinksKept,
         OwnAfter, DeepNumbers, ShrunkDir, RemoveSwap, MovedEntry;
    DropStage(s, g, AsWritten, p, k);
    VictimFacts(s, g, p, k);
    OpenDirKnown(s, g, p, k);
    var dir, j := s.table[p].node, Victim(s, g, p, k);
    var file := s.inodes[j];
    var s1, g1 := DropEntry(s, AsWritten, p, k), GhostAfterDrop(g, dir, k);
    OwnLengths(s.inodes, s.blocks, g.role, g.own);
    DropLeavesFree(s, g, p, k);
    ReleaseKeeps(s1, g1, AsWritten, j, file, stale, true);
    FileFacts(s1, g1, AsWritten, j, file, true);
    var n := ReturnedBlocks(AsWritten, file);
    OwnsFirstOf(s1.inodes, g1.role, g1.own, j, n);
    var s2 := SaveInode(s1, j, file.(next := s1.sb.freeInode)).(sb := s1.sb.(freeInode := file.index));
    ReleaseFrame(s2, AsWritten, file, 0, n, stale);
    forall q | 0 <= q < n
      ensures 0 <= file.dblocks[q] < |s.blocks| && g.own[file.dblocks[q]] == By(j, q)
      ensures ReleaseBlocks(s2, AsWritten, file, 0, n, stale).blocks[file.dblocks[q]] == stale
    {
      assert OwnsAt(file, g1.own, j, q);
      ReleaseStale(s2, file, 0, n, stale, q);
    }
  }

  lemma DropLeavesFree(s: State, g: Ghost, p: nat, k: nat)
    requires Removable(s, g, AsWritten, p, k) && SizeOk(s.table[p].node) && !GivesUpBlock(s.table[p].node)
    requires 1 <= Count(s.table[p].node) && k < Count(s.table[p].node) && |MovedEntry(s, s.table[p].node).name| < FILENAMEMAX
    requires OwnsAt(s.table[p].node, g.own, s.table[p].node.index, k / ENTRIES_PER_BLOCK) && |g.own| == |s.blocks|
    ensures var t := DropEntry(s, AsWritten, p, k);
            |t.blocks| == |s.blocks| && forall b :: 0 <= b < |g.own| && g.own[b].Free? ==> t.blocks[b] == s.blocks[b]
  {
    hide Inv, EntryReplaced, Splice, DirEntry;
  }

  /** `f_remove` of entry k keeps the invariant and loses no block exactly when the directory gives up
      no block, the file is not an empty one, and the loop of lines 1654-1667 writes sound links,
      whatever roles one may want to read into the result; repaired, always. */
  lemma RemoveExactly(s: State, g: Ghost, v: Variant, p: nat, k: nat, stale: Block)
    requires Removable(s, g, v, p, k)
    ensures SizeOk(s.table[p].node) && 1 <= Count(s.table[p].node)
    ensures LosesNothing(Removed(s, g, v, p, k, stale), g)
            <==> RemoveSound(s, g, v, p, k, stale) && Unreturned(v, s.inodes[Victim(s, g, p, k)]) == {}
    ensures LostSet(g.own) == {} ==> (LosesNothing(Removed(s, g, v, p, k, stale), g) <==> NoneLost(Removed(s, g, v, p, k, stale)))
  {
    hide Inv, Removed, GhostAfterRemove, RemoveSound, Unreturned;
    RemoveKeeps(s, g, v, p, k, stale);
    var u, h := Removed(s, g, v, p, k, stale), GhostAfterRemove(s, g, v, p, k);
    if RemoveSound(s, g, v, p, k, stale) && Unreturned(v, s.inodes[Victim(s, g, p, k)]) == {} {
      assert LostSet(h.own) == LostSet(g.own);
    }
    if LosesNothing(u, g) {
      var f :| Inv(u, f) && LostSet(f.own) == LostSet(g.own);
      LinksNeeded(s, g, v, p, k, stale, f);
    }
  }

  /** The input at which the code falls short although no list breaks: an empty file. Its removal keeps
      the invariant, but the block that `f_open` gave it is lost from then on. */
  lemma EmptyFileLeaks(s: State, g: Ghost, p: nat, k: nat, stale: Block)
    requires Removable(s, g, AsWritten, p, k) && SizeOk(s.table[p].node) && !GivesUpBlock(s.table[p].node)
    requires var file := s.inodes[Victim(s, g, p, k)]; file.kind == REG && file.size == 0
    ensures var u, h, b := Removed(s, g, AsWritten, p, k, stale), GhostAfterRemove(s, g, AsWritten, p, k),
                           s.inodes[Victim(s, g, p, k)].dblocks[0] as int;
            && Inv(u, h) && LostSet(h.own) == LostSet(g.own) + {b} && b !in LostSet(g.own)
            && !LosesNothing(u, g)
  {
    hide Inv, Removed, GhostAfterRemove;
    RemoveKeeps(s, g, AsWritten, p, k, stale);
    RemoveExactly(s, g, AsWritten, p, k, stale);
    NotTakenLost(s, g, AsWritten, p, k);
  }

  /** The other direction. */
  lemma LinksNeeded(s: State, g: Ghost, v: Variant, p: nat, k: nat, stale: Block, f: Ghost)
    requires Removable(s, g, v, p, k) && Inv(Removed(s, g, v, p, k, stale), f) && LostSet(f.own) == LostSet(g.own)
    ensures SizeOk(s.table[p].node) && 1 <= Count(s.table[p].node)
    ensures RemoveSound(s, g, v, p, k, stale) && Unreturned(v, s.inodes[Victim(s, g, p, k)]) == {}
  {
    hide Disk, FreeInodes, Tree, Removed, GhostAfterRemove;
    AgreeAfter(s, g, v, p, k, stale, f);
    RemovedParts(s, g, v, p, k, stale);
    if v.AsWritten? {
      LinksNeededAsWritten(s, g, p, k, stale, f);
    }
  }

  lemma LinksNeededAsWritten(s: State, g: Ghost, p: nat, k: nat, stale: Block, f: Ghost)
    requires Removable(s, g, AsWritten, p, k) && Inv(Removed(s, g, AsWritten, p, k, stale), f) && LostSet(f.own) == LostSet(g.own)
    requires SizeOk(s.table[p].node) && !GivesUpBlock(s.table[p].node)
    ensures var file := s.inodes[Victim(s, g, p, k)];
            LinksKept(AsWritten, ReturnedBlocks(AsWritten, file), stale, s.sb.freeBlock) && Unreturned(AsWritten, file) == {}
  {
    hide Owners, Deeps, DirsMatch, TableOk, FreeInodes, Tree, InodesOk, Lasts, FreeBlocks, Removed, GhostAfterRemove, FreeSet, LostSet;
    AgreeAfter(s, g, AsWritten, p, k, stale, f);
    RemovedParts(s, g, AsWritten, p, k, stale);
    StaleLeft(s, g, p, k, stale);
    var u, h := Removed(s, g, AsWritten, p, k, stale), GhostAfterRemove(s, g, AsWritten, p, k);
    var file := s.inodes[Victim(s, g, p, k)];
    var n := ReturnedBlocks(AsWritten, file);
    FreeAfter(s, g, p, k);
    if n == 0 || (n == 1 && Link(stale) == s.sb.freeBlock) {
      Conservation.FreeListDecided(u.sb.freeBlock, u.blocks, h.own, h.fb, f.own, f.fb);
      SameFreeSets(h.own, f.own);
    } else if n == 1 {
      assert FreeSet(f.own) == FreeSet(g.own) + {file.dblocks[0] as int};
      Conservation.HeadGoesOn(s.sb.freeBlock, s.blocks, g.own, g.fb, file.dblocks[0], u.blocks, f.own, f.fb);
    } else {
      FreeMembers(f.own, file.dblocks[0]);
      FreeMembers(f.own, file.dblocks[1]);
      Conservation.LinksDiffer(u.sb.freeBlock, u.blocks, f.own, f.fb, file.dblocks[0], file.dblocks[1]);
    }
  }

  lemma SameFreeSets(a: seq<Owner>, b: seq<Owner>)
    requires |a| == |b| && forall c :: 0 <= c < |a| ==> (a[c].Free? <==> b[c].Free?)
    ensures FreeSet(a) == FreeSet(b)
  {
  }

  lemma FreeMembers(own: seq<Owner>, b: int)
    requires b in FreeSet(own)
    ensures 0 <= b < |own| && own[b].Free?
  {
  }

  /** The blocks that the call as written makes free. */
  lemma FreeAfter(s: State, g: Ghost, p: nat, k: nat)
    requires Removable(s, g, AsWritten, p, k) && SizeOk(s.table[p].node) && !GivesUpBlock(s.table[p].node)
    ensures var h, file := GhostAfterRemove(s, g, AsWritten, p, k), s.inodes[Victim(s, g, p, k)];
            var n := ReturnedBlocks(AsWritten, file);
            && FreeSet(h.own) !! Unreturned(AsWritten, file)
            && (n > 0 ==> Unreturned(AsWritten, file) == {})
            && (forall q :: 0 <= q < n ==> file.dblocks[q] as int in FreeSet(h.own))
            && (n == 1 ==> FreeSet(h.own) == FreeSet(g.own) + {file.dblocks[0] as int})
            && (n > 1 ==> file.dblocks[0] != file.dblocks[1])
  {
    hide FreeBlocks, Deeps, DirsMatch, TableOk, FreeInodes, Tree, InodesOk, Lasts, DropEntry, LostSet;
    DropStage(s, g, AsWritten, p, k);
    VictimFacts(s, g, p, k);
    var dir, j := s.table[p].node, Victim(s, g, p, k);
    var file := s.inodes[j];
    var s1, g1 := DropEntry(s, AsWritten, p, k), GhostAfterDrop(g, dir, k);
    DeepOfFile(s1, g1, AsWritten, j, file, true);
    FileFacts(s1, g1, AsWritten, j, file, true);
    ReleasedAre(s1.inodes, g1.role, g1.own, j, ReturnedBlocks(AsWritten, file), |g1.fb|);
    assert OwnAfter(s1, g1, AsWritten, j, file, true) == OwnReleased(g1.own, j, ReturnedBlocks(AsWritten, file), |g1.fb|);
  }

  lemma ReleasedAre(inodes: seq<Inode>, role: seq<Role>, own: seq<Owner>, j: int, n: nat, m: nat)
    requires Owners(inodes, role, own) && 0 <= j < |inodes| && role[j].InUse? && n <= Owned(inodes[j])
    ensures var file, own' := inodes[j], OwnReleased(own, j, n, m);
            && (forall q :: 0 <= q < n ==> file.dblocks[q] as int in FreeSet(own'))
            && (n == 0 && Owned(file) > 0 ==> file.dblocks[0] as int !in FreeSet(own'))
            && (n == 1 ==> FreeSet(own') == FreeSet(own) + {file.dblocks[0] as int})
            && (n > 1 ==> file.dblocks[0] != file.dblocks[1])
  {
    var file, own' := inodes[j], OwnReleased(own, j, n, m);
    forall q | 0 <= q < Owned(file) ensures 0 <= file.dblocks[q] < |own| && own[file.dblocks[q]] == By(j, q) {
      OwnsItsBlock(inodes, role, own, j, q);
    }
    forall b | 0 <= b < |own| && own[b].By? && own[b].i == j ensures own[b].k < Owned(file) && file.dblocks[own[b].k] == b {
      assert OwnerOk(inodes, role, own[b], b);
    }
  }
}
