/** `f_remove`: swap-with-last deletion, and what becomes of the inode and its blocks. */
module Removal {
  import opened Bytes
  import opened Records
  import opened Operations
  import opened Invariant
  import opened Roles
  import opened Append

  /** A directory's entries once entry k has been replaced by the last one. */
  function RemoveSwap(es: seq<Entry>, k: nat): (r: seq<Entry>)
    requires k < |es|
    ensures |r| == |es| - 1
  {
    es[k := es[|es| - 1]][..|es| - 1]
  }

  /** Swap-with-last removes exactly the entry asked for and leaves every earlier slot in place. */
  lemma RemoveSwapIsRemoval(es: seq<Entry>, k: nat)
    requires k < |es|
    ensures multiset(RemoveSwap(es, k)) == multiset(es) - multiset{es[k]}
    ensures forall i :: 0 <= i < k ==> RemoveSwap(es, k)[i] == es[i]
  {
    var m := |es| - 1;
    assert es == es[..m] + [es[m]];
    if k < m {
      assert RemoveSwap(es, k) == es[..m][k := es[m]];
      assert multiset(es[..m][k := es[m]]) == multiset(es[..m]) - multiset{es[..m][k]} + multiset{es[m]};
    } else {
      assert RemoveSwap(es, k) == es[..m];
    }
  }

  // ---- the directory ----

  /** Slot p holds an open directory and k is one of its entries past "..". */
  ghost predicate CanDrop(s: State, g: Ghost, p: nat, k: nat) {
    && Disk(s, g) && p < |s.table| && !s.table[p].free && s.table[p].node.kind == DIR
    && UsedDir(s.inodes, g.role, s.table[p].node.index) && SizeOk(s.table[p].node) && DirSizeOk(s.table[p].node)
    && 2 <= k < Count(s.table[p].node)
    && NameOk(MovedEntry(s, s.table[p].node).name)
  }

  lemma OpenDirKnown(s: State, g: Ghost, p: nat, k: nat)
    requires CanDrop(s, g, p, k)
    ensures var dir := s.table[p].node;
            && dir == s.inodes[dir.index] && InodeOk(dir, dir.index, g.role[dir.index])
            && EntriesMatch(dir, s.blocks, g.dirs[dir.index]) && LastOk(dir)
            && OwnsAt(dir, g.own, dir.index, k / ENTRIES_PER_BLOCK)
            && OwnsAt(dir, g.own, dir.index, (Count(dir) - 1) / ENTRIES_PER_BLOCK)
  {
    var dir := s.table[p].node;
    assert SlotOk(s.table[p], s.inodes, g.role) && InodeOk(s.inodes[dir.index], dir.index, g.role[dir.index]);
    assert EntriesMatch(s.inodes[dir.index], s.blocks, g.dirs[dir.index]) && LastOk(s.inodes[dir.index]);
    EntryBlockOwned(s.inodes, g.role, g.own, dir.index, k);
    EntryBlockOwned(s.inodes, g.role, g.own, dir.index, Count(dir) - 1);
  }

  /** The blocks after the directory part. */
  function BlocksAfterDrop(s: State, p: nat, k: nat): seq<Block>
    requires p < |s.table| && SizeOk(s.table[p].node) && k < Count(s.table[p].node)
    requires NameOk(MovedEntry(s, s.table[p].node).name)
    requires 0 <= s.table[p].node.dblocks[k / ENTRIES_PER_BLOCK] < |s.blocks|
    requires 0 <= LastEntryBlock(s.table[p].node) < |s.blocks|
  {
    var dir := s.table[p].node;
    var kb, lb := dir.dblocks[k / ENTRIES_PER_BLOCK], LastEntryBlock(dir);
    TwoWrites(s.blocks, kb, EntryReplaced(s.blocks[kb], k, MovedEntry(s, dir)),
              GivesUpBlock(dir), lb, Splice(s.blocks[lb], 0, WordBytes(s.sb.freeBlock)))
  }

  lemma WholeBlock(b: Block, x: Block)
    ensures Splice(b, 0, x) == x
  {
  }

  lemma DropForm(s: State, v: Variant, p: nat, k: nat)
    requires p < |s.table| && SizeOk(s.table[p].node) && k < Count(s.table[p].node)
    requires NameOk(MovedEntry(s, s.table[p].node).name)
    requires 0 <= s.table[p].node.dblocks[k / ENTRIES_PER_BLOCK] < |s.blocks|
    requires 0 <= LastEntryBlock(s.table[p].node) < |s.blocks| && 0 <= s.table[p].node.index < |s.inodes|
    ensures var dir := s.table[p].node;
            var t := DropEntry(s, v, p, k);
            && t.inodes == s.inodes[dir.index := ShrunkDir(v, dir)]
            && t.blocks == BlocksAfterDrop(s, p, k)
            && t.table == s.table[p := s.table[p].(node := ShrunkDir(v, dir), offset := ENTRYSIZE * k)]
            && t.sb == (if GivesUpBlock(dir) then s.sb.(freeBlock := LastEntryBlock(dir)) else s.sb)
            && t.freehead == s.freehead && t.dsb == s.dsb
  {
    var dir := s.table[p].node;
    var kb, lb := dir.dblocks[k / ENTRIES_PER_BLOCK], LastEntryBlock(dir);
    var x := EntryReplaced(s.blocks[kb], k, MovedEntry(s, dir));
    WholeBlock(s.blocks[kb], x);
    if GivesUpBlock(dir) {
      WholeBlock(s.blocks[kb := x][lb], Splice(s.blocks[lb], 0, WordBytes(s.sb.freeBlock)));
    }
  }

  lemma ReplacedEntry(target: Block, k: nat, moved: Entry, j: nat)
    requires NameOk(moved.name) && j < ENTRIES_PER_BLOCK
    ensures EntryIn(EntryReplaced(target, k, moved), j) == if j == k % ENTRIES_PER_BLOCK then moved else EntryIn(target, j)
  {
    var at := ENTRYSIZE * (k % ENTRIES_PER_BLOCK);
    EntryAfterSplice(target, k % ENTRIES_PER_BLOCK, OverwriteEntry(target[at..at + ENTRYSIZE], moved), j);
    EntryRoundTrip(moved, target[at..at + ENTRYSIZE]);
  }

  lemma EarlierBlock(i: nat, m: nat)
    requires i < m && m % ENTRIES_PER_BLOCK == 0
    ensures i / ENTRIES_PER_BLOCK < m / ENTRIES_PER_BLOCK
  {
  }

  predicate OwnsEntryBlock(dir: Inode, own: seq<Owner>, d: nat, i: nat)
    requires SizeOk(dir) && i < Count(dir)
  {
    OwnsAt(dir, own, d, i / ENTRIES_PER_BLOCK)
  }

  /** The blocks after a write to block kb and, when a block is given up, to block lb. */
  function TwoWrites(blocks: seq<Block>, kb: int, x: Block, gives: bool, lb: int, y: Block): seq<Block>
    requires 0 <= kb < |blocks| && 0 <= lb < |blocks|
  {
    if gives then blocks[kb := x][lb := y] else blocks[kb := x]
  }

  /** The block of entry i of the shrunk directory. */
  lemma DropBlockAt(dir: Inode, d: nat, blocks: seq<Block>, own: seq<Owner>, k: nat, x: Block, y: Block, i: nat)
    requires SizeOk(dir) && k < Count(dir) && |own| == |blocks| && i < Count(dir) - 1
    requires OwnsEntryBlock(dir, own, d, i) && OwnsEntryBlock(dir, own, d, k) && OwnsEntryBlock(dir, own, d, Count(dir) - 1)
    ensures var blocks' := TwoWrites(blocks, dir.dblocks[k / ENTRIES_PER_BLOCK], x, GivesUpBlock(dir), LastEntryBlock(dir), y);
            var b := dir.dblocks[i / ENTRIES_PER_BLOCK];
            GetBlock(blocks', b) == if i / ENTRIES_PER_BLOCK == k / ENTRIES_PER_BLOCK then x else GetBlock(blocks, b)
  {
    if GivesUpBlock(dir) {
      EarlierBlock(i, Count(dir) - 1);
    }
  }

  /** Slot j of block x, which entry k was overwritten in. */
  predicate Overwritten(x: Block, was: Block, k: nat, moved: Entry, j: nat)
    requires j < ENTRIES_PER_BLOCK
  {
    EntryIn(x, j) == if j == k % ENTRIES_PER_BLOCK then moved else EntryIn(was, j)
  }

  /** Entry i of the shrunk directory. */
  lemma DropEntryAt(dir: Inode, dir': Inode, d: nat, blocks: seq<Block>, own: seq<Owner>, es: seq<Entry>, k: nat, x: Block, y: Block, i: nat)
    requires SizeOk(dir) && k < Count(dir) && |own| == |blocks| && i < Count(dir) - 1
    requires EntriesMatch(dir, blocks, es)
    requires OwnsEntryBlock(dir, own, d, i) && OwnsEntryBlock(dir, own, d, k) && OwnsEntryBlock(dir, own, d, Count(dir) - 1)
    requires SizeOk(dir') && dir'.dblocks == dir.dblocks && Count(dir') == Count(dir) - 1
    requires Overwritten(x, blocks[dir.dblocks[k / ENTRIES_PER_BLOCK]], k, es[Count(dir) - 1], i % ENTRIES_PER_BLOCK)
    ensures DirEntry(TwoWrites(blocks, dir.dblocks[k / ENTRIES_PER_BLOCK], x, GivesUpBlock(dir), LastEntryBlock(dir), y), dir', i)
              == RemoveSwap(es, k)[i]
  {
    hide TwoWrites, EntryIn, GivesUpBlock, GetBlock, LastEntryBlock;
    DropBlockAt(dir, d, blocks, own, k, x, y, i);
    assert DirEntry(blocks, dir, i) == es[i];
    assert GetBlock(blocks, dir.dblocks[k / ENTRIES_PER_BLOCK]) == blocks[dir.dblocks[k / ENTRIES_PER_BLOCK]] by {
      WholeBlockAt(blocks, dir.dblocks[k / ENTRIES_PER_BLOCK]);
    }
    SameSlot(i, k);
  }

  lemma WholeBlockAt(blocks: seq<Block>, b: int)
    requires 0 <= b < |blocks|
    ensures GetBlock(blocks, b) == blocks[b]
  {
  }

  lemma SameSlot(i: nat, k: nat)
    ensures i / ENTRIES_PER_BLOCK == k / ENTRIES_PER_BLOCK && i % ENTRIES_PER_BLOCK == k % ENTRIES_PER_BLOCK <==> i == k
    ensures i % ENTRIES_PER_BLOCK < ENTRIES_PER_BLOCK
  {
  }

  /** The blocks of a shrunk directory hold the swapped entries: x is the block of entry k after
      the copy, y whatever the block given up holds. */
  lemma DropEntries(dir: Inode, dir': Inode, d: nat, blocks: seq<Block>, own: seq<Owner>, es: seq<Entry>, k: nat, x: Block, y: Block)
    requires SizeOk(dir) && k < Count(dir) && |own| == |blocks|
    requires EntriesMatch(dir, blocks, es)
    requires forall i {:trigger OwnsEntryBlock(dir, own, d, i)} :: 0 <= i < Count(dir) ==> OwnsEntryBlock(dir, own, d, i)
    requires SizeOk(dir') && dir'.dblocks == dir.dblocks && Count(dir') == Count(dir) - 1
    requires OwnsEntryBlock(dir, own, d, k) && OwnsEntryBlock(dir, own, d, Count(dir) - 1)
    requires forall j {:trigger Overwritten(x, blocks[dir.dblocks[k / ENTRIES_PER_BLOCK]], k, es[Count(dir) - 1], j)} ::
               0 <= j < ENTRIES_PER_BLOCK ==> Overwritten(x, blocks[dir.dblocks[k / ENTRIES_PER_BLOCK]], k, es[Count(dir) - 1], j)
    ensures EntriesMatch(dir', TwoWrites(blocks, dir.dblocks[k / ENTRIES_PER_BLOCK], x, GivesUpBlock(dir), LastEntryBlock(dir), y),
                         RemoveSwap(es, k))
  {
    var m := Count(dir) - 1;
    var blocks' := TwoWrites(blocks, dir.dblocks[k / ENTRIES_PER_BLOCK], x, GivesUpBlock(dir), LastEntryBlock(dir), y);
    var es' := RemoveSwap(es, k);
    forall i | 0 <= i < m ensures DirEntry(blocks', dir', i) == es'[i] {
      assert OwnsEntryBlock(dir, own, d, i);
      assert Overwritten(x, blocks[dir.dblocks[k / ENTRIES_PER_BLOCK]], k, es[Count(dir) - 1], i % ENTRIES_PER_BLOCK);
      DropEntryAt(dir, dir', d, blocks, own, es, k, x, y, i);
    }
  }

  /** The roles after the directory part. */
  ghost function GhostAfterDrop(g: Ghost, dir: Inode, k: nat): Ghost
    requires SizeOk(dir) && 0 <= dir.index < |g.dirs| && k < |g.dirs[dir.index]| && 1 <= Count(dir)
    requires GivesUpBlock(dir) ==> 0 <= LastEntryBlock(dir) < |g.own|
  {
    var g1 := g.(dirs := g.dirs[dir.index := RemoveSwap(g.dirs[dir.index], k)]);
    if GivesUpBlock(dir)
    then g1.(fb := g.fb + [LastEntryBlock(dir) as int], own := g.own[LastEntryBlock(dir) := Free(|g.fb|)])
    else g1
  }

  lemma LinkStored(b: Block, w: int32)
    ensures Link(Splice(b, 0, WordBytes(w))) == w
  {
    WordAfterSplice(b, 0, w, 0);
  }

  /** The number of blocks of a directory with c entries. */
  lemma BlocksOfEntries(c: nat)
    requires 1 <= c
    ensures (ENTRYSIZE * c + BLOCKSIZE - 1) / BLOCKSIZE == (c - 1) / ENTRIES_PER_BLOCK + 1
    ensures (ENTRYSIZE * c - 1) / BLOCKSIZE == (c - 1) / ENTRIES_PER_BLOCK
  {
    var q, r := (c - 1) / ENTRIES_PER_BLOCK, (c - 1) % ENTRIES_PER_BLOCK;
    assert c - 1 == ENTRIES_PER_BLOCK * q + r && r <= ENTRIES_PER_BLOCK - 1;
    BlockDigits(q + 1, ENTRYSIZE * r + ENTRYSIZE - 1);
    BlockDigits(q, ENTRYSIZE * r + ENTRYSIZE - 1);
    assert ENTRYSIZE * c + BLOCKSIZE - 1 == BLOCKSIZE * (q + 1) + (ENTRYSIZE * r + ENTRYSIZE - 1);
    assert ENTRYSIZE * c - 1 == BLOCKSIZE * q + (ENTRYSIZE * r + ENTRYSIZE - 1);
  }

  /** One entry fewer is one block fewer exactly when the last entry was alone in its block. */
  lemma FewerEntries(c: nat)
    requires 2 <= c
    ensures (c - 2) / ENTRIES_PER_BLOCK == if (c - 1) % ENTRIES_PER_BLOCK == 0 then (c - 1) / ENTRIES_PER_BLOCK - 1 else (c - 1) / ENTRIES_PER_BLOCK
  {
  }

  lemma OwnedAfterDrop(v: Variant, dir: Inode)
    requires SizeOk(dir) && DirSizeOk(dir) && dir.kind == DIR && 3 <= Count(dir)
    ensures Owned(ShrunkDir(v, dir)) == if GivesUpBlock(dir) then Owned(dir) - 1 else Owned(dir)
    ensures Owned(dir) == (Count(dir) - 1) / ENTRIES_PER_BLOCK + 1
  {
    var c := Count(dir);
    assert dir.size == ENTRYSIZE * c && ShrunkDir(v, dir).size == ENTRYSIZE * (c - 1);
    BlocksOfEntries(c);
    BlocksOfEntries(c - 1);
    FewerEntries(c);
  }

  lemma DropFreeBlocks(s: State, own: seq<Owner>, fb: seq<int>, kb: int, lb: int, x: Block, gives: bool)
    requires FreeBlocks(s.sb.freeBlock, s.blocks, own, fb)
    requires 0 <= kb < |s.blocks| && own[kb].By? && 0 <= lb < |s.blocks| && own[lb].By?
    ensures var blocks1 := s.blocks[kb := x];
            if gives
            then FreeBlocks(lb, blocks1[lb := Splice(s.blocks[lb], 0, WordBytes(s.sb.freeBlock))], own[lb := Free(|fb|)], fb + [lb])
            else FreeBlocks(s.sb.freeBlock, blocks1, own, fb)
  {
    WriteOwnedBlock(s.sb.freeBlock, s.blocks, own, fb, kb, x);
    if gives {
      LinkStored(s.blocks[lb], s.sb.freeBlock);
      GiveBlock(s.blocks[kb := x], own, fb, lb, Splice(s.blocks[lb], 0, WordBytes(s.sb.freeBlock)));
    }
  }

  lemma DropOwners(inodes: seq<Inode>, role: seq<Role>, own: seq<Owner>, v: Variant, d: int, o: Owner)
    requires Owners(inodes, role, own) && UsedDir(inodes, role, d)
    requires SizeOk(inodes[d]) && DirSizeOk(inodes[d]) && 3 <= Count(inodes[d]) && !o.By?
    requires 0 <= LastEntryBlock(inodes[d]) < |own|
    ensures var dir := inodes[d];
            Owners(inodes[d := ShrunkDir(v, dir)], role, if GivesUpBlock(dir) then own[LastEntryBlock(dir) := o] else own)
  {
    OwnedAfterDrop(v, inodes[d]);
    if GivesUpBlock(inodes[d]) {
      LoseLastBlock(inodes, role, own, d, ShrunkDir(v, inodes[d]), o);
    } else {
      SameBlocks(inodes, role, own, d, ShrunkDir(v, inodes[d]));
    }
  }

  lemma DropRoles(s: State, g: Ghost, v: Variant, p: nat, k: nat)
    requires CanDrop(s, g, p, k)
    requires var dir := s.table[p].node;
             && dir == s.inodes[dir.index] && |g.dirs| == |s.inodes| && k < |g.dirs[dir.index]|
             && OwnsAt(dir, g.own, dir.index, k / ENTRIES_PER_BLOCK)
             && OwnsAt(dir, g.own, dir.index, (Count(dir) - 1) / ENTRIES_PER_BLOCK)
    ensures var dir := s.table[p].node;
            var h := GhostAfterDrop(g, dir, k);
            && FreeBlocks(if GivesUpBlock(dir) then LastEntryBlock(dir) else s.sb.freeBlock, BlocksAfterDrop(s, p, k), h.own, h.fb)
            && Owners(s.inodes[dir.index := ShrunkDir(v, dir)], g.role, h.own)
  {
    var dir := s.table[p].node;
    var kb := dir.dblocks[k / ENTRIES_PER_BLOCK];
    DropFreeBlocks(s, g.own, g.fb, kb, LastEntryBlock(dir), EntryReplaced(s.blocks[kb], k, MovedEntry(s, dir)), GivesUpBlock(dir));
    DropOwners(s.inodes, g.role, g.own, v, dir.index, Free(|g.fb|));
  }

  lemma AllEntryBlocks(inodes: seq<Inode>, role: seq<Role>, own: seq<Owner>, d: int)
    requires Owners(inodes, role, own) && UsedDir(inodes, role, d) && SizeOk(inodes[d]) && DirSizeOk(inodes[d])
    ensures forall i {:trigger OwnsEntryBlock(inodes[d], own, d, i)} :: 0 <= i < Count(inodes[d]) ==> OwnsEntryBlock(inodes[d], own, d, i)
  {
    forall i | 0 <= i < Count(inodes[d]) ensures OwnsEntryBlock(inodes[d], own, d, i) {
      EntryBlockOwned(inodes, role, own, d, i);
    }
  }

  lemma ReplacedEntries(target: Block, k: nat, moved: Entry, x: Block)
    requires NameOk(moved.name) && x == EntryReplaced(target, k, moved)
    ensures forall j {:trigger Overwritten(x, target, k, moved, j)} :: 0 <= j < ENTRIES_PER_BLOCK ==> Overwritten(x, target, k, moved, j)
  {
    forall j | 0 <= j < ENTRIES_PER_BLOCK ensures Overwritten(x, target, k, moved, j) {
      ReplacedEntry(target, k, moved, j);
    }
  }

  lemma ShrunkShape(v: Variant, dir: Inode)
    requires SizeOk(dir) && 1 <= Count(dir)
    ensures SizeOk(ShrunkDir(v, dir)) && ShrunkDir(v, dir).dblocks == dir.dblocks && Count(ShrunkDir(v, dir)) == Count(dir) - 1
  {
  }

  lemma DropDir(s: State, own: seq<Owner>, es: seq<Entry>, v: Variant, p: nat, k: nat)
    requires p < |s.table| && SizeOk(s.table[p].node) && 0 <= k < Count(s.table[p].node) && 0 <= s.table[p].node.index
    requires NameOk(MovedEntry(s, s.table[p].node).name) && |own| == |s.blocks|
    requires EntriesMatch(s.table[p].node, s.blocks, es)
    requires forall i {:trigger OwnsEntryBlock(s.table[p].node, own, s.table[p].node.index, i)} ::
               0 <= i < Count(s.table[p].node) ==> OwnsEntryBlock(s.table[p].node, own, s.table[p].node.index, i)
    requires OwnsEntryBlock(s.table[p].node, own, s.table[p].node.index, k)
    requires OwnsEntryBlock(s.table[p].node, own, s.table[p].node.index, Count(s.table[p].node) - 1)
    ensures EntriesMatch(ShrunkDir(v, s.table[p].node), BlocksAfterDrop(s, p, k), RemoveSwap(es, k))
  {
    var dir := s.table[p].node;
    var m := Count(dir) - 1;
    assert DirEntry(s.blocks, dir, m) == es[m];
    var kb := dir.dblocks[k / ENTRIES_PER_BLOCK];
    var x := EntryReplaced(s.blocks[kb], k, es[m]);
    ReplacedEntries(s.blocks[kb], k, es[m], x);
    ShrunkShape(v, dir);
    DropEntries(dir, ShrunkDir(v, dir), dir.index, s.blocks, own, es, k, x,
                Splice(s.blocks[LastEntryBlock(dir)], 0, WordBytes(s.sb.freeBlock)));
  }

  /** The other directories own neither block that changes. */
  lemma DropOthers(inodes: seq<Inode>, blocks: seq<Block>, role: seq<Role>, own: seq<Owner>, i: int, es: seq<Entry>,
                   kb: int, x: Block, gives: bool, lb: int, y: Block)
    requires Owners(inodes, role, own) && |own| == |blocks| && UsedDir(inodes, role, i)
    requires DirSizeOk(inodes[i]) && EntriesMatch(inodes[i], blocks, es)
    requires 0 <= kb < |blocks| && own[kb].By? && own[kb].i != i && 0 <= lb < |blocks| && own[lb].By? && own[lb].i != i
    ensures EntriesMatch(inodes[i], TwoWrites(blocks, kb, x, gives, lb, y), es)
  {
    EntriesUntouched(inodes, blocks, role, own, i, es, kb, x);
    if gives {
      EntriesUntouched(inodes, blocks[kb := x], role, own, i, es, lb, y);
    }
  }

  /** As written, `f_remove` leaves `last_block_index` right exactly when no block is given up. */
  lemma ShrunkDirLast(v: Variant, dir: Inode)
    requires SizeOk(dir) && DirSizeOk(dir) && dir.kind == DIR && 3 <= Count(dir) && LastOk(dir)
    requires GivesUpBlock(dir) ==> dir.dblocks[(Count(dir) - 1) / ENTRIES_PER_BLOCK - 1] != LastEntryBlock(dir)
    ensures LastOk(ShrunkDir(v, dir)) <==> v.Repaired? || !GivesUpBlock(dir)
  {
    var c := Count(dir);
    assert dir.size == ENTRYSIZE * c && ShrunkDir(v, dir).size == ENTRYSIZE * (c - 1);
    BlocksOfEntries(c);
    BlocksOfEntries(c - 1);
    FewerEntries(c);
  }

  /** Two writes to blocks of directory d keep the entries of every other directory. */
  lemma DirsFollow(inodes: seq<Inode>, blocks: seq<Block>, role: seq<Role>, own: seq<Owner>, dirs: seq<seq<Entry>>,
                   d: int, dir': Inode, es': seq<Entry>, kb: int, x: Block, gives: bool, lb: int, y: Block)
    requires InodesOk(inodes, role) && Owners(inodes, role, own) && |own| == |blocks| && DirsMatch(inodes, blocks, role, dirs)
    requires 0 <= d < |inodes|
    requires 0 <= kb < |blocks| && own[kb].By? && own[kb].i == d && 0 <= lb < |blocks| && own[lb].By? && own[lb].i == d
    requires EntriesMatch(dir', TwoWrites(blocks, kb, x, gives, lb, y), es')
    ensures DirsMatch(inodes[d := dir'], TwoWrites(blocks, kb, x, gives, lb, y), role, dirs[d := es'])
  {
    var inodes', blocks', dirs' := inodes[d := dir'], TwoWrites(blocks, kb, x, gives, lb, y), dirs[d := es'];
    forall i | 0 <= i < |inodes'| && role[i].InUse? && inodes'[i].kind == DIR ensures EntriesMatch(inodes'[i], blocks', dirs'[i]) {
      if i != d {
        assert InodeOk(inodes[i], i, role[i]) && EntriesMatch(inodes[i], blocks, dirs[i]);
        DropOthers(inodes, blocks, role, own, i, dirs[i], kb, x, gives, lb, y);
      }
    }
  }

  lemma DropKeepsDirs(s: State, g: Ghost, v: Variant, p: nat, k: nat)
    requires CanDrop(s, g, p, k) && |g.own| == |s.blocks|
    requires var dir := s.table[p].node;
             && dir == s.inodes[dir.index] && |g.dirs| == |s.inodes| && EntriesMatch(dir, s.blocks, g.dirs[dir.index])
             && OwnsAt(dir, g.own, dir.index, k / ENTRIES_PER_BLOCK)
             && OwnsAt(dir, g.own, dir.index, (Count(dir) - 1) / ENTRIES_PER_BLOCK)
    ensures var dir := s.table[p].node;
            DirsMatch(s.inodes[dir.index := ShrunkDir(v, dir)], BlocksAfterDrop(s, p, k), g.role, GhostAfterDrop(g, dir, k).dirs)
  {
    hide TwoWrites, DirEntry, Splice, EntryReplaced, RemoveSwap, ShrunkDir, GivesUpBlock, FreeBlocks, TableOk, Lasts, InodesOk;
    var dir := s.table[p].node;
    var d := dir.index;
    AllEntryBlocks(s.inodes, g.role, g.own, d);
    assert OwnsEntryBlock(dir, g.own, d, k) && OwnsEntryBlock(dir, g.own, d, Count(dir) - 1);
    DropDir(s, g.own, g.dirs[d], v, p, k);
    var kb, lb := dir.dblocks[k / ENTRIES_PER_BLOCK], LastEntryBlock(dir);
    DirsFollow(s.inodes, s.blocks, g.role, g.own, g.dirs, d, ShrunkDir(v, dir), RemoveSwap(g.dirs[d], k),
               kb, EntryReplaced(s.blocks[kb], k, MovedEntry(s, dir)), GivesUpBlock(dir), lb,
               Splice(s.blocks[lb], 0, WordBytes(s.sb.freeBlock)));
  }

  /** What the directory part does to `last_block_index`. */
  lemma DropLast(s: State, g: Ghost, v: Variant, p: nat, k: nat)
    requires CanDrop(s, g, p, k)
    ensures var dir := s.table[p].node;
            && (LastOk(ShrunkDir(v, dir)) <==> v.Repaired? || !GivesUpBlock(dir))
  {
    OpenDirKnown(s, g, p, k);
    var dir := s.table[p].node;
    if GivesUpBlock(dir) {
      OwnsItsBlock(s.inodes, g.role, g.own, dir.index, (Count(dir) - 1) / ENTRIES_PER_BLOCK - 1);
    }
    ShrunkDirLast(v, dir);
  }

  /** The directory part touches no block beyond the direct ones. */
  lemma DropDeeps(s: State, g: Ghost, v: Variant, p: nat, k: nat)
    requires CanDrop(s, g, p, k)
    requires var dir := s.table[p].node;
             && dir == s.inodes[dir.index] && |g.dirs| == |s.inodes| && k < |g.dirs[dir.index]|
             && OwnsAt(dir, g.own, dir.index, k / ENTRIES_PER_BLOCK) && |g.own| == |s.blocks|
             && OwnsAt(dir, g.own, dir.index, (Count(dir) - 1) / ENTRIES_PER_BLOCK)
    ensures var dir := s.table[p].node;
            Deeps(s.inodes[dir.index := ShrunkDir(v, dir)], BlocksAfterDrop(s, p, k), g.role, GhostAfterDrop(g, dir, k).own)
  {
    hide FreeBlocks, Owners, Deeps, DirsMatch, TableOk, Lasts, InodesOk, EntryReplaced, Splice, ShrunkDir, DirEntry, WordBytes, RemoveSwap;
    var dir := s.table[p].node;
    SmallIsShallow(dir, InUse);
    ShrunkShape(v, dir);
    SmallIsShallow(ShrunkDir(v, dir), InUse);
    DeepsAside(s.inodes, s.blocks, g.role, g.own, dir.index, ShrunkDir(v, dir), g.role[dir.index],
               BlocksAfterDrop(s, p, k), GhostAfterDrop(g, dir, k).own);
    assert g.role[dir.index := g.role[dir.index]] == g.role;
  }

  /** The directory part keeps everything but, possibly, `last_block_index`. */
  lemma DropKeeps(s: State, g: Ghost, v: Variant, p: nat, k: nat)
    requires CanDrop(s, g, p, k)
    ensures var dir := s.table[p].node;
            && dir == s.inodes[dir.index] && |g.dirs| == |s.inodes| && |g.dirs[dir.index]| == Count(dir)
            && OwnsAt(dir, g.own, dir.index, (Count(dir) - 1) / ENTRIES_PER_BLOCK)
            && InodeOk(ShrunkDir(v, dir), dir.index, g.role[dir.index])
    ensures var t, h := DropEntry(s, v, p, k), GhostAfterDrop(g, s.table[p].node, k);
            && InodesOk(t.inodes, h.role)
            && FreeBlocks(t.sb.freeBlock, t.blocks, h.own, h.fb)
            && Owners(t.inodes, h.role, h.own)
            && Deeps(t.inodes, t.blocks, h.role, h.own)
            && DirsMatch(t.inodes, t.blocks, h.role, h.dirs)
            && TableOk(t.table, t.inodes, h.role)
            && (Lasts(t.inodes, h.role) <==> v.Repaired? || !GivesUpBlock(s.table[p].node))
            && t.inodes == s.inodes[s.table[p].node.index := ShrunkDir(v, s.table[p].node)]
            && t.sb == (if GivesUpBlock(s.table[p].node) then s.sb.(freeBlock := LastEntryBlock(s.table[p].node)) else s.sb)
            && t.table == s.table[p := s.table[p].(node := ShrunkDir(v, s.table[p].node), offset := ENTRYSIZE * k)]
            && t.freehead == s.freehead && t.dsb == s.dsb
  {
    OpenDirKnown(s, g, p, k);
    DropForm(s, v, p, k);
    DropRoles(s, g, v, p, k);
    DropDeeps(s, g, v, p, k);
    DropKeepsDirs(s, g, v, p, k);
    DropTable(s, g, v, p, k);
    InodesFollow(s.inodes, g.role, s.table[p].node.index, ShrunkDir(v, s.table[p].node));
    DropLast(s, g, v, p, k);
    LastsExactly(s.inodes, g.role, s.table[p].node.index, ShrunkDir(v, s.table[p].node));
  }

  lemma LastsExactly(inodes: seq<Inode>, role: seq<Role>, d: int, dir: Inode)
    requires 0 <= d < |inodes| && |role| == |inodes| && role[d].InUse? && dir.kind == DIR
    ensures Lasts(inodes[d := dir], role) ==> LastOk(dir)
  {
    var inodes' := inodes[d := dir];
    if Lasts(inodes', role) {
      assert LastOk(inodes'[d]);
    }
  }

  lemma DropTable(s: State, g: Ghost, v: Variant, p: nat, k: nat)
    requires CanDrop(s, g, p, k)
    ensures var dir := s.table[p].node;
            && InodeOk(ShrunkDir(v, dir), dir.index, g.role[dir.index])
            && TableOk(s.table[p := s.table[p].(node := ShrunkDir(v, dir), offset := ENTRYSIZE * k)],
                       s.inodes[dir.index := ShrunkDir(v, dir)], g.role)
  {
    var dir := s.table[p].node;
    assert SlotOk(s.table[p], s.inodes, g.role) && InodeOk(s.inodes[dir.index], dir.index, g.role[dir.index]);
    assert ENTRYSIZE * k <= dir.size - ENTRYSIZE;
    TableFollows(s.table, s.inodes, g.role, p, s.table[p].(node := ShrunkDir(v, dir), offset := ENTRYSIZE * k));
  }
}
