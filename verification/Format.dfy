/** `format`: the sizes of the regions, the loops that write them, and the loops that check them.
    A whole number of megabytes is formatted; the ceilings are exact. */
module Format {
  import opened Bytes
  import opened Records
  import opened Operations
  import opened Walk
  import opened Invariant

  const INODE_BYTES := 116
  const BOOT_BYTES := 512
  const SUPERBLOCK_BYTES := 512
  const MEGABYTE := 1000000
  /** one inode per 0.02 megabytes */
  const INODES_PER_MB := 50
  /** beyond this size `num_blocks_for_inodes * BLOCKSIZE` leaves the range of int */
  const MAX_MB := 370255

  // ---- sizes ----

  function CeilDiv(a: nat, b: nat): nat
    requires b > 0
  {
    (a + b - 1) / b
  }

  function InodeBlocks(mb: nat): nat { CeilDiv(INODES_PER_MB * mb * INODE_BYTES, BLOCKSIZE) }

  function InodeCount(mb: nat): nat { InodeBlocks(mb) * BLOCKSIZE / INODE_BYTES }

  lemma InodeBlocksFit(mb: nat)
    requires 1 <= mb
    ensures MEGABYTE * mb - BOOT_BYTES - SUPERBLOCK_BYTES - InodeBlocks(mb) * BLOCKSIZE >= 990000 * mb
  {
  }

  function DataBlocks(mb: nat): nat
    requires 1 <= mb
  {
    InodeBlocksFit(mb);
    CeilDiv(MEGABYTE * mb - SUPERBLOCK_BYTES - BOOT_BYTES - InodeBlocks(mb) * BLOCKSIZE, BLOCKSIZE)
  }

  /** The inode region holds as many whole inodes as fit its blocks and no fewer than asked for;
      the image covers the requested bytes with less than one block of excess. */
  lemma Sizes(mb: nat)
    requires 1 <= mb
    ensures InodeCount(mb) * INODE_BYTES <= BLOCKSIZE * InodeBlocks(mb) < (InodeCount(mb) + 1) * INODE_BYTES
    ensures INODES_PER_MB * mb <= InodeCount(mb)
    ensures MEGABYTE * mb <= BOOT_BYTES + SUPERBLOCK_BYTES + BLOCKSIZE * (InodeBlocks(mb) + DataBlocks(mb)) < MEGABYTE * mb + BLOCKSIZE
    ensures mb <= MAX_MB <==> InodeBlocks(mb) * BLOCKSIZE <= 0x7FFF_FFFF
    ensures mb <= MAX_MB ==> InodeCount(mb) <= 0x7FFF_FFFF && DataBlocks(mb) <= 0x7FFF_FFFF
  {
    InodeBlocksFit(mb);
  }

  // ---- what is written ----

  function SuperblockFor(mb: nat): Superblock
    requires 1 <= mb <= MAX_MB
  {
    Sizes(mb);
    Superblock(BLOCKSIZE, 0, InodeBlocks(mb), 1, 1, 0)
  }

  const NO_BLOCKS: seq<int32> := [0, 0, 0, 0, 0, 0, 0, 0, 0, 0]

  /** Inode i of n. */
  function NewInode(i: nat, n: nat): Inode
    requires i < n <= 0x7FFF_FFFF
  {
    if i == 0 then Inode(0, -1, 2 * ENTRYSIZE, DIR, 0, NO_BLOCKS, [0, 0, 0, 0], -1, -1, 0)
    else Inode(-1, if i == n - 1 then -1 else i + 1, 0, UNTYPED, i, NO_BLOCKS, [0, 0, 0, 0], -1, -1, -1)
  }

  /** Block j of m. */
  function NewBlock(j: nat, m: nat): Block
    requires j < m <= 0x7FFF_FFFF
  {
    if j == 0 then DotEntries(Zeros(BLOCKSIZE), 0, 0)
    else Splice(Zeros(BLOCKSIZE), 0, WordBytes(if j == m - 1 then -1 else j + 1))
  }

  function NewInodes(n: nat): (r: seq<Inode>)
    requires n <= 0x7FFF_FFFF
    ensures |r| == n && forall i :: 0 <= i < n ==> r[i] == NewInode(i, n)
  {
    seq(n, i requires 0 <= i < n => NewInode(i, n))
  }

  function NewBlocks(m: nat): (r: seq<Block>)
    requires m <= 0x7FFF_FFFF
    ensures |r| == m && forall j :: 0 <= j < m ==> r[j] == NewBlock(j, m)
  {
    seq(m, j requires 0 <= j < m => NewBlock(j, m))
  }

  // ---- what is checked ----

  predicate SuperblockPasses(sb: Superblock, dataOffset: int) {
    sb.size == BLOCKSIZE && sb.dataOffset == dataOffset && sb.inodeOffset == 0 && sb.freeBlock == 1 && sb.freeInode == 1 && sb.rootDir == 0
  }

  predicate InodePasses(node: Inode, i: nat, n: nat) {
    && node.i2block == -1 && node.i3block == -1 && node.index == i
    && if i == 0 then
         && node.parent == 0 && node.dblocks[0] == 0 && node.next == -1 && node.size == 2 * ENTRYSIZE
         && node.kind == DIR && node.last == 0
       else
         && node.parent == -1 && node.size == 0 && node.kind == UNTYPED && node.last == -1
         && node.next == if i == n - 1 then -1 else i + 1
  }

  predicate BlockPasses(block: Block, j: nat, m: nat) {
    if j == 0 then
      && EntryIn(block, 0).inode == 0 && EntryIn(block, 1).inode == 0
      && EntryIn(block, 0).name == DOT && EntryIn(block, 1).name == DOTDOT
    else Link(block) == if j == m - 1 then -1 else j + 1
  }

  ghost predicate InodesPass(inodes: seq<Inode>, n: nat) {
    forall i {:trigger InodePasses(ReadInode(inodes, i), i, n)} :: 0 <= i < n ==> InodePasses(ReadInode(inodes, i), i, n)
  }

  ghost predicate BlocksPass(blocks: seq<Block>, m: nat) {
    forall j {:trigger BlockPasses(GetBlock(blocks, j), j, m)} :: 0 <= j < m ==> BlockPasses(GetBlock(blocks, j), j, m)
  }

  /** What `test_disk` checks. */
  ghost predicate Accepted(mb: nat, sb: Superblock, inodes: seq<Inode>, blocks: seq<Block>)
    requires 1 <= mb
  {
    SuperblockPasses(sb, InodeBlocks(mb)) && InodesPass(inodes, InodeCount(mb)) && BlocksPass(blocks, DataBlocks(mb))
  }

  /** No image is accepted that is too short: what is read past its end is zero and fails. */
  lemma AcceptedIsLongEnough(mb: nat, sb: Superblock, inodes: seq<Inode>, blocks: seq<Block>)
    requires 1 <= mb && Accepted(mb, sb, inodes, blocks)
    ensures InodeCount(mb) <= |inodes| && DataBlocks(mb) <= |blocks|
  {
    Sizes(mb);
    var n, m := InodeCount(mb), DataBlocks(mb);
    assert InodePasses(ReadInode(inodes, n - 1), n - 1, n);
    assert BlockPasses(GetBlock(blocks, m - 1), m - 1, m);
  }

  lemma NewInodePasses(i: nat, n: nat)
    requires i < n <= 0x7FFF_FFFF
    ensures InodePasses(NewInode(i, n), i, n)
  {
  }

  lemma NewBlockPasses(j: nat, m: nat)
    requires j < m <= 0x7FFF_FFFF
    ensures BlockPasses(NewBlock(j, m), j, m)
  {
    if j == 0 {
      var z, a, b := Zeros(BLOCKSIZE), EntryBytes(Entry(0, DOT)), EntryBytes(Entry(0, DOTDOT));
      EntryAfterSplice(z, 0, a, 0);
      EntryAfterSplice(Splice(z, 0, a), 1, b, 0);
      EntryAfterSplice(Splice(z, 0, a), 1, b, 1);
      EntryRoundTrip(Entry(0, DOT), a);
      EntryRoundTrip(Entry(0, DOTDOT), b);
    } else {
      WordAfterSplice(Zeros(BLOCKSIZE), 0, if j == m - 1 then -1 else j + 1, 0);
    }
  }

  /** What `write_disk` writes is accepted. */
  lemma WrittenIsAccepted(mb: nat)
    requires 1 <= mb <= MAX_MB
    ensures InodeCount(mb) <= 0x7FFF_FFFF && DataBlocks(mb) <= 0x7FFF_FFFF
    ensures AcceptedExactly(mb, SuperblockFor(mb), NewInodes(InodeCount(mb)), NewBlocks(DataBlocks(mb)))
  {
    Sizes(mb);
    var n, m := InodeCount(mb), DataBlocks(mb);
    forall i | 0 <= i < n ensures InodePasses(ReadInode(NewInodes(n), i), i, n) {
      NewInodePasses(i, n);
    }
    forall j | 0 <= j < m ensures BlockPasses(GetBlock(NewBlocks(m), j), j, m) {
      NewBlockPasses(j, m);
    }
  }

  // ---- the state after mounting ----

  /** Twenty free slots with zeroed inodes, as `setup` leaves them. */
  function EmptyTable(): seq<Slot> {
    seq(FILETABLESIZE, _ => Slot(true, ReadInode([], 0), 0, READ))
  }

  function Mounted(sb: Superblock, inodes: seq<Inode>, blocks: seq<Block>): State {
    State(sb, sb, inodes, blocks, EmptyTable(), 0)
  }

  /** The numbers n - 1, ..., 2, 1: a free list with 1 on top. */
  function Descending(n: nat): (r: seq<int>)
    requires n >= 1
    ensures |r| == n - 1 && forall d :: 0 <= d < |r| ==> r[d] == n - 1 - d
  {
    seq(n - 1, d => n - 1 - d)
  }

  ghost function FreshGhost(n: nat, m: nat): Ghost
    requires n >= 1 && m >= 1
  {
    Ghost(Descending(n), Descending(m),
          seq(n, i requires 0 <= i < n => if i == 0 then InUse else Idle(n - 1 - i)),
          seq(m, b requires 0 <= b < m => if b == 0 then By(0, 0) else Free(m - 1 - b)),
          seq(n, _ => 0), seq(n, _ => 0),
          seq(n, i => if i == 0 then [Entry(0, DOT), Entry(0, DOTDOT)] else []))
  }

  /** Accepted, and no longer than it should be. */
  ghost predicate AcceptedExactly(mb: nat, sb: Superblock, inodes: seq<Inode>, blocks: seq<Block>)
    requires 1 <= mb
  {
    Accepted(mb, sb, inodes, blocks) && |inodes| == InodeCount(mb) && |blocks| == DataBlocks(mb)
  }

  lemma AcceptedLists(mb: nat, sb: Superblock, inodes: seq<Inode>, blocks: seq<Block>)
    requires 1 <= mb <= MAX_MB && AcceptedExactly(mb, sb, inodes, blocks)
    ensures |inodes| >= 2 && |blocks| >= 2
    ensures var g := FreshGhost(|inodes|, |blocks|);
            && InodesOk(inodes, g.role) && FreeInodes(sb.freeInode, inodes, g.role, g.fi)
            && FreeBlocks(sb.freeBlock, blocks, g.own, g.fb)
  {
    Sizes(mb);
    var g := FreshGhost(|inodes|, |blocks|);
    forall i | 0 <= i < |inodes| ensures InodeOk(inodes[i], i, g.role[i]) && InodeListed(g.fi, g.role[i], i) {
      assert InodePasses(ReadInode(inodes, i), i, |inodes|);
    }
    forall d | 0 <= d < |g.fi| ensures IdleAt(g.fi, inodes, g.role, d) {
      assert InodePasses(ReadInode(inodes, g.fi[d]), g.fi[d], |inodes|);
    }
    assert InodePasses(ReadInode(inodes, 0), 0, |inodes|);
    forall d | 0 <= d < |g.fb| ensures FreeAt(g.fb, blocks, g.own, d) {
      assert BlockPasses(GetBlock(blocks, g.fb[d]), g.fb[d], |blocks|);
    }
    forall b | 0 <= b < |g.own| ensures BlockListed(g.fb, g.own[b], b) {
    }
  }

  lemma AcceptedOwners(mb: nat, sb: Superblock, inodes: seq<Inode>, blocks: seq<Block>)
    requires 1 <= mb <= MAX_MB && AcceptedExactly(mb, sb, inodes, blocks) && |inodes| >= 2 && |blocks| >= 2
    ensures var g := FreshGhost(|inodes|, |blocks|); Owners(inodes, g.role, g.own) && Lasts(inodes, g.role)
  {
    hide DirsMatch, Tree, BlocksPass, BlockPasses;
    var g := FreshGhost(|inodes|, |blocks|);
    assert InodePasses(ReadInode(inodes, 0), 0, |inodes|);
    assert Owned(inodes[0]) == 1;
    assert OwnsAt(inodes[0], g.own, 0, 0);
    assert OwnsAll(inodes[0], g.own, 0);
  }

  /** No inode has blocks beyond the direct ones. */
  lemma AcceptedDeeps(mb: nat, sb: Superblock, inodes: seq<Inode>, blocks: seq<Block>)
    requires 1 <= mb <= MAX_MB && AcceptedExactly(mb, sb, inodes, blocks) && |inodes| >= 2 && |blocks| >= 2
    ensures var g := FreshGhost(|inodes|, |blocks|); Deeps(inodes, blocks, g.role, g.own)
  {
    hide DirsMatch, Tree, BlocksPass, BlockPasses;
    var g := FreshGhost(|inodes|, |blocks|);
    assert InodePasses(ReadInode(inodes, 0), 0, |inodes|);
    assert DataCount(inodes[0]) == 1;
    assert DeepAll(inodes[0], blocks, g.own, 0);
  }

  lemma AcceptedRoot(mb: nat, sb: Superblock, inodes: seq<Inode>, blocks: seq<Block>)
    requires 1 <= mb <= MAX_MB && AcceptedExactly(mb, sb, inodes, blocks) && |inodes| >= 2 && |blocks| >= 2
    ensures var g := FreshGhost(|inodes|, |blocks|); DirsMatch(inodes, blocks, g.role, g.dirs)
  {
    hide EntryIn;
    var g := FreshGhost(|inodes|, |blocks|);
    assert InodePasses(ReadInode(inodes, 0), 0, |inodes|) && BlockPasses(GetBlock(blocks, 0), 0, |blocks|);
    assert Count(inodes[0]) == 2;
    assert EntriesMatch(inodes[0], blocks, g.dirs[0]);
  }

  lemma AcceptedTree(mb: nat, sb: Superblock, inodes: seq<Inode>, blocks: seq<Block>)
    requires 1 <= mb <= MAX_MB && AcceptedExactly(mb, sb, inodes, blocks) && |inodes| >= 2 && |blocks| >= 2
    ensures var g := FreshGhost(|inodes|, |blocks|);
            Tree(inodes, g.role, g.pos, g.rank, g.dirs)
  {
    assert InodePasses(ReadInode(inodes, 0), 0, |inodes|);
  }

  /** Every image that `test_disk` accepts is valid once mounted: only the root is allocated and the
      free lists are 1, 2, ... up to the last inode and the last block. */
  lemma AcceptedIsValid(mb: nat, sb: Superblock, inodes: seq<Inode>, blocks: seq<Block>)
    requires 1 <= mb <= MAX_MB && AcceptedExactly(mb, sb, inodes, blocks)
    ensures |inodes| >= 2 && |blocks| >= 2
    ensures Inv(Mounted(sb, inodes, blocks), FreshGhost(|inodes|, |blocks|))
    ensures LostSet(FreshGhost(|inodes|, |blocks|).own) == {}
  {
    hide InodesOk, FreeInodes, FreeBlocks, Owners, Deeps, Lasts, DirsMatch, Tree;
    AcceptedLists(mb, sb, inodes, blocks);
    AcceptedOwners(mb, sb, inodes, blocks);
    AcceptedDeeps(mb, sb, inodes, blocks);
    AcceptedRoot(mb, sb, inodes, blocks);
    AcceptedTree(mb, sb, inodes, blocks);
  }

  // ---- the program ----

  /** The file `disk`, written from front to back. */
  class Image {
    var sb: Superblock
    var inodes: seq<Inode>
    var blocks: seq<Block>

    /** An empty file. */
    constructor ()
      ensures inodes == [] && blocks == []
    {
      sb := Superblock(0, 0, 0, 0, 0, 0);
      inodes, blocks := [], [];
    }

    method WriteSuperblock(dataOffset: int32)
      modifies this`sb
      ensures SuperblockPasses(sb, dataOffset)
    {
      sb := Superblock(BLOCKSIZE, 0, dataOffset, 1, 1, 0);
    }

    method WriteInodeRegion(n: nat)
      requires n <= 0x7FFF_FFFF
      modifies this`inodes
      ensures inodes == old(inodes) + NewInodes(n)
    {
      for i := 0 to n
        invariant inodes == old(inodes) + NewInodes(n)[..i]
      {
        var node: Inode := Inode(-1, 0, 0, 0, 0, NO_BLOCKS, [0, 0, 0, 0], 0, 0, 0);
        if i == 0 {
          node := node.(parent := 0, dblocks := node.dblocks[0 := 0], next := -1);
          node := node.(size := 2 * ENTRYSIZE, kind := DIR, index := i, i2block := -1, i3block := -1, last := 0);
        } else {
          if i == n - 1 {
            node := node.(next := -1);
          } else {
            node := node.(next := i + 1);
          }
          node := node.(size := 0, kind := UNTYPED, index := i, i2block := -1, i3block := -1, last := -1);
        }
        assert node == NewInodes(n)[i];
        inodes := inodes + [node];
        assert NewInodes(n)[..i + 1] == NewInodes(n)[..i] + [node];
      }
    }

    method WriteDataRegion(m: nat)
      requires m <= 0x7FFF_FFFF
      modifies this`blocks
      ensures blocks == old(blocks) + NewBlocks(m)
    {
      for j := 0 to m
        invariant blocks == old(blocks) + NewBlocks(m)[..j]
      {
        var block: Block := Zeros(BLOCKSIZE);
        if j == 0 {
          block := DotEntries(block, 0, 0);
        } else if j == m - 1 {
          block := Splice(block, 0, WordBytes(-1));
        } else {
          block := Splice(block, 0, WordBytes(j + 1));
        }
        assert block == NewBlocks(m)[j];
        blocks := blocks + [block];
        assert NewBlocks(m)[..j + 1] == NewBlocks(m)[..j] + [block];
      }
    }

    /** `write_disk` on an empty file. */
    method WriteDisk(mb: nat)
      requires 1 <= mb <= MAX_MB && inodes == [] && blocks == []
      modifies this
      ensures sb == SuperblockFor(mb) && inodes == NewInodes(InodeCount(mb)) && blocks == NewBlocks(DataBlocks(mb))
      ensures AcceptedExactly(mb, sb, inodes, blocks)
    {
      Sizes(mb);
      WrittenIsAccepted(mb);
      WriteSuperblock(InodeBlocks(mb));
      WriteInodeRegion(InodeCount(mb));
      WriteDataRegion(DataBlocks(mb));
      assert inodes == NewInodes(InodeCount(mb)) && blocks == NewBlocks(DataBlocks(mb));
    }

    /** `check_inode_region`: whether no assertion fails. */
    method CheckInodeRegion() returns (ok: bool)
      requires 0 <= sb.dataOffset
      ensures ok <==> InodesPass(inodes, sb.dataOffset * BLOCKSIZE / INODE_BYTES)
    {
      var n := sb.dataOffset * BLOCKSIZE / INODE_BYTES;
      for i := 0 to n
        invariant forall k {:trigger InodePasses(ReadInode(inodes, k), k, n)} :: 0 <= k < i ==> InodePasses(ReadInode(inodes, k), k, n)
      {
        if !InodePasses(ReadInode(inodes, i), i, n) {
          return false;
        }
      }
      return true;
    }

    method CheckDataRegion(m: nat) returns (ok: bool)
      ensures ok <==> BlocksPass(blocks, m)
    {
      for j := 0 to m
        invariant forall k {:trigger BlockPasses(GetBlock(blocks, k), k, m)} :: 0 <= k < j ==> BlockPasses(GetBlock(blocks, k), k, m)
      {
        if !BlockPasses(GetBlock(blocks, j), j, m) {
          return false;
        }
      }
      return true;
    }

    /** `test_disk`: whether no assertion fails. */
    method TestDisk(mb: nat) returns (ok: bool)
      requires 1 <= mb <= MAX_MB
      ensures ok <==> Accepted(mb, sb, inodes, blocks)
    {
      if !SuperblockPasses(sb, InodeBlocks(mb)) {
        return false;
      }
      ok := CheckInodeRegion();
      if ok {
        ok := CheckDataRegion(DataBlocks(mb));
      }
    }
  }

  /** The state after formatting and mounting. */
  function FreshState(mb: nat): State
    requires 1 <= mb <= MAX_MB
  {
    Sizes(mb);
    Mounted(SuperblockFor(mb), NewInodes(InodeCount(mb)), NewBlocks(DataBlocks(mb)))
  }

  /** It is valid, with only the root allocated and every other inode and block free. */
  lemma FreshIsValid(mb: nat)
    requires 1 <= mb <= MAX_MB
    ensures InodeCount(mb) >= 2 && DataBlocks(mb) >= 2
    ensures Inv(FreshState(mb), FreshGhost(InodeCount(mb), DataBlocks(mb)))
    ensures LostSet(FreshGhost(InodeCount(mb), DataBlocks(mb)).own) == {}
  {
    Sizes(mb);
    WrittenIsAccepted(mb);
    AcceptedIsValid(mb, SuperblockFor(mb), NewInodes(InodeCount(mb)), NewBlocks(DataBlocks(mb)));
  }

  /** `format`: the image that has been written passes its own test. */
  method FormatDisk(mb: nat) returns (disk: Image, ok: bool)
    requires 1 <= mb <= MAX_MB
    ensures ok && fresh(disk)
    ensures Mounted(disk.sb, disk.inodes, disk.blocks) == FreshState(mb)
  {
    Sizes(mb);
    disk := new Image();
    disk.WriteDisk(mb);
    ok := disk.TestDisk(mb);
  }
}
