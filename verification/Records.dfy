/** The records of the file system and what can be read off them: superblock, inode,
    directory entry, open-file slot, and the whole mounted state as one value. */
module Records {
  import opened Bytes
  import opened BlockMap

  const BLOCKSIZE := 512
  const ENTRYSIZE := 64
  const ENTRIES_PER_BLOCK := 8
  const FILENAMEMAX := 60
  const FILETABLESIZE := 20
  const DIR := 0
  const REG := 1
  const UNTYPED := -1
  /** A file that uses direct pointers only; also the 80-entry limit of a directory. */
  const DIRECT_LIMIT := 5120

  const DOT: seq<byte> := [46]
  const DOTDOT: seq<byte> := [46, 46]

  type Block = b: seq<byte> | |b| == BLOCKSIZE witness seq(BLOCKSIZE, _ => 0)

  datatype Superblock = Superblock(size: int32, inodeOffset: int32, dataOffset: int32,
                                   freeInode: int32, freeBlock: int32, rootDir: int32)

  datatype RawInode = Inode(parent: int32, next: int32, size: int, kind: int32, index: int32,
                            dblocks: seq<int32>, iblocks: seq<int32>, i2block: int32, i3block: int32, last: int32)

  type Inode = n: RawInode | |n.dblocks| == N_DBLOCKS && |n.iblocks| == N_IBLOCKS
    witness Inode(0, 0, 0, 0, 0, [0, 0, 0, 0, 0, 0, 0, 0, 0, 0], [0, 0, 0, 0], 0, 0, 0)

  datatype Entry = Entry(inode: int32, name: seq<byte>)

  datatype Access = READ | WRITE | READANDWRITE | APPEND

  datatype Slot = Slot(free: bool, node: Inode, offset: int, access: Access)

  datatype Option<+T> = None | Some(value: T)

  /** The mounted disk and the open-file table. `sb` is the superblock in memory,
      `dsb` the one on disk. */
  datatype State = State(sb: Superblock, dsb: Superblock, inodes: seq<Inode>, blocks: seq<Block>,
                         table: seq<Slot>, freehead: int)

  // ---- blocks ----

  /** `get_data_block`: a seek past the image leaves the zeroed buffer unread. */
  function GetBlock(blocks: seq<Block>, b: int): Block {
    if 0 <= b < |blocks| then blocks[b] else Zeros(BLOCKSIZE)
  }

  /** The k-th int of a block. */
  function Word(b: Block, k: nat): int32
    requires k < FANOUT
  {
    WordAt(b, 4 * k)
  }

  /** `next_free_block`, the first int of a free block. */
  function Link(b: Block): int32 { WordAt(b, 0) }

  /** `get_block_from_index`: the data-region number of the block at the end of a path. */
  function BlockAtPath(blocks: seq<Block>, node: Inode, p: Path): int32
    requires p.InRange()
  {
    match p
    case Direct(i) => node.dblocks[i]
    case Single(i, a) => Word(GetBlock(blocks, node.iblocks[i]), a)
    case Double(i, a) => Word(GetBlock(blocks, Word(GetBlock(blocks, node.i2block), i)), a)
    case Triple(d, i, a) => Word(GetBlock(blocks, Word(GetBlock(blocks, Word(GetBlock(blocks, node.i3block), d)), i)), a)
  }

  /** The b-th block of a file, as the reader finds it. */
  function Mapped(blocks: seq<Block>, node: Inode, b: nat): int32
    requires b < TRIPLE_BROKEN
  {
    PathInRangeExactly(b);
    BlockAtPath(blocks, node, PathOf(b))
  }

  // ---- directory entries ----

  predicate NameOk(name: seq<byte>) {
    0 < |name| < FILENAMEMAX && 0 !in name
  }

  /** The 64 bytes of an entry that was zeroed and then filled with `strcpy`. */
  function EntryBytes(e: Entry): (r: seq<byte>)
    requires |e.name| < FILENAMEMAX
    ensures |r| == ENTRYSIZE
  {
    WordBytes(e.inode) + e.name + Zeros(FILENAMEMAX - |e.name|)
  }

  /** `strcpy` over an entry that held another name: bytes after the NUL stay. */
  function OverwriteEntry(was: seq<byte>, e: Entry): (r: seq<byte>)
    requires |was| == ENTRYSIZE
    requires |e.name| < FILENAMEMAX
    ensures |r| == ENTRYSIZE
  {
    WordBytes(e.inode) + e.name + [0] + was[5 + |e.name|..]
  }

  function DecodeEntry(q: seq<byte>): Entry
    requires |q| == ENTRYSIZE
  {
    Entry(WordAt(q, 0), CString(q[4..]))
  }

  function EntryIn(b: Block, k: nat): Entry
    requires k < ENTRIES_PER_BLOCK
  {
    DecodeEntry(b[ENTRYSIZE * k..ENTRYSIZE * k + ENTRYSIZE])
  }

  lemma DecodeHead(e: Entry, rest: seq<byte>)
    requires 0 !in e.name
    requires |e.name| + |rest| == FILENAMEMAX - 1
    ensures DecodeEntry(WordBytes(e.inode) + e.name + [0] + rest) == e
  {
    var q := WordBytes(e.inode) + e.name + [0] + rest;
    WordOfSlice(q, 0, 4, 0);
    assert q[0..4] == WordBytes(e.inode);
    WordRoundTrip(e.inode);
    assert q[4..] == e.name + [0] + rest;
    CStringOfTerminated(e.name, rest);
  }

  /** Both ways the code stores an entry decode to that entry. */
  lemma EntryRoundTrip(e: Entry, was: seq<byte>)
    requires |e.name| < FILENAMEMAX && 0 !in e.name
    requires |was| == ENTRYSIZE
    ensures DecodeEntry(EntryBytes(e)) == e
    ensures DecodeEntry(OverwriteEntry(was, e)) == e
  {
    var n := FILENAMEMAX - |e.name|;
    assert EntryBytes(e) == WordBytes(e.inode) + e.name + [0] + Zeros(n)[1..];
    DecodeHead(e, Zeros(n)[1..]);
    DecodeHead(e, was[5 + |e.name|..]);
  }

  lemma EntryAfterSplice(b: Block, j: nat, q: seq<byte>, k: nat)
    requires j < ENTRIES_PER_BLOCK && k < ENTRIES_PER_BLOCK && |q| == ENTRYSIZE
    ensures EntryIn(Splice(b, ENTRYSIZE * j, q), k) == if k == j then DecodeEntry(q) else EntryIn(b, k)
  {
    var r := Splice(b, ENTRYSIZE * j, q);
    if k == j {
      assert r[ENTRYSIZE * k..ENTRYSIZE * k + ENTRYSIZE] == q;
    } else {
      assert r[ENTRYSIZE * k..ENTRYSIZE * k + ENTRYSIZE] == b[ENTRYSIZE * k..ENTRYSIZE * k + ENTRYSIZE];
    }
  }

  /** The number of whole entries in a directory. */
  function Count(node: Inode): int { node.size / ENTRYSIZE }

  /** Where entry k of a directory lies. */
  lemma EntryPlace(size: nat)
    requires size % ENTRYSIZE == 0
    ensures size % BLOCKSIZE == ENTRYSIZE * (size / ENTRYSIZE % ENTRIES_PER_BLOCK)
    ensures size / BLOCKSIZE == size / ENTRYSIZE / ENTRIES_PER_BLOCK
    ensures size % BLOCKSIZE + ENTRYSIZE <= BLOCKSIZE
  {
    var c := size / ENTRYSIZE;
    var q, r := c / ENTRIES_PER_BLOCK, c % ENTRIES_PER_BLOCK;
    assert size == ENTRYSIZE * c;
    assert c == ENTRIES_PER_BLOCK * q + r && r <= ENTRIES_PER_BLOCK - 1;
    BlockDigits(q, ENTRYSIZE * r);
    assert size == BLOCKSIZE * q + ENTRYSIZE * r;
  }

  /** A byte offset is a block number and an offset in that block. */
  lemma BlockDigits(q: nat, r: nat)
    requires r < BLOCKSIZE
    ensures (BLOCKSIZE * q + r) / BLOCKSIZE == q && (BLOCKSIZE * q + r) % BLOCKSIZE == r
  {
  }

  /** An entry stored where the code stores it. */
  lemma EntryStored(b: Block, j: nat, e: Entry, k: nat)
    requires j < ENTRIES_PER_BLOCK && k < ENTRIES_PER_BLOCK && NameOk(e.name)
    ensures EntryIn(Splice(b, ENTRYSIZE * j, EntryBytes(e)), k) == if k == j then e else EntryIn(b, k)
  {
    EntryAfterSplice(b, j, EntryBytes(e), k);
    EntryRoundTrip(e, EntryBytes(e));
  }

  predicate SizeOk(node: Inode) { 0 <= node.size <= DIRECT_LIMIT }

  /** The largest file that the pointers of an inode can lead to. */
  const MAX_SIZE := BLOCKSIZE * MAX_BLOCKS

  predicate FileSizeOk(node: Inode) { 0 <= node.size <= MAX_SIZE }

  /** The number of blocks that z bytes fill. */
  function BlocksFor(z: nat): nat { (z + BLOCKSIZE - 1) / BLOCKSIZE }

  /** The k-th entry of a directory, read through its direct pointers. */
  function DirEntry(blocks: seq<Block>, node: Inode, k: nat): Entry
    requires SizeOk(node) && k < Count(node)
  {
    EntryIn(GetBlock(blocks, node.dblocks[k / ENTRIES_PER_BLOCK]), k % ENTRIES_PER_BLOCK)
  }

  /** All entries of a directory in order. */
  function Entries(blocks: seq<Block>, node: Inode): (r: seq<Entry>)
    requires SizeOk(node)
    ensures |r| == Count(node)
    ensures forall k :: 0 <= k < |r| ==> r[k] == DirEntry(blocks, node, k)
  {
    seq(Count(node), k requires 0 <= k < Count(node) => DirEntry(blocks, node, k))
  }

  /** The index of the first entry at or after k with this name, or |es|. */
  function FirstNamed(es: seq<Entry>, k: nat, name: seq<byte>): (r: nat)
    requires k <= |es|
    ensures k <= r <= |es|
    ensures forall j :: k <= j < r ==> es[j].name != name
    ensures r < |es| ==> es[r].name == name
    decreases |es| - k
  {
    if k == |es| || es[k].name == name then k else FirstNamed(es, k + 1, name)
  }

  // ---- the open-file table ----

  /** `find_next_freehead` */
  function FirstFree(table: seq<Slot>): (r: int)
    ensures -1 <= r < |table|
    ensures r >= 0 ==> table[r].free && forall j :: 0 <= j < r ==> !table[j].free
    ensures r == -1 ==> forall j :: 0 <= j < |table| ==> !table[j].free
  {
    FirstFreeFrom(table, 0)
  }

  function FirstFreeFrom(table: seq<Slot>, i: nat): (r: int)
    requires i <= |table|
    requires forall j :: 0 <= j < i ==> !table[j].free
    ensures -1 <= r < |table|
    ensures r >= 0 ==> table[r].free && forall j :: 0 <= j < r ==> !table[j].free
    ensures r == -1 ==> forall j :: 0 <= j < |table| ==> !table[j].free
    decreases |table| - i
  {
    if i == |table| then -1 else if table[i].free then i else FirstFreeFrom(table, i + 1)
  }

  /** `get_fd_from_inode_value` and `already_in_table`: the first open slot of an inode. */
  function SlotOf(table: seq<Slot>, index: int): (r: int)
    ensures -1 <= r < |table|
    ensures r >= 0 ==> !table[r].free && table[r].node.index == index
    ensures r == -1 ==> forall j :: 0 <= j < |table| && !table[j].free ==> table[j].node.index != index
  {
    SlotOfFrom(table, index, 0)
  }

  function SlotOfFrom(table: seq<Slot>, index: int, i: nat): (r: int)
    requires i <= |table|
    requires forall j :: 0 <= j < i && !table[j].free ==> table[j].node.index != index
    ensures -1 <= r < |table|
    ensures r >= 0 ==> !table[r].free && table[r].node.index == index
    ensures r == -1 ==> forall j :: 0 <= j < |table| && !table[j].free ==> table[j].node.index != index
    decreases |table| - i
  {
    if i == |table| then -1
    else if !table[i].free && table[i].node.index == index then i
    else SlotOfFrom(table, index, i + 1)
  }
}
