/** The image as one byte array: boot block, superblock, inodes packed without regard to block
    boundaries, data blocks. Storing a record there changes that record only. */
module Layout {
  import opened Bytes
  import opened BlockMap
  import opened Records
  import opened Format

  const FIRST_INODE := 1024
  const SUPERBLOCK_FIELDS := 24
  const INODE_WORDS := 29

  // ---- words ----

  function Pack(ws: seq<int32>): (r: seq<byte>)
    ensures |r| == 4 * |ws|
  {
    if ws == [] then [] else WordBytes(ws[0]) + Pack(ws[1..])
  }

  lemma {:induction false} PackedWord(ws: seq<int32>, k: nat)
    requires k < |ws|
    ensures WordAt(Pack(ws), 4 * k) == ws[k]
  {
    var q := Pack(ws);
    if k == 0 {
      assert q[0..4] == WordBytes(ws[0]);
      WordOfSlice(q, 0, 4, 0);
      WordRoundTrip(ws[0]);
    } else {
      PackedWord(ws[1..], k - 1);
      assert q[4..4 * |ws|] == Pack(ws[1..]);
      WordOfSlice(q, 4, 4 * |ws|, 4 * (k - 1));
    }
  }

  // ---- records ----

  /** The fields of an inode that the model does not use: disk identifier, owners, times, permission. */
  datatype Rest = Rest(disk: int32, uid: int32, gid: int32, ctime: int32, mtime: int32, atime: int32, permission: int32)

  predicate Storable(node: Inode) {
    -0x8000_0000 <= node.size < 0x8000_0000 && -0x8000_0000 <= node.kind < 0x8000_0000
  }

  /** The order of the fields in filesystem.h. */
  function InodeWords(node: Inode, rest: Rest): (r: seq<int32>)
    requires Storable(node)
    ensures |r| == INODE_WORDS
  {
    [rest.disk, node.parent, node.next, node.size, rest.uid, rest.gid, rest.ctime, rest.mtime, rest.atime,
     node.kind, rest.permission, node.index]
    + node.dblocks + node.iblocks + [node.i2block, node.i3block, node.last]
  }

  function EncodeInode(node: Inode, rest: Rest): (r: seq<byte>)
    requires Storable(node)
    ensures |r| == INODE_BYTES
  {
    Pack(InodeWords(node, rest))
  }

  function DecodeInode(q: seq<byte>): Inode
    requires |q| == INODE_BYTES
  {
    Inode(WordAt(q, 4), WordAt(q, 8), WordAt(q, 12), WordAt(q, 36), WordAt(q, 44),
          seq(N_DBLOCKS, j requires 0 <= j < N_DBLOCKS => WordAt(q, 48 + 4 * j)),
          seq(N_IBLOCKS, j requires 0 <= j < N_IBLOCKS => WordAt(q, 88 + 4 * j)),
          WordAt(q, 104), WordAt(q, 108), WordAt(q, 112))
  }

  /** An inode comes back from its bytes; and where each field lies in them, as filesystem.h has it. */
  lemma InodeRoundTrip(node: Inode, rest: Rest)
    requires Storable(node)
    ensures DecodeInode(EncodeInode(node, rest)) == node
    ensures var q := EncodeInode(node, rest);
            && WordAt(q, 4) == node.parent && WordAt(q, 8) == node.next && WordAt(q, 12) == node.size
            && WordAt(q, 36) == node.kind && WordAt(q, 44) == node.index
            && (forall j :: 0 <= j < N_DBLOCKS ==> WordAt(q, 48 + 4 * j) == node.dblocks[j])
            && (forall j :: 0 <= j < N_IBLOCKS ==> WordAt(q, 88 + 4 * j) == node.iblocks[j])
            && WordAt(q, 104) == node.i2block && WordAt(q, 108) == node.i3block && WordAt(q, 112) == node.last
  {
    hide WordAt;
    var ws, q := InodeWords(node, rest), EncodeInode(node, rest);
    forall k | 0 <= k < INODE_WORDS ensures WordAt(q, 4 * k) == ws[k] {
      PackedWord(ws, k);
    }
    var r := DecodeInode(q);
    forall j | 0 <= j < N_DBLOCKS ensures r.dblocks[j] == node.dblocks[j] {
      assert WordAt(q, 4 * (12 + j)) == ws[12 + j];
    }
    forall j | 0 <= j < N_IBLOCKS ensures r.iblocks[j] == node.iblocks[j] {
      assert WordAt(q, 4 * (22 + j)) == ws[22 + j];
    }
    assert WordAt(q, 4 * 1) == ws[1] && WordAt(q, 4 * 2) == ws[2] && WordAt(q, 4 * 3) == ws[3];
    assert WordAt(q, 4 * 9) == ws[9] && WordAt(q, 4 * 11) == ws[11];
    assert WordAt(q, 4 * 26) == ws[26] && WordAt(q, 4 * 27) == ws[27] && WordAt(q, 4 * 28) == ws[28];
  }

  function SuperblockWords(sb: Superblock): (r: seq<int32>)
    ensures |r| == 6
  {
    [sb.size, sb.inodeOffset, sb.dataOffset, sb.freeInode, sb.freeBlock, sb.rootDir]
  }

  function DecodeSuperblock(q: seq<byte>): Superblock
    requires |q| == SUPERBLOCK_FIELDS
  {
    Superblock(WordAt(q, 0), WordAt(q, 4), WordAt(q, 8), WordAt(q, 12), WordAt(q, 16), WordAt(q, 20))
  }

  lemma SuperblockRoundTrip(sb: Superblock)
    ensures DecodeSuperblock(Pack(SuperblockWords(sb))) == sb
    ensures var q := Pack(SuperblockWords(sb));
            && WordAt(q, 0) == sb.size && WordAt(q, 4) == sb.inodeOffset && WordAt(q, 8) == sb.dataOffset
            && WordAt(q, 12) == sb.freeInode && WordAt(q, 16) == sb.freeBlock && WordAt(q, 20) == sb.rootDir
  {
    hide WordAt;
    var ws := SuperblockWords(sb);
    PackedWord(ws, 0);
    PackedWord(ws, 1);
    PackedWord(ws, 2);
    PackedWord(ws, 3);
    PackedWord(ws, 4);
    PackedWord(ws, 5);
  }

  // ---- where records lie ----

  /** `get_inode` */
  function InodeReadAt(i: int): int { FIRST_INODE + i * INODE_BYTES }

  /** `update_single_inode_ondisk`, and `f_remove` for the removed inode */
  function InodeWriteAt(sb: Superblock, i: int): int { FIRST_INODE + sb.inodeOffset * BLOCKSIZE + i * INODE_BYTES }

  /** `get_data_block` */
  function BlockReadAt(sb: Superblock, b: int): int { FIRST_INODE + sb.dataOffset * BLOCKSIZE + b * BLOCKSIZE }

  /** `write_data_to_block` */
  function BlockWriteAt(sb: Superblock, b: int): int { FIRST_INODE + sb.size * (sb.dataOffset + b) }

  /** `f_remove` for directory and released blocks */
  function BlockRemoveAt(sb: Superblock, b: int): int { FIRST_INODE + sb.dataOffset * sb.size + b * BLOCKSIZE }

  /** Readers and writers agree on inodes exactly for `inode_offset` 0, on blocks exactly for
      `size` 512: the values `format` writes. */
  lemma FormulasCoincideExactly(sb: Superblock)
    requires 0 <= sb.dataOffset
    ensures (forall i: nat :: InodeReadAt(i) == InodeWriteAt(sb, i)) <==> sb.inodeOffset == 0
    ensures (forall b: nat :: BlockReadAt(sb, b) == BlockWriteAt(sb, b) == BlockRemoveAt(sb, b)) <==> sb.size == BLOCKSIZE
  {
    if forall i: nat :: InodeReadAt(i) == InodeWriteAt(sb, i) {
      assert InodeReadAt(0) == InodeWriteAt(sb, 0);
    }
    if forall b: nat :: BlockReadAt(sb, b) == BlockWriteAt(sb, b) == BlockRemoveAt(sb, b) {
      assert BlockWriteAt(sb, 1) == BlockRemoveAt(sb, 1);
      assert sb.size * (sb.dataOffset + 1) == sb.size * sb.dataOffset + sb.size;
    }
  }

  // ---- images ----

  function InodeOf(img: seq<byte>, i: nat): Inode
    requires InodeReadAt(i + 1) <= |img|
  {
    DecodeInode(img[InodeReadAt(i)..InodeReadAt(i + 1)])
  }

  function BlockOf(img: seq<byte>, sb: Superblock, b: nat): Block
    requires 0 <= sb.dataOffset && BlockReadAt(sb, b + 1) <= |img|
  {
    img[BlockReadAt(sb, b)..BlockReadAt(sb, b + 1)]
  }

  /** The regions fit the image, one behind the other. */
  predicate Fits(img: seq<byte>, sb: Superblock, inodes: nat, blocks: nat) {
    && sb.size == BLOCKSIZE && sb.inodeOffset == 0 && 0 <= sb.dataOffset
    && inodes * INODE_BYTES <= BLOCKSIZE * sb.dataOffset
    && |img| == BlockReadAt(sb, blocks)
  }

  /** The image holds this boot block, superblock, these inodes and these blocks. */
  ghost predicate Represents(img: seq<byte>, boot: seq<byte>, sb: Superblock, inodes: seq<Inode>, blocks: seq<Block>) {
    && Fits(img, sb, |inodes|, |blocks|)
    && img[..BOOT_BYTES] == boot
    && DecodeSuperblock(img[BOOT_BYTES..BOOT_BYTES + SUPERBLOCK_FIELDS]) == sb
    && (forall i {:trigger InodeOf(img, i)} :: 0 <= i < |inodes| ==> InodeOf(img, i) == inodes[i])
    && (forall b {:trigger BlockOf(img, sb, b)} :: 0 <= b < |blocks| ==> BlockOf(img, sb, b) == blocks[b])
  }

  /** A write does not change what lies elsewhere, and is read back where it was made. */
  lemma SliceAfterSplice(img: seq<byte>, at: nat, q: seq<byte>, lo: nat, hi: nat)
    requires at + |q| <= |img| && lo <= hi <= |img|
    ensures hi <= at || at + |q| <= lo ==> Splice(img, at, q)[lo..hi] == img[lo..hi]
    ensures lo <= at && at + |q| <= hi ==> Splice(img, at, q)[lo..hi] == Splice(img[lo..hi], at - lo, q)
    ensures lo == at && at + |q| == hi ==> Splice(img, at, q)[lo..hi] == q
  {
  }

  /** Storing inode i changes inode i and nothing else, wherever block boundaries fall. */
  lemma InodeStored(img: seq<byte>, boot: seq<byte>, sb: Superblock, inodes: seq<Inode>, blocks: seq<Block>, i: nat, node: Inode, rest: Rest)
    requires Represents(img, boot, sb, inodes, blocks) && i < |inodes| && Storable(node)
    ensures InodeWriteAt(sb, i) + INODE_BYTES <= |img|
    ensures Represents(Splice(img, InodeWriteAt(sb, i), EncodeInode(node, rest)), boot, sb, inodes[i := node], blocks)
  {
    hide DecodeInode, EncodeInode, DecodeSuperblock;
    var q, at := EncodeInode(node, rest), InodeWriteAt(sb, i);
    var img' := Splice(img, at, q);
    SliceAfterSplice(img, at, q, 0, BOOT_BYTES);
    SliceAfterSplice(img, at, q, BOOT_BYTES, BOOT_BYTES + SUPERBLOCK_FIELDS);
    InodeRoundTrip(node, rest);
    forall j | 0 <= j < |inodes| ensures InodeOf(img', j) == inodes[i := node][j] {
      SliceAfterSplice(img, at, q, InodeReadAt(j), InodeReadAt(j + 1));
      assert InodeOf(img, j) == inodes[j];
    }
    forall b | 0 <= b < |blocks| ensures BlockOf(img', sb, b) == blocks[b] {
      SliceAfterSplice(img, at, q, BlockReadAt(sb, b), BlockReadAt(sb, b + 1));
      assert BlockOf(img, sb, b) == blocks[b];
    }
  }

  lemma SameBlockPlace(sb: Superblock, b: int)
    requires sb.size == BLOCKSIZE
    ensures BlockWriteAt(sb, b) == BlockReadAt(sb, b)
  {
  }

  lemma FormattedSize(img: seq<byte>, boot: seq<byte>, sb: Superblock, inodes: seq<Inode>, blocks: seq<Block>, b: nat)
    requires Represents(img, boot, sb, inodes, blocks)
    ensures sb.size == BLOCKSIZE && 0 <= BlockWriteAt(sb, b)
  {
    SameBlockPlace(sb, b);
  }

  /** Storing bytes inside block b changes these bytes of block b and nothing else. */
  lemma BlockStored(img: seq<byte>, boot: seq<byte>, sb: Superblock, inodes: seq<Inode>, blocks: seq<Block>, b: nat, o: nat, q: seq<byte>)
    requires Represents(img, boot, sb, inodes, blocks) && b < |blocks| && o + |q| <= BLOCKSIZE
    ensures BlockWriteAt(sb, b) + o + |q| <= |img|
    ensures Represents(Splice(img, BlockWriteAt(sb, b) + o, q), boot, sb, inodes, blocks[b := Splice(blocks[b], o, q)])
  {
    hide DecodeInode, DecodeSuperblock, BlockWriteAt;
    SameBlockPlace(sb, b);
    var at := BlockReadAt(sb, b) + o;
    var img' := Splice(img, at, q);
    SliceAfterSplice(img, at, q, 0, BOOT_BYTES);
    SliceAfterSplice(img, at, q, BOOT_BYTES, BOOT_BYTES + SUPERBLOCK_FIELDS);
    forall j | 0 <= j < |inodes| ensures InodeOf(img', j) == inodes[j] {
      SliceAfterSplice(img, at, q, InodeReadAt(j), InodeReadAt(j + 1));
      assert InodeOf(img, j) == inodes[j];
    }
    forall c | 0 <= c < |blocks| ensures BlockOf(img', sb, c) == blocks[b := Splice(blocks[b], o, q)][c] {
      SliceAfterSplice(img, at, q, BlockReadAt(sb, c), BlockReadAt(sb, c + 1));
      assert BlockOf(img, sb, c) == blocks[c];
    }
  }

  /** Storing the superblock, with whatever bytes follow it in its 512, changes nothing else. */
  lemma SuperblockStored(img: seq<byte>, boot: seq<byte>, sb: Superblock, inodes: seq<Inode>, blocks: seq<Block>, now: Superblock, padding: seq<byte>)
    requires Represents(img, boot, sb, inodes, blocks) && |padding| == SUPERBLOCK_BYTES - SUPERBLOCK_FIELDS
    requires now.size == sb.size && now.inodeOffset == sb.inodeOffset && now.dataOffset == sb.dataOffset
    ensures BOOT_BYTES + SUPERBLOCK_BYTES <= |img|
    ensures Represents(Splice(img, BOOT_BYTES, Pack(SuperblockWords(now)) + padding), boot, now, inodes, blocks)
  {
    hide DecodeInode, DecodeSuperblock;
    var w := Pack(SuperblockWords(now));
    var q := w + padding;
    var img' := Splice(img, BOOT_BYTES, q);
    SliceAfterSplice(img, BOOT_BYTES, q, 0, BOOT_BYTES);
    assert img'[BOOT_BYTES..BOOT_BYTES + SUPERBLOCK_FIELDS] == w;
    SuperblockRoundTrip(now);
    forall j | 0 <= j < |inodes| ensures InodeOf(img', j) == inodes[j] {
      SliceAfterSplice(img, BOOT_BYTES, q, InodeReadAt(j), InodeReadAt(j + 1));
      assert InodeOf(img, j) == inodes[j];
    }
    forall b | 0 <= b < |blocks| ensures BlockOf(img', now, b) == blocks[b] {
      SliceAfterSplice(img, BOOT_BYTES, q, BlockReadAt(sb, b), BlockReadAt(sb, b + 1));
      assert BlockOf(img, sb, b) == blocks[b];
    }
  }

  /** The superblock that `format` writes describes the image it writes: the regions lie one behind the
      other and fill it, and the inode region holds all inodes and has no room for one more. */
  lemma FormattedFits(img: seq<byte>, mb: nat)
    requires 1 <= mb <= MAX_MB
    ensures var sb := SuperblockFor(mb);
            && (Fits(img, sb, InodeCount(mb), DataBlocks(mb)) <==>
                  |img| == BOOT_BYTES + SUPERBLOCK_BYTES + BLOCKSIZE * (InodeBlocks(mb) + DataBlocks(mb)))
            && TotalInodes(sb) == InodeCount(mb)
            && sb.freeInode == 1 && sb.freeBlock == 1 && sb.rootDir == 0
  {
    Sizes(mb);
  }

  // ---- the bound on inode numbers ----

  /** `total_inode_num` */
  function TotalInodes(sb: Superblock): int {
    (sb.dataOffset - sb.inodeOffset) * sb.size / INODE_BYTES
  }

  /** The test of line 1864. */
  predicate BoundPasses(sb: Superblock, i: int) { !(i > TotalInodes(sb)) }

  /** An inode number that passes the test lies inside the inode region exactly when it is not the
      number of inodes itself. */
  lemma BoundIsOneTooMany(sb: Superblock, i: nat)
    requires sb.size == BLOCKSIZE && sb.inodeOffset == 0 && 0 <= sb.dataOffset && BoundPasses(sb, i)
    ensures InodeWriteAt(sb, i) + INODE_BYTES <= FIRST_INODE + BLOCKSIZE * sb.dataOffset <==> i != TotalInodes(sb)
  {
  }

  /** The first data block after inode number n has been written: what does not fit in front of it. */
  function Overrun(sb: Superblock, n: nat, block: Block, node: Inode, rest: Rest): Block
    requires Storable(node) && 0 <= BLOCKSIZE * sb.dataOffset - n * INODE_BYTES < INODE_BYTES
  {
    var slack := BLOCKSIZE * sb.dataOffset - n * INODE_BYTES;
    EncodeInode(node, rest)[slack..] + block[INODE_BYTES - slack..]
  }

  /** Line 1864 lets inode number n through although inodes are numbered up to n - 1: the write
      begins in the slack of the inode region and ends in the first data block. */
  lemma OneInodeTooMany(img: seq<byte>, boot: seq<byte>, sb: Superblock, inodes: seq<Inode>, blocks: seq<Block>, node: Inode, rest: Rest)
    requires Represents(img, boot, sb, inodes, blocks) && |inodes| == TotalInodes(sb) && |blocks| > 0 && Storable(node)
    ensures var n := |inodes|;
            var slack := BLOCKSIZE * sb.dataOffset - n * INODE_BYTES;
            && 0 <= slack < INODE_BYTES
            && InodeWriteAt(sb, n) + INODE_BYTES <= |img|
            && Overrun(sb, n, blocks[0], node, rest) == EncodeInode(node, rest)[slack..] + blocks[0][INODE_BYTES - slack..]
            && Represents(Splice(img, InodeWriteAt(sb, n), EncodeInode(node, rest)), boot, sb, inodes, blocks[0 := Overrun(sb, n, blocks[0], node, rest)])
  {
    hide EncodeInode, DecodeInode, DecodeSuperblock;
    var n := |inodes|;
    var slack := BLOCKSIZE * sb.dataOffset - n * INODE_BYTES;
    var q, at := EncodeInode(node, rest), InodeWriteAt(sb, n);
    var img' := Splice(img, at, q);
    assert BlockOf(img, sb, 0) == blocks[0];
    assert BlockOf(img', sb, 0) == q[slack..] + blocks[0][INODE_BYTES - slack..];
    SliceAfterSplice(img, at, q, 0, BOOT_BYTES);
    SliceAfterSplice(img, at, q, BOOT_BYTES, BOOT_BYTES + SUPERBLOCK_FIELDS);
    forall j | 0 <= j < n ensures InodeOf(img', j) == inodes[j] {
      SliceAfterSplice(img, at, q, InodeReadAt(j), InodeReadAt(j + 1));
      assert InodeOf(img, j) == inodes[j];
    }
    forall b | 1 <= b < |blocks| ensures BlockOf(img', sb, b) == blocks[b] {
      SliceAfterSplice(img, at, q, BlockReadAt(sb, b), BlockReadAt(sb, b + 1));
      assert BlockOf(img, sb, b) == blocks[b];
    }
  }

  /** On a disk of one megabyte that write leaves the `last_block_index` of the inode where the
      root directory's "." has its inode number. */
  lemma OneMegabyteOverrun(img: seq<byte>, boot: seq<byte>, sb: Superblock, inodes: seq<Inode>, blocks: seq<Block>, node: Inode, rest: Rest)
    requires Represents(img, boot, sb, inodes, blocks) && |blocks| > 0 && Storable(node)
    requires sb.dataOffset == InodeBlocks(1) && |inodes| == InodeCount(1)
    ensures InodeWriteAt(sb, |inodes|) + INODE_BYTES <= |img|
    ensures EntryIn(BlockOf(Splice(img, InodeWriteAt(sb, |inodes|), EncodeInode(node, rest)), sb, 0), 0).inode == node.last
  {
    hide EncodeInode, DecodeInode, DecodeSuperblock, EntryIn, Splice, Represents, BlockOf, Overrun;
    SlackOfOneMegabyte(img, boot, sb, inodes, blocks);
    OneInodeTooMany(img, boot, sb, inodes, blocks, node, rest);
    BlockRepresented(Splice(img, InodeWriteAt(sb, |inodes|), EncodeInode(node, rest)), boot, sb, inodes,
                     blocks[0 := Overrun(sb, |inodes|, blocks[0], node, rest)]);
    OverrunEntry(EncodeInode(node, rest), blocks[0]);
    LastWord(node, rest);
  }

  lemma SlackOfOneMegabyte(img: seq<byte>, boot: seq<byte>, sb: Superblock, inodes: seq<Inode>, blocks: seq<Block>)
    requires Represents(img, boot, sb, inodes, blocks) && sb.dataOffset == InodeBlocks(1) && |inodes| == InodeCount(1)
    ensures |inodes| == TotalInodes(sb) && BLOCKSIZE * sb.dataOffset - |inodes| * INODE_BYTES == 112
    ensures sb.inodeOffset == 0
  {
  }

  lemma BlockRepresented(img: seq<byte>, boot: seq<byte>, sb: Superblock, inodes: seq<Inode>, blocks: seq<Block>)
    requires Represents(img, boot, sb, inodes, blocks) && |blocks| > 0
    ensures 0 <= sb.dataOffset && BlockReadAt(sb, 1) <= |img| && BlockOf(img, sb, 0) == blocks[0]
  {
  }

  lemma LastWord(node: Inode, rest: Rest)
    requires Storable(node)
    ensures WordAt(EncodeInode(node, rest), 112) == node.last
  {
    PackedWord(InodeWords(node, rest), 28);
  }

  lemma OverrunEntry(q: seq<byte>, block: Block)
    requires |q| == INODE_BYTES
    ensures EntryIn(q[112..] + block[4..], 0).inode == WordAt(q, 112)
  {
    hide WordAt;
    var x := q[112..] + block[4..];
    assert x[0..4] == q[112..116];
    WordOfSlice(q, 112, 116, 0);
    WordOfSlice(x, 0, 4, 0);
    WordOfSlice(x, 0, ENTRYSIZE, 0);
  }

  // ---- the file ----

  /** The open disk image. */
  class DiskFile {
    const bytes: array<byte>

    constructor (size: nat)
      ensures fresh(bytes) && bytes.Length == size
    {
      bytes := new byte[size](_ => 0);
    }

    /** `fseek` and `fwrite` inside the image. */
    method WriteAt(at: nat, data: seq<byte>)
      requires at + |data| <= bytes.Length
      modifies bytes
      ensures bytes[..] == Splice(old(bytes[..]), at, data)
    {
      for i := 0 to |data|
        invariant bytes[..] == Splice(old(bytes[..]), at, data[..i])
      {
        bytes[at + i] := data[i];
      }
      assert data[..|data|] == data;
    }

    /** `fseek` and `fread` inside the image. */
    method ReadAt(at: nat, size: nat) returns (data: seq<byte>)
      requires at + size <= bytes.Length
      ensures data == bytes[at..at + size]
    {
      data := [];
      for i := 0 to size
        invariant data == bytes[at..at + i]
      {
        data := data + [bytes[at + i]];
      }
    }

    /** `get_inode` */
    method GetInode(boot: seq<byte>, sb: Superblock, ghost inodes: seq<Inode>, ghost blocks: seq<Block>, i: nat) returns (node: Inode)
      requires Represents(bytes[..], boot, sb, inodes, blocks) && i < |inodes|
      ensures node == inodes[i]
    {
      assert InodeOf(bytes[..], i) == inodes[i];
      var q := ReadAt(InodeReadAt(i), INODE_BYTES);
      node := DecodeInode(q);
      assert q == bytes[..][InodeReadAt(i)..InodeReadAt(i + 1)];
    }

    /** `update_single_inode_ondisk`: a number the test lets through is that of an inode, or the number of
        inodes, and then the first data block is overrun. */
    method UpdateInode(boot: seq<byte>, sb: Superblock, ghost inodes: seq<Inode>, ghost blocks: seq<Block>, i: nat, node: Inode, rest: Rest)
      returns (ok: bool)
      requires Represents(bytes[..], boot, sb, inodes, blocks) && |inodes| == TotalInodes(sb) && |blocks| > 0 && Storable(node)
      modifies bytes
      ensures ok <==> BoundPasses(sb, i)
      ensures 0 <= BLOCKSIZE * sb.dataOffset - |inodes| * INODE_BYTES < INODE_BYTES
      ensures Represents(bytes[..], boot, sb,
                         if ok && i < |inodes| then inodes[i := node] else inodes,
                         if ok && i == |inodes| then blocks[0 := Overrun(sb, i, blocks[0], node, rest)] else blocks)
    {
      if !BoundPasses(sb, i) {
        return false;
      }
      if i < |inodes| {
        InodeStored(bytes[..], boot, sb, inodes, blocks, i, node, rest);
      } else {
        OneInodeTooMany(bytes[..], boot, sb, inodes, blocks, node, rest);
      }
      WriteAt(InodeWriteAt(sb, i), EncodeInode(node, rest));
      return true;
    }

    /** `get_data_block` */
    method GetDataBlock(boot: seq<byte>, sb: Superblock, ghost inodes: seq<Inode>, ghost blocks: seq<Block>, b: nat) returns (block: Block)
      requires Represents(bytes[..], boot, sb, inodes, blocks) && b < |blocks|
      ensures block == blocks[b]
    {
      assert BlockOf(bytes[..], sb, b) == blocks[b];
      block := ReadAt(BlockReadAt(sb, b), BLOCKSIZE);
      assert block == bytes[..][BlockReadAt(sb, b)..BlockReadAt(sb, b + 1)];
    }

    /** `write_data_to_block` */
    method WriteDataToBlock(boot: seq<byte>, sb: Superblock, ghost inodes: seq<Inode>, ghost blocks: seq<Block>, b: nat, content: seq<byte>)
      returns (ok: bool)
      requires Represents(bytes[..], boot, sb, inodes, blocks) && b < |blocks|
      modifies bytes
      ensures ok <==> |content| <= BLOCKSIZE
      ensures Represents(bytes[..], boot, sb, inodes, if ok then blocks[b := Splice(blocks[b], 0, content)] else blocks)
    {
      hide Represents, BlockWriteAt, Splice;
      FormattedSize(bytes[..], boot, sb, inodes, blocks, b);
      if |content| > sb.size {
        return false;
      }
      BlockStored(bytes[..], boot, sb, inodes, blocks, b, 0, content);
      WriteAt(BlockWriteAt(sb, b), content);
      return true;
    }

    /** `update_superblock_ondisk`; what follows the 24 bytes comes from beyond an int on the stack. */
    method UpdateSuperblock(boot: seq<byte>, sb: Superblock, ghost inodes: seq<Inode>, ghost blocks: seq<Block>, now: Superblock, padding: seq<byte>)
      requires Represents(bytes[..], boot, sb, inodes, blocks) && |padding| == SUPERBLOCK_BYTES - SUPERBLOCK_FIELDS
      requires now.size == sb.size && now.inodeOffset == sb.inodeOffset && now.dataOffset == sb.dataOffset
      modifies bytes
      ensures Represents(bytes[..], boot, now, inodes, blocks)
    {
      SuperblockStored(bytes[..], boot, sb, inodes, blocks, now, padding);
      WriteAt(BOOT_BYTES, Pack(SuperblockWords(now)) + padding);
    }
  }
}
