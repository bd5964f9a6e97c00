/** `f_write` and `f_read` in the form their own comments and callers expect, for files of every size
    that the pointers of an inode can lead to, and the byte-string law that this form keeps without
    exception.

    Changed in `f_write`: the block number and the offset follow the place of the data also for
    APPEND (lines 455-458, 476, 536); a block is requested only when the file has none there yet
    (1252), and installed with its index blocks as in `InstallIntended`; the block written starts
    from its old content and not from the tail block with zeros behind (494-501); the size becomes
    the larger of the old size and the end of the data (513, 518). Changed in `f_read`: the last byte
    of a block is read (1217), the offset in the block starts over with the next block, every pass
    reads `size` bytes and goes on where the last one ended (1211-1236), the offset of the file
    advances, and the index of line 1397 is reduced modulo 128. */
module Intended {
  import opened Bytes
  import opened BlockMap
  import opened Records
  import opened FileTree
  import opened Operations
  import opened Invariant
  import opened Transfer
  import opened Calls
  import opened WriteSteps
  import opened InstallIntended
  import Roles
  import Removal

  // ---- contents ----

  /** The data and the file stay within what the pointers can lead to. */
  predicate WithinTree(slot: Slot, length: nat) {
    FileSizeOk(slot.node) && 0 <= slot.offset && Place(slot) + length <= MAX_SIZE
  }

  /** Byte q of a file, found along the repaired path of its block. */
  function FileByte(blocks: seq<Block>, node: Inode, q: nat): byte
    requires q < MAX_SIZE
  {
    GetBlock(blocks, DataBlock(blocks, node, q / BLOCKSIZE))[q % BLOCKSIZE]
  }

  function Contents(blocks: seq<Block>, node: Inode): (r: seq<byte>)
    requires FileSizeOk(node)
    ensures |r| == node.size && forall q :: 0 <= q < |r| ==> r[q] == FileByte(blocks, node, q)
  {
    seq(node.size, q requires 0 <= q < node.size => FileByte(blocks, node, q))
  }

  /** For a file of direct blocks they are what `f_write` and `f_read` as written speak of. */
  lemma ContentsAreBytes(blocks: seq<Block>, node: Inode)
    requires SizeOk(node)
    ensures Contents(blocks, node) == FileBytes(blocks, node)
  {
    forall q | 0 <= q < node.size ensures FileByte(blocks, node, q) == ByteAt(blocks, node, q) {
      RepairedPathIsBijection(q / BLOCKSIZE, Direct(0));
    }
  }

  // ---- f_write ----

  /** How much of the data goes into the block of position `at`. */
  function Part(at: nat, length: nat): nat { Min(length, BLOCKSIZE - at % BLOCKSIZE) }

  /** Bytes that stay inside one block are written at a position of the open file. */
  function PutBytes(s: State, fd: nat, at: nat, bytes: seq<byte>): (t: State)
    requires fd < |s.table| && at % BLOCKSIZE + |bytes| <= BLOCKSIZE && at < MAX_SIZE
    ensures |t.table| == |s.table|
  {
    var slot := s.table[fd];
    var k := at / BLOCKSIZE;
    var s1 := if k >= DataCount(slot.node) then InstallNext(s, fd, k) else s;
    var b := DataBlock(s1.blocks, s1.table[fd].node, k);
    var s2 := SaveBlock(s1, b, Splice(GetBlock(s1.blocks, b), at % BLOCKSIZE, bytes));
    var s3 := SetSlot(s2, fd, s2.table[fd].(offset := at + |bytes|));
    SaveOpenInode(s3, fd, s3.table[fd].node.(size := Max(slot.node.size, at + |bytes|), last := b))
  }

  /** Block after block. */
  function PutAll(s: State, fd: nat, at: nat, data: seq<byte>): (t: State)
    requires fd < |s.table| && at + |data| <= MAX_SIZE
    ensures |t.table| == |s.table|
    decreases |data|
  {
    if data == [] then s
    else
      var c := Part(at, |data|);
      PutAll(PutBytes(s, fd, at, data[..c]), fd, at + c, data[c..])
  }

  /** `f_write` as intended: new state and return value. */
  function IntendedWrite(s: State, fd: nat, data: seq<byte>): (State, int)
    requires fd < |s.table| && WithinTree(s.table[fd], |data|)
  {
    var at := Place(s.table[fd]);
    var t := PutAll(s, fd, at, data);
    (SetSlot(t, fd, t.table[fd].(offset := at + |data|)), |data|)
  }

  /** `f_write` with its tests, as written or as intended. */
  function WriteIn(s: State, v: Variant, fd: int, data: seq<byte>): (State, int)
    requires ValidFd(fd) && |s.table| == FILETABLESIZE
    requires var slot := s.table[fd];
             !slot.free && slot.access != READ && slot.node.kind == REG ==>
               if v.AsWritten? then WithinDirect(slot, |data|) else WithinTree(slot, |data|)
  {
    var slot := s.table[fd];
    if v.AsWritten? || slot.free || slot.access == READ || slot.node.kind != REG then WriteCall(s, fd, data)
    else IntendedWrite(s, fd, data)
  }

  // ---- one block ----

  /** The number of blocks, index blocks included, that a file of this size has. */
  function BlocksWith(size: nat): nat
    requires size <= MAX_SIZE
  {
    |Nodes(if size == 0 then 1 else BlocksFor(size))|
  }

  /** A block that the file has or takes next. */
  ghost predicate CanPut(s: State, g: Ghost, fd: nat, at: nat, bytes: seq<byte>) {
    && OpenReg(s, g, fd) && bytes != [] && at % BLOCKSIZE + |bytes| <= BLOCKSIZE && at + |bytes| <= MAX_SIZE
    && at <= s.table[fd].node.size
    && (at / BLOCKSIZE >= DataCount(s.table[fd].node) ==> |NewNodes(at / BLOCKSIZE)| <= |g.fb|)
  }

  lemma Aligned(n: nat, c: nat)
    requires 1 <= n && c <= BLOCKSIZE
    ensures BlocksFor(BLOCKSIZE * (n - 1) + c) == if c == 0 then n - 1 else n
  {
  }

  lemma Monotone(y: nat, z: nat)
    requires y <= z
    ensures BlocksFor(y) <= BlocksFor(z)
  {
  }

  /** The block numbers around the place. */
  lemma PutNumbers(sz: nat, at: nat, c: nat)
    requires at <= sz && 0 < c && at % BLOCKSIZE + c <= BLOCKSIZE
    ensures var k := at / BLOCKSIZE;
            var m := if sz == 0 then 1 else BlocksFor(sz);
            var m' := BlocksFor(Max(sz, at + c));
            && (k < m ==> m' == m) && (k >= m ==> k == m && m' == m + 1)
            && k < m'
  {
    var k, o := at / BLOCKSIZE, at % BLOCKSIZE;
    assert at == BLOCKSIZE * k + o;
    Aligned(k + 1, o + c);
    Aligned(k + 1, o);
    if at < sz {
      Monotone(at + 1, sz);
      Aligned(k + 1, o + 1);
      Monotone(at + c, Max(sz, at + c));
      Monotone(sz, Max(sz, at + c));
    }
  }

  /** Blocks of the file beyond those that it has. */
  lemma FitsTree(size: nat)
    requires size <= MAX_SIZE
    ensures BlocksFor(size) <= MAX_BLOCKS
  {
    Monotone(size, MAX_SIZE);
    Aligned(MAX_BLOCKS, BLOCKSIZE);
  }

  /** What an open regular file is. */
  lemma OpenPlanted(s: State, g: Ghost, fd: nat)
    requires OpenReg(s, g, fd)
    ensures var slot := s.table[fd];
            && FileSizeOk(slot.node) && 0 <= slot.offset <= slot.node.size
            && DataCount(slot.node) <= MAX_BLOCKS && |g.role| == |s.inodes| && |g.own| == |s.blocks|
            && Planted(s, g, fd, Needs(DataCount(slot.node))) && g.role[slot.node.index].InUse?
  {
    hide Owners, Deeps, Lasts, DirsMatch, Tree, FreeInodes, HasTree, FreeBlocks;
    var i := s.table[fd].node.index;
    assert SlotOk(s.table[fd], s.inodes, g.role);
    OwnLength(s, g);
    assert InodeOk(s.inodes[i], i, g.role[i]);
    TreeOfInode(s, g, i);
  }

  /** Byte-wise: up to the larger end, t's file is s's with `data` at position `at`. */
  ghost predicate BytesPut(s: State, t: State, fd: nat, at: nat, data: seq<byte>, upto: nat)
    requires fd < |s.table| && fd < |t.table| && upto <= MAX_SIZE
  {
    forall q {:trigger FileByte(t.blocks, t.table[fd].node, q)} :: 0 <= q < upto ==>
      FileByte(t.blocks, t.table[fd].node, q) == if at <= q < at + |data| then data[q - at] else FileByte(s.blocks, s.table[fd].node, q)
  }

  /** From s to t the data has been written at a position of the file, and nothing else. */
  ghost predicate Put(s: State, g: Ghost, fd: nat, at: nat, data: seq<byte>, t: State, h: Ghost) {
    && fd < |s.table| == |t.table| && OpenReg(t, h, fd) && FileSizeOk(s.table[fd].node)
    && var i := s.table[fd].node.index;
       && t.table[fd].node.index == i && t.table[fd].access == s.table[fd].access
       && t.table[fd].node.size == Max(s.table[fd].node.size, at + |data|) <= MAX_SIZE
       && RolesKept(g, h, i) && OthersUntouched(s, t, g, i)
       && |h.fb| + BlocksWith(t.table[fd].node.size) == |g.fb| + BlocksWith(s.table[fd].node.size)
       && BytesPut(s, t, fd, at, data, Max(s.table[fd].node.size, at + |data|))
  }

  /** A data block of the grown file is written, and with it offset, size and last block. */
  function Filled(t: State, fd: nat, b: int, x: Block, offset: int, size: int): State
    requires fd < |t.table| && 0 <= t.table[fd].node.index < |t.inodes| && 0 <= b < |t.blocks| && b <= 0x7FFF_FFFF
  {
    var slot := t.table[fd].(offset := offset, node := t.table[fd].node.(size := size, last := b));
    FileChanged(t, fd, slot, t.blocks[b := x], t.sb.freeBlock)
  }

  /** Its tree is the same. */
  lemma FilledTree(blocks: seq<Block>, node: Inode, own: seq<Owner>, i: nat, live: set<Node>, k: nat, x: Block, node': Inode)
    requires HasTree(blocks, node, own, i, live) && Data(k) in live && k < MAX_BLOCKS
    requires node' == node.(size := node'.size, last := node'.last)
    ensures var b := Number(blocks, node, Data(k));
            && 0 <= b < |blocks| && own[b] == OwnerOf(i, Data(k))
            && HasTree(blocks[b as int := x], node', own, i, live)
            && (forall y :: y in live ==> y.InRange() && Number(blocks[b as int := x], node', y) == Number(blocks, node, y))
  {
    TreeIsSeparate(blocks, node, own, i, live);
    assert HasNode(blocks, node, own, i, Data(k));
    var b := Number(blocks, node, Data(k)) as int;
    var blocks' := blocks[b := x];
    forall y | y in live ensures y.InRange() && Number(blocks', node', y) == Number(blocks, node, y) {
      NumberFrame(blocks, blocks', node, node', live, y);
    }
    forall y | y in live ensures HasNode(blocks', node', own, i, y) {
      assert HasNode(blocks, node, own, i, y);
    }
    forall c | 0 <= c < |own| && Taken(own[c]) && own[c].i == i ensures NodeAt(blocks', node', i, live, own[c], c) {
      assert NodeAt(blocks, node, i, live, own[c], c);
    }
  }

  /** A file that has grown to m data blocks, of which one is then written, is a file. */
  lemma FilledKeeps(s: State, g: Ghost, fd: nat, was: set<Node>, t: State, h: Ghost, m: nat, k: nat, x: Block, offset: int, size: int)
    requires OpenReg(s, g, fd) && m <= MAX_BLOCKS && Grown(s, g, fd, was, t, h, Needs(m)) && k < m
    requires 0 <= offset <= size <= MAX_SIZE && m == (if size == 0 then 1 else BlocksFor(size))
    ensures var b := Number(t.blocks, t.table[fd].node, Data(k));
            && fd < |t.table| && 0 <= t.table[fd].node.index < |t.inodes| && 0 <= b < |t.blocks| == |h.own|
            && h.own[b] == OwnerOf(t.table[fd].node.index, Data(k))
            && Inv(Filled(t, fd, b, x, offset, size), h)
            && (forall y :: y in Needs(m) ==>
                  y.InRange() && Number(t.blocks[b as int := x], t.table[fd].node.(size := size, last := b), y) == Number(t.blocks, t.table[fd].node, y))
  {
    hide Disk, FreeInodes, Tree, HasTree, FreeBlocks, Number, FileChanged;
    OpenPlanted(s, g, fd);
    var i, node := t.table[fd].node.index, t.table[fd].node;
    var b := Number(t.blocks, node, Data(k));
    assert Data(k) in Needs(m);
    var node' := node.(size := size, last := b);
    GrownTree(s, g, fd, was, t, h, Needs(m));
    FilledTree(t.blocks, node, h.own, i, Needs(m), k, x, node');
    Roles.WriteOwnedBlock(t.sb.freeBlock, t.blocks, h.own, h.fb, b, x);
    var slot := t.table[fd].(offset := offset, node := node');
    var blocks' := t.blocks[b as int := x];
    RegKind(s, g, fd);
    InodeOfTree(s, g, i, node', blocks', h.own);
    FileStep(s, g, fd, slot, blocks', t.sb.freeBlock, h.own, h.fb);
    FilledForm(s, g, fd, was, t, h, Needs(m), slot, blocks');
  }

  lemma RegKind(s: State, g: Ghost, fd: nat)
    requires OpenReg(s, g, fd)
    ensures s.table[fd].node.kind == REG && !s.table[fd].free
  {
  }

  lemma GrownTree(s: State, g: Ghost, fd: nat, was: set<Node>, t: State, h: Ghost, live: set<Node>)
    requires Grown(s, g, fd, was, t, h, live)
    ensures fd < |t.table| == |s.table| && 0 <= t.table[fd].node.index < |t.inodes| == |s.inodes|
    ensures t.table[fd].node.index == s.table[fd].node.index && |h.own| == |t.blocks| == |s.blocks| == |g.own|
    ensures HasTree(t.blocks, t.table[fd].node, h.own, t.table[fd].node.index, live)
    ensures FreeBlocks(t.sb.freeBlock, t.blocks, h.own, h.fb)
  {
  }

  lemma FilledForm(s: State, g: Ghost, fd: nat, was: set<Node>, t: State, h: Ghost, live: set<Node>, slot: Slot, blocks: seq<Block>)
    requires Grown(s, g, fd, was, t, h, live) && slot.node.index == t.table[fd].node.index && |blocks| == |t.blocks|
    ensures FileChanged(t, fd, slot, blocks, t.sb.freeBlock) == FileChanged(s, fd, slot, blocks, t.sb.freeBlock)
    ensures h == g.(own := h.own, fb := h.fb)
  {
    hide FreeBlocks, HasTree;
  }

  /** The state in which the block is there. */
  function WithRoom(s: State, fd: nat, at: nat): (t: State)
    requires fd < |s.table| && at < MAX_SIZE
    ensures |t.table| == |s.table|
  {
    if at / BLOCKSIZE >= DataCount(s.table[fd].node) then InstallNext(s, fd, at / BLOCKSIZE) else s
  }

  lemma RoomMade(s: State, g: Ghost, fd: nat, at: nat, bytes: seq<byte>) returns (h: Ghost, m: nat)
    requires CanPut(s, g, fd, at, bytes)
    ensures var size := Max(s.table[fd].node.size, at + |bytes|);
            && 0 <= size <= MAX_SIZE && m == (if size == 0 then 1 else BlocksFor(size)) && at / BLOCKSIZE < m <= MAX_BLOCKS
    ensures var n := DataCount(s.table[fd].node);
            && n <= MAX_BLOCKS && Grown(s, g, fd, Needs(n), WithRoom(s, fd, at), h, Needs(m))
            && (m == n || (m == n + 1 && at / BLOCKSIZE == n))
            && |h.fb| + |Nodes(m)| == |g.fb| + |Nodes(n)|
  {
    hide Inv, Grown, Planted, NewNodes, InstallNext;
    OpenPlanted(s, g, fd);
    var node, k := s.table[fd].node, at / BLOCKSIZE;
    var n := DataCount(node);
    RegKind(s, g, fd);
    PutNumbers(node.size, at, |bytes|);
    FitsTree(Max(node.size, at + |bytes|));
    if k >= n {
      h := InstallGrows(s, g, fd, k);
      m := n + 1;
    } else {
      h, m := g, n;
      NothingGrown(s, g, fd, Needs(n));
    }
  }

  lemma PutForm(s: State, fd: nat, at: nat, bytes: seq<byte>)
    requires fd < |s.table| && at % BLOCKSIZE + |bytes| <= BLOCKSIZE && at < MAX_SIZE
    requires var t := WithRoom(s, fd, at);
             && t.dsb == t.sb && 0 <= t.table[fd].node.index < |t.inodes|
             && 0 <= Number(t.blocks, t.table[fd].node, Data(at / BLOCKSIZE)) < |t.blocks|
    ensures var t := WithRoom(s, fd, at);
            var b := Number(t.blocks, t.table[fd].node, Data(at / BLOCKSIZE));
            PutBytes(s, fd, at, bytes)
              == Filled(t, fd, b, Splice(t.blocks[b], at % BLOCKSIZE, bytes), at + |bytes|, Max(s.table[fd].node.size, at + |bytes|))
  {
    hide InstallNext, Splice, DataBlock, Number, DataCount;
    var t := WithRoom(s, fd, at);
    NumberIsRead(t.blocks, t.table[fd].node, at / BLOCKSIZE);
    var b := Number(t.blocks, t.table[fd].node, Data(at / BLOCKSIZE));
    var x := Splice(t.blocks[b], at % BLOCKSIZE, bytes);
    Removal.WholeBlock(t.blocks[b], x);
    var u, w := PutBytes(s, fd, at, bytes), Filled(t, fd, b, x, at + |bytes|, Max(s.table[fd].node.size, at + |bytes|));
    assert u.table == w.table && u.inodes == w.inodes && u.blocks == w.blocks;
  }

  /** A byte and the block it is in. */
  lemma InBlockOf(q: nat, k: nat)
    ensures q / BLOCKSIZE == k <==> BLOCKSIZE * k <= q < BLOCKSIZE * (k + 1)
    ensures q == BLOCKSIZE * (q / BLOCKSIZE) + q % BLOCKSIZE
  {
  }

  lemma BelowCount(q: nat, size: nat)
    requires q < size
    ensures q / BLOCKSIZE < BlocksFor(size)
  {
  }

  /** After block k has been filled, data block c is where it was, and only block k has new bytes. */
  lemma FilledBlock(t: State, fd: nat, own: seq<Owner>, m: nat, k: nat, x: Block, offset: int, size: int, c: nat)
    requires fd < |t.table| && 0 <= t.table[fd].node.index < |t.inodes| && k < m <= MAX_BLOCKS && c < m
    requires HasTree(t.blocks, t.table[fd].node, own, t.table[fd].node.index, Needs(m))
    ensures var b := DataBlock(t.blocks, t.table[fd].node, k);
            && 0 <= b < |t.blocks|
            && var u := Filled(t, fd, b, x, offset, size);
               && DataBlock(u.blocks, u.table[fd].node, c) == DataBlock(t.blocks, t.table[fd].node, c)
               && GetBlock(u.blocks, DataBlock(t.blocks, t.table[fd].node, c))
                    == if c == k then x else GetBlock(t.blocks, DataBlock(t.blocks, t.table[fd].node, c))
  {
    hide HasTree, DataBlock, Number;
    var node := t.table[fd].node;
    assert Data(k) in Needs(m) && Data(c) in Needs(m);
    NumberIsRead(t.blocks, node, k);
    NumberIsRead(t.blocks, node, c);
    var b := DataBlock(t.blocks, node, k);
    FilledTree(t.blocks, node, own, node.index, Needs(m), k, x, node.(size := size, last := b));
    OwnNumbers(t.blocks, node, own, node.index, Needs(m), k);
    NumberIsRead(t.blocks[b as int := x], node.(size := size, last := b), c);
  }

  /** While the tree grows, the data blocks that were there stay as they are. */
  lemma GrownBlock(s: State, g: Ghost, fd: nat, n: nat, t: State, h: Ghost, live: set<Node>, c: nat)
    requires n <= MAX_BLOCKS && Grown(s, g, fd, Needs(n), t, h, live) && c < n
    ensures fd < |s.table| == |t.table|
    ensures DataBlock(t.blocks, t.table[fd].node, c) == DataBlock(s.blocks, s.table[fd].node, c)
    ensures GetBlock(t.blocks, DataBlock(s.blocks, s.table[fd].node, c)) == GetBlock(s.blocks, DataBlock(s.blocks, s.table[fd].node, c))
  {
    hide DataBlock, Number, HasTree, FreeBlocks;
    assert Data(c) in Needs(n);
    assert NodeStays(s, t, fd, Data(c));
    NumberIsRead(t.blocks, t.table[fd].node, c);
    NumberIsRead(s.blocks, s.table[fd].node, c);
  }

  /** Byte j of data block c after bytes have been put at place o of block k. */
  lemma FilledAt(s: State, g: Ghost, fd: nat, t: State, h: Ghost, n: nat, m: nat, k: nat, o: nat, bytes: seq<byte>, offset: int, size: int, c: nat, j: nat)
    requires n <= m <= MAX_BLOCKS && Grown(s, g, fd, Needs(n), t, h, Needs(m)) && k < m && c < m && j < BLOCKSIZE
    requires o + |bytes| <= BLOCKSIZE && (c < n || (c == k && o == 0 && j < |bytes|))
    ensures fd < |s.table| == |t.table| && 0 <= t.table[fd].node.index < |t.inodes|
    ensures var b := DataBlock(t.blocks, t.table[fd].node, k);
            && 0 <= b < |t.blocks|
            && var u := Filled(t, fd, b, Splice(t.blocks[b], o, bytes), offset, size);
               fd < |u.table| && GetBlock(u.blocks, DataBlock(u.blocks, u.table[fd].node, c))[j]
                                   == if c == k && o <= j < o + |bytes| then bytes[j - o]
                                      else GetBlock(s.blocks, DataBlock(s.blocks, s.table[fd].node, c))[j]
  {
    hide Grown, Planted, DataBlock, HasTree, FreeBlocks, Filled, GetBlock;
    GrownTree(s, g, fd, Needs(n), t, h, Needs(m));
    var b := DataBlock(t.blocks, t.table[fd].node, k);
    FilledBlock(t, fd, h.own, m, k, Zeros(BLOCKSIZE), offset, size, c);
    BlockThere(t.blocks, b);
    var x: Block := Splice(t.blocks[b], o, bytes);
    FilledBlock(t, fd, h.own, m, k, x, offset, size, c);
    FilledIs(t, fd, b, x, offset, size);
    if c < n {
      GrownBlock(s, g, fd, n, t, h, Needs(m), c);
    }
  }

  /** A byte of the file, by its block and its place there. */
  lemma DigitsOf(q: nat)
    requires q < MAX_SIZE
    ensures q == BLOCKSIZE * (q / BLOCKSIZE) + q % BLOCKSIZE && q / BLOCKSIZE < MAX_BLOCKS && q % BLOCKSIZE < BLOCKSIZE
  {
  }

  /** In terms of positions in the file. */
  lemma InFileTerms(bytes: seq<byte>, at: nat, q: nat, x: byte, y: byte)
    requires at % BLOCKSIZE + |bytes| <= BLOCKSIZE
    requires x == if q / BLOCKSIZE == at / BLOCKSIZE && at % BLOCKSIZE <= q % BLOCKSIZE < at % BLOCKSIZE + |bytes|
                  then bytes[q % BLOCKSIZE - at % BLOCKSIZE] else y
    ensures x == if at <= q < at + |bytes| then bytes[q - at] else y
  {
    SamePlace(at, q, |bytes|);
  }

  lemma FileByteIs(blocks: seq<Block>, node: Inode, q: nat)
    requires q < MAX_SIZE
    ensures q / BLOCKSIZE < MAX_BLOCKS
    ensures FileByte(blocks, node, q) == GetBlock(blocks, DataBlock(blocks, node, q / BLOCKSIZE))[q % BLOCKSIZE]
  {
  }

  lemma BlockThere(blocks: seq<Block>, b: int)
    requires 0 <= b < |blocks|
    ensures GetBlock(blocks, b) == blocks[b]
  {
  }

  /** Bytes of the same block are as far apart in it as in the file; those of another are not written. */
  lemma SamePlace(at: nat, q: nat, c: nat)
    requires at % BLOCKSIZE + c <= BLOCKSIZE
    ensures q / BLOCKSIZE == at / BLOCKSIZE ==> q % BLOCKSIZE - at % BLOCKSIZE == q - at
    ensures q / BLOCKSIZE != at / BLOCKSIZE ==> !(at <= q < at + c)
  {
    InBlockOf(q, at / BLOCKSIZE);
    InBlockOf(at, at / BLOCKSIZE);
  }

  lemma FilledIs(t: State, fd: nat, b: int, x: Block, offset: int, size: int)
    requires fd < |t.table| && 0 <= t.table[fd].node.index < |t.inodes| && 0 <= b < |t.blocks| && b <= 0x7FFF_FFFF
    ensures var u := Filled(t, fd, b, x, offset, size);
            && |u.table| == |t.table| && u.blocks == t.blocks[b := x]
            && u.table[fd] == t.table[fd].(offset := offset, node := t.table[fd].node.(size := size, last := b))
  {
  }

  /** The data blocks of the file have numbers of their own. */
  lemma OwnNumbers(blocks: seq<Block>, node: Inode, own: seq<Owner>, i: nat, live: set<Node>, k: nat)
    requires HasTree(blocks, node, own, i, live) && Data(k) in live
    ensures Data(k).InRange() && forall y :: y in live && y != Data(k) ==> y.InRange() && Number(blocks, node, y) != Number(blocks, node, Data(k))
  {
    TreeIsSeparate(blocks, node, own, i, live);
  }

  lemma GrownOthers(s: State, g: Ghost, fd: nat, was: set<Node>, t: State, h: Ghost, live: set<Node>, k: nat, b: int, x: Block)
    requires Grown(s, g, fd, was, t, h, live) && 0 <= b < |h.own| && h.own[b] == OwnerOf(s.table[fd].node.index, Data(k))
    ensures RolesKept(g, h, s.table[fd].node.index)
    ensures |t.blocks| == |s.blocks| == |g.own| && fd < |t.table| && t.table[fd].node.index == s.table[fd].node.index
    ensures t.table[fd].access == s.table[fd].access
    ensures forall c :: 0 <= c < |g.own| && Taken(g.own[c]) && g.own[c].i != s.table[fd].node.index ==> t.blocks[b := x][c] == s.blocks[c]
  {
    hide HasTree, FreeBlocks;
  }

  /** Byte q of the file after bytes have been put at position `at`. */
  lemma PutByteAt(s: State, g: Ghost, fd: nat, at: nat, bytes: seq<byte>, t: State, h: Ghost, n: nat, m: nat, size: int, q: nat)
    requires n <= m <= MAX_BLOCKS && Grown(s, g, fd, Needs(n), t, h, Needs(m)) && at / BLOCKSIZE < m && q / BLOCKSIZE < m && q < MAX_SIZE
    requires at % BLOCKSIZE + |bytes| <= BLOCKSIZE
    requires q / BLOCKSIZE < n || (q / BLOCKSIZE == at / BLOCKSIZE && at % BLOCKSIZE == 0 && q % BLOCKSIZE < |bytes|)
    ensures fd < |s.table| == |t.table| && 0 <= t.table[fd].node.index < |t.inodes|
    ensures var b := DataBlock(t.blocks, t.table[fd].node, at / BLOCKSIZE);
            && 0 <= b < |t.blocks|
            && var u := Filled(t, fd, b, Splice(t.blocks[b], at % BLOCKSIZE, bytes), at + |bytes|, size);
               fd < |u.table| && FileByte(u.blocks, u.table[fd].node, q) == if at <= q < at + |bytes| then bytes[q - at] else FileByte(s.blocks, s.table[fd].node, q)
  {
    hide Grown, FileByte, DataBlock, Filled, GetBlock, Splice, Needs;
    DigitsOf(q);
    FilledAt(s, g, fd, t, h, n, m, at / BLOCKSIZE, at % BLOCKSIZE, bytes, at + |bytes|, size, q / BLOCKSIZE, q % BLOCKSIZE);
    var b := DataBlock(t.blocks, t.table[fd].node, at / BLOCKSIZE);
    var u := Filled(t, fd, b, Splice(t.blocks[b], at % BLOCKSIZE, bytes), at + |bytes|, size);
    FileByteIs(u.blocks, u.table[fd].node, q);
    FileByteIs(s.blocks, s.table[fd].node, q);
    InFileTerms(bytes, at, q, FileByte(u.blocks, u.table[fd].node, q), FileByte(s.blocks, s.table[fd].node, q));
  }

  /** Bytes inside one block are written. */
  lemma PutKeeps(s: State, g: Ghost, fd: nat, at: nat, bytes: seq<byte>) returns (h: Ghost)
    requires CanPut(s, g, fd, at, bytes)
    ensures Put(s, g, fd, at, bytes, PutBytes(s, fd, at, bytes), h)
  {
    hide Inv, PutBytes, Grown, Number, FileByte, RolesKept, Nodes, HasTree, FreeBlocks, DataBlock, WithRoom, Filled;
    var m: nat;
    h, m := RoomMade(s, g, fd, at, bytes);
    var node, k, t := s.table[fd].node, at / BLOCKSIZE, WithRoom(s, fd, at);
    var n, size := DataCount(node), Max(node.size, at + |bytes|);
    OpenPlanted(s, g, fd);
    RegKind(s, g, fd);
    GrownTree(s, g, fd, Needs(n), t, h, Needs(m));
    NumberIsRead(t.blocks, t.table[fd].node, k);
    var b := Number(t.blocks, t.table[fd].node, Data(k));
    var x: Block := if 0 <= b < |t.blocks| then Splice(t.blocks[b], at % BLOCKSIZE, bytes) else Zeros(BLOCKSIZE);
    FilledKeeps(s, g, fd, Needs(n), t, h, m, k, x, at + |bytes|, size);
    SuperblockSame(s, g, fd, Needs(n), t, h, Needs(m));
    PutForm(s, fd, at, bytes);
    GrownOthers(s, g, fd, Needs(n), t, h, Needs(m), k, b, x);
    var u := PutBytes(s, fd, at, bytes);
    FilledIs(t, fd, b, x, at + |bytes|, size);
    PutNumbers(node.size, at, |bytes|);
    forall q | 0 <= q < size
      ensures FileByte(u.blocks, u.table[fd].node, q) == if at <= q < at + |bytes| then bytes[q - at] else FileByte(s.blocks, node, q)
    {
      BelowCount(q, size);
      ByteIsOldOrNew(node.size, at, |bytes|, q);
      PutByteAt(s, g, fd, at, bytes, t, h, n, m, size, q);
    }
  }

  lemma SuperblockSame(s: State, g: Ghost, fd: nat, was: set<Node>, t: State, h: Ghost, live: set<Node>)
    requires Grown(s, g, fd, was, t, h, live)
    ensures t.dsb == t.sb && fd < |t.table| && t.table[fd].node.kind == s.table[fd].node.kind && t.table[fd].free == s.table[fd].free
  {
    hide FreeBlocks, HasTree;
  }

  /** A byte below the new size is in a block that was there, or is among the bytes written. */
  lemma ByteIsOldOrNew(sz: nat, at: nat, c: nat, q: nat)
    requires at <= sz && 0 < c && at % BLOCKSIZE + c <= BLOCKSIZE && q < Max(sz, at + c)
    ensures var n := if sz == 0 then 1 else BlocksFor(sz);
            q / BLOCKSIZE < n || (q / BLOCKSIZE == at / BLOCKSIZE && at % BLOCKSIZE == 0 && q % BLOCKSIZE < c)
  {
    var k := at / BLOCKSIZE;
    PutNumbers(sz, at, c);
    InBlockOf(q, k);
    InBlockOf(at, k);
    BelowCount(q, Max(sz, at + c));
    if q < sz {
      BelowCount(q, sz);
    } else if k >= (if sz == 0 then 1 else BlocksFor(sz)) {
      AtEnd(sz, at, k);
    } else {
      assert q < BLOCKSIZE * (k + 1);
    }
  }

  lemma AtEnd(sz: nat, at: nat, k: nat)
    requires at <= sz && k == at / BLOCKSIZE && k >= (if sz == 0 then 1 else BlocksFor(sz))
    ensures at == sz && at % BLOCKSIZE == 0
  {
  }

  // ---- all blocks ----

  /** The file is open, the data ends where pointers lead, and there are free blocks enough, for index
      blocks too. */
  ghost predicate CanPutAll(s: State, g: Ghost, fd: nat, at: nat, data: seq<byte>) {
    && OpenReg(s, g, fd) && FileSizeOk(s.table[fd].node) && at <= s.table[fd].node.size && at + |data| <= MAX_SIZE
    && BlocksWith(Max(s.table[fd].node.size, at + |data|)) <= BlocksWith(s.table[fd].node.size) + |g.fb|
  }

  lemma {:induction false} NodesMonotone(n: nat, m: nat)
    requires n <= m <= MAX_BLOCKS
    ensures |Nodes(n)| <= |Nodes(m)|
    ensures n < m ==> |Nodes(n)| + |NewNodes(n)| <= |Nodes(m)|
    decreases m
  {
    hide NewNodes;
    if n < m - 1 {
      NodesMonotone(n, m - 1);
    }
  }

  lemma BytesPutTrans(s: State, t: State, u: State, fd: nat, at: nat, d1: seq<byte>, d2: seq<byte>, upto1: nat, upto2: nat)
    requires fd < |s.table| && fd < |t.table| && fd < |u.table| && upto1 <= upto2 <= MAX_SIZE
    requires BytesPut(s, t, fd, at, d1, upto1) && BytesPut(t, u, fd, at + |d1|, d2, upto2)
    requires upto2 <= Max(upto1, at + |d1| + |d2|) && at + |d1| <= upto1
    ensures BytesPut(s, u, fd, at, d1 + d2, upto2)
  {
    hide FileByte;
    forall q | 0 <= q < upto2
      ensures FileByte(u.blocks, u.table[fd].node, q)
                == if at <= q < at + |d1 + d2| then (d1 + d2)[q - at] else FileByte(s.blocks, s.table[fd].node, q)
    {
      if q < upto1 {
        assert FileByte(t.blocks, t.table[fd].node, q) == if at <= q < at + |d1| then d1[q - at] else FileByte(s.blocks, s.table[fd].node, q);
      }
    }
  }

  lemma PutTrans(s: State, g: Ghost, fd: nat, at: nat, d1: seq<byte>, d2: seq<byte>, t: State, h: Ghost, u: State, f: Ghost)
    requires Put(s, g, fd, at, d1, t, h) && Put(t, h, fd, at + |d1|, d2, u, f) && at <= s.table[fd].node.size
    ensures Put(s, g, fd, at, d1 + d2, u, f)
  {
    hide Inv, BytesPut, BlocksWith;
    BytesPutTrans(s, t, u, fd, at, d1, d2, Max(s.table[fd].node.size, at + |d1|), Max(s.table[fd].node.size, at + |d1| + |d2|));
  }

  lemma PutNothing(s: State, g: Ghost, fd: nat, at: nat)
    requires OpenReg(s, g, fd) && at <= s.table[fd].node.size
    ensures Put(s, g, fd, at, [], s, g)
  {
    hide Inv, BlocksWith;
    OpenPlanted(s, g, fd);
  }

  /** The first part can be put, and after it the rest. */
  lemma PutFirst(s: State, g: Ghost, fd: nat, at: nat, data: seq<byte>) returns (h: Ghost)
    requires CanPutAll(s, g, fd, at, data) && data != []
    ensures var c := Part(at, |data|);
            var t := PutBytes(s, fd, at, data[..c]);
            Put(s, g, fd, at, data[..c], t, h) && CanPutAll(t, h, fd, at + c, data[c..])
  {
    hide Inv, PutBytes, Nodes, NewNodes, RolesKept, OthersUntouched, BytesPut;
    var c := Part(at, |data|);
    var node := s.table[fd].node;
    PartFits(at, |data|);
    RegKind(s, g, fd);
    PutNumbers(node.size, at, c);
    var most, part := Max(node.size, at + |data|), Max(node.size, at + c);
    Monotone(part, most);
    FitsTree(most);
    if at / BLOCKSIZE >= DataCount(node) {
      NodesMonotone(DataCount(node), BlocksFor(most));
    }
    h := PutKeeps(s, g, fd, at, data[..c]);
  }

  lemma PartFits(at: nat, size: nat)
    requires size > 0
    ensures 0 < Part(at, size) <= size && at % BLOCKSIZE + Part(at, size) <= BLOCKSIZE
  {
  }

  lemma {:induction false} PutAllKeeps(s: State, g: Ghost, fd: nat, at: nat, data: seq<byte>) returns (h: Ghost)
    requires CanPutAll(s, g, fd, at, data)
    ensures Put(s, g, fd, at, data, PutAll(s, fd, at, data), h)
    decreases |data|
  {
    hide Inv, PutBytes, BytesPut, RolesKept, OthersUntouched, BlocksWith;
    if data == [] {
      h := g;
      PutNothing(s, g, fd, at);
    } else {
      var c := Part(at, |data|);
      var h1 := PutFirst(s, g, fd, at, data);
      var t := PutBytes(s, fd, at, data[..c]);
      h := PutAllKeeps(t, h1, fd, at + c, data[c..]);
      PutTrans(s, g, fd, at, data[..c], data[c..], t, h1, PutAll(s, fd, at, data), h);
      assert data == data[..c] + data[c..];
    }
  }

  // ---- the laws ----

  /** In terms of whole contents: c becomes c[..p] + data + c[p + |data|..]. */
  lemma PutContents(s: State, t: State, fd: nat, at: nat, data: seq<byte>)
    requires fd < |s.table| && fd < |t.table| && FileSizeOk(s.table[fd].node) && FileSizeOk(t.table[fd].node)
    requires t.table[fd].node.size == Max(s.table[fd].node.size, at + |data|)
    requires at <= s.table[fd].node.size && BytesPut(s, t, fd, at, data, t.table[fd].node.size)
    ensures var c := Contents(s.blocks, s.table[fd].node);
            Contents(t.blocks, t.table[fd].node) == c[..at] + data + (if at + |data| < |c| then c[at + |data|..] else [])
  {
    hide FileByte;
    var c, d := Contents(s.blocks, s.table[fd].node), Contents(t.blocks, t.table[fd].node);
    var r := c[..at] + data + (if at + |data| < |c| then c[at + |data|..] else []);
    forall q | 0 <= q < |d| ensures d[q] == r[q] {
      assert d[q] == FileByte(t.blocks, t.table[fd].node, q);
    }
  }

  /** In every writing mode, at every offset, for every length and every level of indirection, the
      intended `f_write` turns the contents c into c[..p] + data + c[p + |data|..], moves the offset to
      p + |data|, keeps the invariant, loses no block, and takes off the free list exactly the blocks
      by which the file has grown, index blocks included. */
  lemma IntendedWriteRefines(s: State, g: Ghost, fd: nat, data: seq<byte>) returns (h: Ghost)
    requires OpenReg(s, g, fd) && WithinTree(s.table[fd], |data|)
    requires 0 <= Place(s.table[fd]) && CanPutAll(s, g, fd, Place(s.table[fd]), data)
    ensures var (t, r) := IntendedWrite(s, fd, data);
            var p := Place(s.table[fd]);
            && r == |data| && fd < |t.table| && FileSizeOk(t.table[fd].node) && p <= s.table[fd].node.size
            && Inv(t, h) && RolesKept(g, h, s.table[fd].node.index) && OthersUntouched(s, t, g, s.table[fd].node.index)
            && |h.fb| + BlocksWith(t.table[fd].node.size) == |g.fb| + BlocksWith(s.table[fd].node.size)
            && t.table[fd].offset == p + |data|
            && var c := Contents(s.blocks, s.table[fd].node);
               Contents(t.blocks, t.table[fd].node) == c[..p] + data + (if p + |data| < |c| then c[p + |data|..] else [])
  {
    hide Inv, PutAll, RolesKept, OthersUntouched, BlocksWith, BytesPut;
    var p := Place(s.table[fd]);
    h := PutAllKeeps(s, g, fd, p, data);
    var t := PutAll(s, fd, p, data);
    OffsetMoves(t, h, fd, p + |data|);
    var u := IntendedWrite(s, fd, data).0;
    OffsetIsNoByte(s, t, u, fd, p, data, t.table[fd].node.size);
    OthersAsBefore(s, t, u, g, s.table[fd].node.index);
    PutContents(s, u, fd, p, data);
  }

  lemma OffsetIsNoByte(s: State, t: State, u: State, fd: nat, at: nat, data: seq<byte>, upto: nat)
    requires fd < |s.table| && fd < |t.table| && fd < |u.table| && upto <= MAX_SIZE && u.blocks == t.blocks && u.table[fd].node == t.table[fd].node
    requires BytesPut(s, t, fd, at, data, upto)
    ensures BytesPut(s, u, fd, at, data, upto)
  {
    hide FileByte;
    forall q | 0 <= q < upto
      ensures FileByte(u.blocks, u.table[fd].node, q) == if at <= q < at + |data| then data[q - at] else FileByte(s.blocks, s.table[fd].node, q)
    {
      assert FileByte(t.blocks, t.table[fd].node, q) == if at <= q < at + |data| then data[q - at] else FileByte(s.blocks, s.table[fd].node, q);
    }
  }

  lemma OthersAsBefore(s: State, t: State, u: State, g: Ghost, i: int)
    requires OthersUntouched(s, t, g, i) && u.blocks == t.blocks
    ensures OthersUntouched(s, u, g, i)
  {
  }

  lemma OffsetMoves(t: State, h: Ghost, fd: nat, offset: int)
    requires OpenReg(t, h, fd) && 0 <= offset <= t.table[fd].node.size
    ensures Inv(SetSlot(t, fd, t.table[fd].(offset := offset)), h)
  {
    hide FreeInodes, FreeBlocks, Owners, Deeps, Lasts, DirsMatch, Tree, InodesOk;
    var u := SetSlot(t, fd, t.table[fd].(offset := offset));
    forall x | 0 <= x < |u.table| ensures SlotOk(u.table[x], u.inodes, h.role) {
      assert SlotOk(t.table[x], t.inodes, h.role);
    }
  }

  // ---- f_read ----

  /** One pass: `size` bytes from position `at` on, block after block. */
  function PassBytes(blocks: seq<Block>, node: Inode, at: nat, size: nat): seq<byte>
    requires at + size <= MAX_SIZE
    decreases size
  {
    if size == 0 then []
    else
      var c, o := Part(at, size), at % BLOCKSIZE;
      GetBlock(blocks, DataBlock(blocks, node, at / BLOCKSIZE))[o..o + c] + PassBytes(blocks, node, at + c, size - c)
  }

  lemma OnePassMore(size: nat, times: nat)
    requires times > 0
    ensures size * times == size + size * (times - 1)
  {
  }

  /** `times` passes, one behind the other, from position `at` on. */
  function PassesBytes(blocks: seq<Block>, node: Inode, at: nat, size: nat, times: nat): seq<byte>
    requires at + size * times <= MAX_SIZE
    decreases times
  {
    if times == 0 then []
    else
      OnePassMore(size, times);
      PassBytes(blocks, node, at, size) + PassesBytes(blocks, node, at + size, size, times - 1)
  }

  /** `f_read` as intended, with the tests of lines 1197-1205: new state, what the buffer holds, and the
      return value. */
  function IntendedRead(s: State, fd: nat, size: int, times: int): (State, seq<byte>, int)
    requires fd < |s.table| && FileSizeOk(s.table[fd].node) && 0 <= s.table[fd].offset
  {
    var slot := s.table[fd];
    if !ReadAllowed(slot, size, times) then (s, [], -1)
    else
      (SetSlot(s, fd, slot.(offset := slot.offset + size * times)),
       PassesBytes(s.blocks, slot.node, slot.offset, size, times), size * times)
  }

  /** Some bytes of one block. */
  lemma SliceOfBlock(blocks: seq<Block>, node: Inode, at: nat, c: nat)
    requires FileSizeOk(node) && at % BLOCKSIZE + c <= BLOCKSIZE && at + c <= node.size && at < MAX_SIZE
    ensures GetBlock(blocks, DataBlock(blocks, node, at / BLOCKSIZE))[at % BLOCKSIZE..at % BLOCKSIZE + c] == Contents(blocks, node)[at..at + c]
  {
    hide DataBlock;
    var x := GetBlock(blocks, DataBlock(blocks, node, at / BLOCKSIZE))[at % BLOCKSIZE..at % BLOCKSIZE + c];
    var y := Contents(blocks, node)[at..at + c];
    forall j | 0 <= j < c ensures x[j] == y[j] {
      assert y[j] == FileByte(blocks, node, at + j);
      InBlockOf(at, at / BLOCKSIZE);
      InBlockOf(at + j, at / BLOCKSIZE);
    }
  }

  lemma {:induction false} PassIsSlice(blocks: seq<Block>, node: Inode, at: nat, size: nat)
    requires FileSizeOk(node) && at + size <= node.size
    ensures PassBytes(blocks, node, at, size) == Contents(blocks, node)[at..at + size]
    decreases size
  {
    hide Contents, DataBlock, Part, FileByte, PassBytes;
    ContentsLength(blocks, node);
    var c := Contents(blocks, node);
    PassStep(blocks, node, at, size);
    if size > 0 {
      var n := Part(at, size);
      PartFits(at, size);
      PassIsSlice(blocks, node, at + n, size - n);
      SlicesJoin(c, at, n, size);
    }
  }

  lemma SlicesJoin(c: seq<byte>, at: nat, n: nat, size: nat)
    requires n <= size && at + size <= |c|
    ensures c[at..at + size] == c[at..at + n] + c[at + n..at + size]
  {
  }

  lemma PassStep(blocks: seq<Block>, node: Inode, at: nat, size: nat)
    requires FileSizeOk(node) && at + size <= node.size
    ensures size == 0 ==> PassBytes(blocks, node, at, size) == []
    ensures size > 0 ==>
              var n := Part(at, size);
              && 0 < n <= size && at + n <= node.size && |Contents(blocks, node)| == node.size
              && PassBytes(blocks, node, at, size) == Contents(blocks, node)[at..at + n] + PassBytes(blocks, node, at + n, size - n)
  {
    hide Contents, DataBlock;
    if size > 0 {
      PartFits(at, size);
      SliceOfBlock(blocks, node, at, Part(at, size));
    }
  }

  /** Any slice of the file is copied in full, whatever blocks it touches, at whatever level. */
  lemma {:induction false} PassesAreSlice(blocks: seq<Block>, node: Inode, at: nat, size: nat, times: nat, n: nat)
    requires FileSizeOk(node) && n == size * times && at + n <= node.size
    ensures PassesBytes(blocks, node, at, size, times) == Contents(blocks, node)[at..at + n]
    decreases times
  {
    hide Contents, PassBytes, FileByte;
    ContentsLength(blocks, node);
    if times > 0 {
      OnePassMore(size, times);
      PassIsSlice(blocks, node, at, size);
      PassesAreSlice(blocks, node, at + size, size, times - 1, n - size);
      SlicesJoin(Contents(blocks, node), at, size, n);
    }
  }

  /** The call returns size * times and the next size * times bytes of the file exactly when the slot is
      open for reading and the file has that many left; it leaves the offset behind them and changes
      nothing else. Otherwise it returns -1 and nothing changes. */
  lemma IntendedReadIsSlice(s: State, g: Ghost, fd: nat, size: int, times: int)
    requires OpenReg(s, g, fd)
    ensures FileSizeOk(s.table[fd].node) && 0 <= s.table[fd].offset
    ensures var slot := s.table[fd];
            var (t, bytes, r) := IntendedRead(s, fd, size, times);
            if && (slot.access == READ || slot.access == READANDWRITE)
               && 0 < size && 0 < times && size * times <= slot.node.size - slot.offset
            then
              && r == size * times && slot.offset + r <= slot.node.size
              && bytes == Contents(s.blocks, slot.node)[slot.offset..slot.offset + r]
              && t == SetSlot(s, fd, slot.(offset := slot.offset + r)) && Inv(t, g)
            else
              t == s && bytes == [] && r == -1
  {
    hide Inv, Contents, PassesBytes;
    OpenRegFacts(s, g, fd);
    var slot := s.table[fd];
    AllowedExactly(slot, size, times);
    if ReadAllowed(slot, size, times) {
      PassesAreSlice(s.blocks, slot.node, slot.offset, size, times, size * times);
      OffsetMoves(s, g, fd, slot.offset + size * times);
    }
  }

  /** The slot is open for reading, and its file has size * times bytes left. */
  predicate MayRead(slot: Slot, size: int, times: int) {
    && (slot.access == READ || slot.access == READANDWRITE)
    && 0 < size && 0 < times && size * times <= slot.node.size - slot.offset
  }

  /** A second read goes on where the first one ended. */
  lemma ReadsGoOn(s: State, g: Ghost, fd: nat, size: int, times: int, size': int, times': int)
    requires OpenReg(s, g, fd) && FileSizeOk(s.table[fd].node) && 0 <= s.table[fd].offset
    requires MayRead(s.table[fd], size, times)
    ensures var (t, a, r) := IntendedRead(s, fd, size, times);
            && fd < |t.table| && t.table[fd].node == s.table[fd].node && 0 <= t.table[fd].offset && 0 <= r
            && (MayRead(t.table[fd], size', times') ==>
                  var (u, b, r') := IntendedRead(t, fd, size', times');
                  && s.table[fd].offset + r + r' <= s.table[fd].node.size && 0 <= r'
                  && a + b == Contents(s.blocks, s.table[fd].node)[s.table[fd].offset..s.table[fd].offset + r + r'])
  {
    hide Inv, Contents, IntendedRead;
    IntendedReadIsSlice(s, g, fd, size, times);
    var (t, a, r) := IntendedRead(s, fd, size, times);
    ContentsLength(s.blocks, s.table[fd].node);
    if MayRead(t.table[fd], size', times') {
      IntendedReadIsSlice(t, g, fd, size', times');
      SlicesJoin(Contents(s.blocks, s.table[fd].node), s.table[fd].offset, r, r + size' * times');
    }
  }

  /** After a write the data is a part of the contents. */
  lemma DataInContents(s: State, g: Ghost, fd: nat, data: seq<byte>) returns (before: seq<byte>, behind: seq<byte>)
    requires OpenReg(s, g, fd) && WithinTree(s.table[fd], |data|)
    requires 0 <= Place(s.table[fd]) && CanPutAll(s, g, fd, Place(s.table[fd]), data)
    ensures var t := IntendedWrite(s, fd, data).0;
            && fd < |t.table| && FileSizeOk(t.table[fd].node)
            && Contents(t.blocks, t.table[fd].node) == before + data + behind && |before| == Place(s.table[fd])
  {
    hide Inv, IntendedWrite, Contents, FileByte, BlocksWith, RolesKept, OthersUntouched, CanPutAll;
    var h := IntendedWriteRefines(s, g, fd, data);
    ContentsLength(s.blocks, s.table[fd].node);
    var c, p := Contents(s.blocks, s.table[fd].node), Place(s.table[fd]);
    before, behind := c[..p], if p + |data| < |c| then c[p + |data|..] else [];
  }

  /** The slot with its offset at a place in the file, as `f_seek` leaves it. */
  function SoughtTo(s: State, fd: nat, offset: int): State
    requires fd < |s.table|
  {
    SetSlot(s, fd, s.table[fd].(offset := offset))
  }

  /** Reading size * times bytes from the offset on gives these bytes; and if the slot is open for reading
      and the file has so many left, the call succeeds, returns them and their number, and goes on behind
      them. */
  predicate ReadsBack(s: State, fd: nat, size: nat, times: nat, bytes: seq<byte>) {
    && fd < |s.table| && FileSizeOk(s.table[fd].node) && 0 <= s.table[fd].offset && s.table[fd].offset + size * times <= MAX_SIZE
    && PassesBytes(s.blocks, s.table[fd].node, s.table[fd].offset, size, times) == bytes
    && ((s.table[fd].access == READ || s.table[fd].access == READANDWRITE) && 0 < size && 0 < times ==>
          IntendedRead(s, fd, size, times) == (SoughtTo(s, fd, s.table[fd].offset + |bytes|), bytes, |bytes|))
  }

  /** What was written is read: any slice of the data, at any offset, across any blocks, through any slot
      that then holds the file. */
  lemma WriteThenRead(s: State, g: Ghost, fd: nat, data: seq<byte>, from: nat, size: nat, times: nat, n: nat, u: State, x: nat)
    requires OpenReg(s, g, fd) && WithinTree(s.table[fd], |data|)
    requires 0 <= Place(s.table[fd]) && CanPutAll(s, g, fd, Place(s.table[fd]), data)
    requires n == size * times && from + n <= |data|
    requires fd < |IntendedWrite(s, fd, data).0.table| && x < |u.table|
    requires var t := IntendedWrite(s, fd, data).0;
             u.blocks == t.blocks && u.table[x].node == t.table[fd].node && u.table[x].offset == Place(s.table[fd]) + from
    ensures ReadsBack(u, x, size, times, data[from..from + n])
  {
    hide Inv, IntendedWrite, Contents, PassesBytes, FileByte, BlocksWith, CanPutAll, ReadAllowed;
    var before, behind := DataInContents(s, g, fd, data);
    var slot := u.table[x];
    var c := Contents(u.blocks, slot.node);
    ContentsLength(u.blocks, slot.node);
    PassesAreSlice(u.blocks, slot.node, |before| + from, size, times, n);
    MiddleOf(before, data, behind, c, from, n);
    AllowedExactly(slot, size, times);
  }

  lemma MiddleOf(a: seq<byte>, data: seq<byte>, b: seq<byte>, c: seq<byte>, from: nat, n: nat)
    requires c == a + data + b && from + n <= |data|
    ensures c[|a| + from..|a| + from + n] == data[from..from + n]
  {
  }

  lemma ContentsLength(blocks: seq<Block>, node: Inode)
    requires FileSizeOk(node)
    ensures |Contents(blocks, node)| == node.size
  {
  }

  // ---- the other files ----

  /** The blocks of inode i hold what they held. */
  ghost predicate BlocksKept(s: State, g: Ghost, t: State, i: int) {
    && |t.blocks| == |s.blocks| == |g.own|
    && forall b :: 0 <= b < |g.own| && Taken(g.own[b]) && g.own[b].i == i ==> t.blocks[b] == s.blocks[b]
  }

  lemma DataStays(s: State, g: Ghost, t: State, i: nat, k: nat)
    requires Inv(s, g) && i < |s.inodes| && |g.role| == |s.inodes| && g.role[i].InUse? && BlocksKept(s, g, t, i)
    requires k < DataCount(s.inodes[i]) && k < MAX_BLOCKS
    ensures DataBlock(t.blocks, s.inodes[i], k) == DataBlock(s.blocks, s.inodes[i], k)
    ensures GetBlock(t.blocks, DataBlock(s.blocks, s.inodes[i], k)) == GetBlock(s.blocks, DataBlock(s.blocks, s.inodes[i], k))
  {
    hide Inv, DataBlock, Number;
    TreeOfInode(s, g, i);
    var node := s.inodes[i];
    var live := Needs(DataCount(node));
    forall y | y in live ensures y.InRange() && GetBlock(t.blocks, Number(s.blocks, node, y)) == GetBlock(s.blocks, Number(s.blocks, node, y)) {
      assert HasNode(s.blocks, node, g.own, i, y);
    }
    assert Data(k) in live;
    NumberFrame(s.blocks, t.blocks, node, node, live, Data(k));
    NumberIsRead(s.blocks, node, k);
    NumberIsRead(t.blocks, node, k);
  }

  /** Then its contents are what they were, at whatever level of indirection they lie. */
  lemma ContentsStay(s: State, g: Ghost, t: State, i: nat)
    requires Inv(s, g) && i < |s.inodes| && |g.role| == |s.inodes| && g.role[i].InUse? && BlocksKept(s, g, t, i)
    ensures FileSizeOk(s.inodes[i]) && Contents(t.blocks, s.inodes[i]) == Contents(s.blocks, s.inodes[i])
  {
    hide Inv, DataBlock, Number, GetBlock;
    UsedSize(s, g, i);
    var node := s.inodes[i];
    forall q | 0 <= q < node.size ensures FileByte(t.blocks, node, q) == FileByte(s.blocks, node, q) {
      DigitsOf(q);
      BelowCount(q, node.size);
      DataStays(s, g, t, i, q / BLOCKSIZE);
    }
  }

  lemma UsedSize(s: State, g: Ghost, i: nat)
    requires Inv(s, g) && i < |s.inodes| && |g.role| == |s.inodes| && g.role[i].InUse?
    ensures FileSizeOk(s.inodes[i]) && (s.inodes[i].size > 0 ==> DataCount(s.inodes[i]) == BlocksFor(s.inodes[i].size))
  {
    assert InodeOk(s.inodes[i], i, g.role[i]);
  }
}
