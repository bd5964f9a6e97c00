/** The file system as the program runs it: the disk and the open-file table are changed in place,
    step by step. Every method is proved to do to the state what its function says, so that what is
    proved of the functions holds of it. */
module FileSystem {
  import opened Bytes
  import opened BlockMap
  import opened Records
  import opened Operations
  import opened Paths
  import opened Walk
  import opened Transfer
  import opened Calls
  import opened OpenFiles
  import Listing
  import Install
  import Intended
  import InstallIntended
  import FileTree
  import Invariant
  import Format

  class FileSystem {
    var sb: Superblock
    var dsb: Superblock
    const inodes: array<Inode>
    const blocks: array<Block>
    const table: array<Slot>
    var freehead: int

    /** The arrays are three different objects. */
    predicate Apart() {
      inodes as object != blocks as object && blocks as object != table as object && inodes as object != table as object
    }

    ghost function View(): State
      reads this, inodes, blocks, table
    {
      State(sb, dsb, inodes[..], blocks[..], table[..], freehead)
    }

    /** `f_mount` and the part of `setup` that empties the table. */
    constructor (disk: Format.Image)
      ensures fresh(inodes) && fresh(blocks) && fresh(table) && Apart()
      ensures View() == Format.Mounted(disk.sb, disk.inodes, disk.blocks)
    {
      sb, dsb, freehead := disk.sb, disk.sb, 0;
      inodes := new Inode[|disk.inodes|](i requires 0 <= i < |disk.inodes| reads disk => disk.inodes[i]);
      blocks := new Block[|disk.blocks|](b requires 0 <= b < |disk.blocks| reads disk => disk.blocks[b]);
      var node := ReadInode([], 0);
      table := new Slot[FILETABLESIZE](_ => Slot(true, node, 0, READ));
    }

    // ---- the disk ----

    /** `get_inode` */
    method GetInode(i: int) returns (node: Inode)
      ensures node == ReadInode(inodes[..], i)
    {
      if 0 <= i < inodes.Length {
        node := inodes[i];
      } else {
        node := Inode(0, 0, 0, 0, 0, [0, 0, 0, 0, 0, 0, 0, 0, 0, 0], [0, 0, 0, 0], 0, 0, 0);
      }
    }

    /** `update_single_inode_ondisk` */
    method UpdateInode(node: Inode, i: int)
      requires Apart()
      modifies inodes
      ensures View() == SaveInode(old(View()), i, node)
    {
      if 0 <= i < inodes.Length {
        inodes[i] := node;
      }
    }

    /** `get_data_block` */
    method GetDataBlock(b: int) returns (block: Block)
      ensures block == GetBlock(blocks[..], b)
    {
      if 0 <= b < blocks.Length {
        block := blocks[b];
      } else {
        block := Zeros(BLOCKSIZE);
      }
    }

    /** `write_data_to_block` */
    method WriteDataToBlock(b: int, content: seq<byte>)
      requires Apart() && |content| <= BLOCKSIZE
      modifies blocks
      ensures View() == SaveBlock(old(View()), b, content)
    {
      if 0 <= b < blocks.Length {
        blocks[b] := Splice(blocks[b], 0, content);
      }
    }

    /** `request_new_block` */
    method TakeFreeBlock() returns (b: int32)
      requires Apart()
      modifies this`sb, this`dsb
      ensures b == old(sb.freeBlock) && View() == RequestNewBlock(old(View()))
    {
      b := sb.freeBlock;
      var block := GetDataBlock(b);
      sb := sb.(freeBlock := Link(block));
      dsb := sb;
    }

    // ---- the open-file table ----

    /** `find_next_freehead` */
    method FindNextFreehead() returns (r: int)
      ensures r == FirstFree(table[..])
    {
      for i := 0 to table.Length
        invariant forall j :: 0 <= j < i ==> !table[j].free
      {
        if table[i].free {
          return i;
        }
      }
      return -1;
    }

    /** `already_in_table` and `get_fd_from_inode_value` */
    method AlreadyInTable(index: int) returns (r: int)
      ensures r == SlotOf(table[..], index)
    {
      for i := 0 to table.Length
        invariant forall j :: 0 <= j < i && !table[j].free ==> table[j].node.index != index
      {
        if !table[i].free && table[i].node.index == index {
          SlotOfFirst(table[..], index, 0, i);
          return i;
        }
      }
      return -1;
    }

    /** `addto_file_table` */
    method AddToFileTable(node: Inode, access: Access) returns (fd: int)
      requires Apart()
      modifies table
      ensures View() == old(View()).(table := AddToTable(old(table[..]), node, access).0)
      ensures fd == AddToTable(old(table[..]), node, access).1
    {
      fd := AlreadyInTable(node.index);
      if fd != -1 {
        return;
      }
      fd := FindNextFreehead();
      if fd == -1 {
        return;
      }
      table[fd] := Slot(false, node, 0, if node.kind == DIR then APPEND else access);
    }

    /** `remove_from_file_table` */
    method RemoveFromFileTable(node: Inode) returns (fd: int)
      requires Apart()
      modifies table, this`freehead
      ensures var (t, r) := RemoveFromTable(old(table[..]), old(freehead), node);
              fd == r && View() == old(View()).(table := t.table, freehead := t.freehead)
    {
      fd := AlreadyInTable(node.index);
      if fd == -1 {
        return;
      }
      table[fd] := table[fd].(free := true);
      freehead := fd;
    }

    /** `f_close` */
    method CloseFile(fd: int) returns (ok: bool)
      requires Apart() && table.Length == FILETABLESIZE
      modifies table, this`freehead
      ensures ok <==> 0 <= fd < FILETABLESIZE
      ensures View() == Close(old(View()), fd)
      ensures !ok ==> View() == old(View())
      ensures ok ==> table[fd] == old(table[fd]).(free := true) && forall u :: 0 <= u < table.Length && u != fd ==> table[u] == old(table[u])
      ensures ok ==> 0 <= freehead <= fd && table[freehead].free && forall u :: 0 <= u < freehead ==> !table[u].free
    {
      hide FirstFree;
      if !ValidFd(fd) {
        return false;
      }
      table[fd] := table[fd].(free := true);
      freehead := FindNextFreehead();
      assert table[..][fd].free;
      return true;
    }

    /** `f_seek` */
    method SeekFile(fd: int, offset: int, whence: Whence) returns (ok: bool)
      requires Apart() && table.Length == FILETABLESIZE
      modifies table
      ensures View() == Seek(old(View()), fd, offset, whence)
      ensures ok <==> && 0 <= fd < FILETABLESIZE && 0 <= offset
                      && (whence.SEEKSET? ==> offset <= table[fd].node.size)
                      && (whence.SEEKCUR? ==> old(table[fd].offset) + offset <= table[fd].node.size)
      ensures ok && whence.SEEKSET? ==> table[fd] == old(table[fd]).(offset := offset)
      ensures ok && whence.SEEKCUR? ==> table[fd] == old(table[fd]).(offset := old(table[fd].offset) + offset)
      ensures forall u :: 0 <= u < table.Length && (!ok || whence.SEEKEND? || u != fd) ==> table[u] == old(table[u])
    {
      if !ValidFd(fd) || offset < 0 {
        SameTable(fd);
        return false;
      }
      var slot := table[fd];
      ok := true;
      match whence {
        case SEEKSET =>
          if offset <= slot.node.size {
            table[fd] := slot.(offset := offset);
          } else {
            ok := false;
          }
        case SEEKCUR =>
          if slot.offset + offset <= slot.node.size {
            table[fd] := slot.(offset := slot.offset + offset);
          } else {
            ok := false;
          }
        case SEEKEND =>
      }
      assert table[fd] == slot.(offset := SeekTo(slot, offset, whence));
      assert table[..] == old(table[..])[fd := table[fd]];
    }

    lemma SameTable(fd: int)
      requires table.Length == FILETABLESIZE
      ensures ValidFd(fd) ==> table[..][fd := table[fd].(offset := table[fd].offset)] == table[..]
    {
      if ValidFd(fd) {
        assert table[fd].(offset := table[fd].offset) == table[fd];
      }
    }

    // ---- data blocks of a file ----

    /** `get_block_from_index`: the block and its number in the data region. */
    method GetBlockFromIndex(b: nat, node: Inode) returns (block: Block, number: int32)
      requires b < TRIPLE_BROKEN
      ensures number == Mapped(blocks[..], node, b) && block == GetBlock(blocks[..], number)
    {
      hide Word, GetBlock;
      PathInRangeExactly(b);
      if b <= 9 {
        number := node.dblocks[b];
      } else if b <= 521 {
        var r := b - 10;
        var indirect := GetDataBlock(node.iblocks[r / 128]);
        number := Word(indirect, r % 128);
      } else if b <= 16905 {
        var r := b - 522;
        var double := GetDataBlock(node.i2block);
        var indirect := GetDataBlock(Word(double, r / 128));
        number := Word(indirect, r % 128);
      } else {
        var r := b - 16906;
        var triple := GetDataBlock(node.i3block);
        var double := GetDataBlock(Word(triple, r / 128 / 128));
        var indirect := GetDataBlock(Word(double, r / 128));
        number := Word(indirect, r % 128);
      }
      block := GetDataBlock(number);
    }

    /** An open inode is changed in its slot and written to disk. */
    method StoreOpenInode(p: nat, node: Inode)
      requires Apart() && p < table.Length
      modifies table, inodes
      ensures View() == SaveOpenInode(old(View()), p, node)
    {
      table[p] := table[p].(node := node);
      UpdateInode(node, node.index);
    }

    /** `update_inodes_datablocks` for a direct or single-indirect block */
    method UpdateDatablocks(p: nat, n: nat, b: int32)
      requires Apart() && p < table.Length && 1 <= n && (n > N_DBLOCKS ==> WriterIndex(n) + 1 < N_IBLOCKS)
      modifies table, inodes, blocks
      ensures View() == UpdateInodesDatablocks(old(View()), p, n, b)
    {
      var node := table[p].node;
      if n <= N_DBLOCKS {
        StoreOpenInode(p, node.(dblocks := node.dblocks[n - 1 := b]));
      } else {
        var index := (n - N_DBLOCKS) / FANOUT;
        var data := GetDataBlock(node.iblocks[index + 1]);
        data := Splice(data, 4 * ((n - N_DBLOCKS) % FANOUT), WordBytes(b));
        WriteDataToBlock(node.iblocks[index + 1], data);
      }
    }

    /** `find_next_datablock` of the file open in slot p, up to the single-indirect blocks */
    method FindNextDatablock(p: nat, n: nat, oldSize: int, offset: int) returns (b: int32)
      requires Apart() && p < table.Length && 1 <= n
      requires n > N_DBLOCKS ==> WriterIndex(n) + 1 < N_IBLOCKS && (offset < oldSize ==> WriterSlot(n) > 0)
      modifies table, inodes, blocks, this`sb, this`dsb
      ensures View() == if offset >= oldSize then AllocateNext(old(View()), p, n) else old(View())
      ensures b == if offset >= oldSize then old(sb.freeBlock) else LookupNext(old(View()), old(table[p].node), n)
    {
      if offset >= oldSize {
        b := TakeFreeBlock();
        if n > N_DBLOCKS {
          var index := (n - N_DBLOCKS) / FANOUT;
          if index * FANOUT == n - N_DBLOCKS {
            var node := table[p].node;
            StoreOpenInode(p, node.(iblocks := node.iblocks[index := b]));
          }
        }
        UpdateDatablocks(p, n, b);
      } else if n <= N_DBLOCKS {
        b := table[p].node.dblocks[n - 1];
      } else {
        var index, i := (n - N_DBLOCKS) / FANOUT, (n - N_DBLOCKS) % FANOUT - 1;
        var data := GetDataBlock(table[p].node.iblocks[index]);
        b := Word(data, i);
      }
    }

    // ---- f_open and f_mkdir ----

    /** What `f_open` and `f_mkdir` do to the directory open in slot p. */
    method AddEntry(p: nat, e: Entry)
      requires Apart() && p < table.Length && 0 <= table[p].node.size < DIRECT_LIMIT
      requires |e.name| < FILENAMEMAX && table[p].node.size % ENTRYSIZE == 0
      modifies this, table, inodes, blocks
      ensures View() == AppendEntry(old(View()), p, e)
    {
      hide Splice, GetBlock, EntryBytes, AllocateNext;
      var node := table[p].node;
      var data := GetDataBlock(node.last);
      if node.size == BLOCKSIZE * (node.size / BLOCKSIZE) {
        var n := node.size / BLOCKSIZE + 1;
        var b := FindNextDatablock(p, n, node.size, node.size);
        WriteDataToBlock(b, EntryBytes(e));
        var node1 := table[p].node;
        StoreOpenInode(p, node1.(size := node1.size + ENTRYSIZE, last := b, dblocks := node1.dblocks[n - 1 := b]));
      } else {
        EntryPlace(node.size);
        data := Splice(data, node.size % BLOCKSIZE, EntryBytes(e));
        WriteDataToBlock(node.last, data);
        StoreOpenInode(p, node.(size := node.size + ENTRYSIZE));
      }
    }

    /** The creating part of `f_open` */
    method CreateInSlot(p: nat, name: seq<byte>, access: Access) returns (fd: int)
      requires Apart() && CanAddTo(View(), p, name) && 0 <= freehead < table.Length
      modifies this, table, inodes, blocks
      ensures fd == old(freehead) && View() == CreateFile(old(View()), p, name, access)
    {
      hide AppendEntry, GetBlock, Link, FirstFree;
      var ni := sb.freeInode;
      var parent := table[p].node.index;
      var node := GetInode(ni);
      sb := sb.(freeInode := node.next);
      AppendLeaves(View(), p, Entry(ni, name));
      AddEntry(p, Entry(ni, name));
      var file := GetInode(ni);
      file := file.(kind := REG, parent := parent, size := 0, next := -1, dblocks := file.dblocks[0 := sb.freeBlock]);
      UpdateInode(file, ni);
      table[freehead] := Slot(false, file, 0, access);
      var data := GetDataBlock(sb.freeBlock);
      sb := sb.(freeBlock := Link(data));
      dsb := sb;
      fd := freehead;
      freehead := FindNextFreehead();
    }

    /** `f_mkdir` once the parent is open in slot p */
    method MkdirInSlot(v: Variant, p: nat, name: seq<byte>) returns (e: Option<Entry>)
      requires Apart() && (sb.freeInode != -1 ==> CanAddTo(View(), p, name))
      modifies this, table, inodes, blocks
      ensures View() == MkdirIn(old(View()), v, p, name)
      ensures e == if old(sb.freeInode) == -1 then None else Some(Entry(old(sb.freeInode), name))
    {
      hide AppendEntry, DotEntries, Splice, GetBlock, Link;
      var ni := sb.freeInode;
      if ni == -1 {
        return None;
      }
      var dir := table[p].node;
      var child := GetInode(ni);
      sb := sb.(freeInode := child.next);
      AddEntry(p, Entry(ni, name));
      child := child.(size := 2 * ENTRYSIZE, kind := DIR, parent := dir.index, dblocks := child.dblocks[0 := sb.freeBlock]);
      if dir.size % BLOCKSIZE != 0 || v.Repaired? {
        child := child.(last := sb.freeBlock);
      }
      var data := GetDataBlock(sb.freeBlock);
      var cb := sb.freeBlock;
      sb := sb.(freeBlock := Link(data));
      WriteDataToBlock(cb, DotEntries(data, ni, dir.index));
      dsb := sb;
      UpdateInode(child, ni);
      e := Some(Entry(ni, name));
    }

    // ---- directories ----

    /** `f_readdir` */
    method ReadDir(fd: int) returns (e: Option<Entry>)
      requires Apart() && (ValidFd(fd) ==> table.Length == FILETABLESIZE && Listing.AtEntry(table[fd]))
      modifies table
      ensures (View(), e) == Listing.Readdir(old(View()), fd)
    {
      if !ValidFd(fd) {
        return None;
      }
      var slot := table[fd];
      if slot.node.size - slot.offset < ENTRYSIZE {
        return None;
      }
      var at := slot.offset % BLOCKSIZE;
      EntryPlace(slot.offset);
      var block := GetDataBlock(slot.node.dblocks[slot.offset / BLOCKSIZE]);
      e := Some(DecodeEntry(block[at..at + ENTRYSIZE]));
      table[fd] := slot.(offset := slot.offset + ENTRYSIZE);
    }

    /** The loops of lines 961-982 and 1535-1543: on from the offset to the first entry of this name. */
    method FindNamed(fd: nat, name: seq<byte>) returns (e: Option<Entry>, ghost k: nat)
      requires Apart() && fd < table.Length == FILETABLESIZE && Listing.AtEntry(table[fd])
      modifies table
      ensures var es := Entries(old(blocks[..]), old(table[fd].node));
              && 0 <= old(table[fd].offset) / ENTRYSIZE <= |es|
              && k == FirstNamed(es, old(table[fd].offset) / ENTRYSIZE, name)
              && e == (if k < |es| then Some(es[k]) else None)
              && View() == WithOffset(old(View()), fd, if k < |es| then ENTRYSIZE * (k + 1) else ENTRYSIZE * |es|)
    {
      hide DirEntry, Listing.Readdir;
      ghost var es := Entries(blocks[..], table[fd].node);
      k := table[fd].offset / ENTRYSIZE;
      ghost var start := k;
      Listing.ReaddirReturns(View(), fd, k);
      e := ReadDir(fd);
      while e.Some? && e.value.name != name
        invariant start <= k <= |es| && FirstNamed(es, start, name) == FirstNamed(es, k, name)
        invariant e == if k < |es| then Some(es[k]) else None
        invariant View() == WithOffset(old(View()), fd, if k < |es| then ENTRYSIZE * (k + 1) else ENTRYSIZE * |es|)
        decreases |es| - k
      {
        k := k + 1;
        Listing.ReaddirReturns(View(), fd, k);
        e := ReadDir(fd);
      }
    }

    /** One name of the walk: slot i is scanned from its start and then closed, unless it is the root's. */
    method ScanSlot(i: nat, name: seq<byte>) returns (e: Option<Entry>)
      requires Apart() && i < table.Length == FILETABLESIZE && !table[i].free
      modifies table, this`freehead
      ensures var es := RawEntries(blocks[..], old(table[i].node));
              var k := FirstNamed(es, 0, name);
              && e == (if k < |es| then Some(es[k]) else None)
              && table[..] == LeaveSlot(old(table[..]), i, if k < |es| then 0 else ENTRYSIZE * |es|)
              && freehead == if i != 0 then i else FirstFree(table[..])
      ensures View() == old(View()).(table := table[..], freehead := freehead)
    {
      hide DirEntry, FirstNamed;
      table[i] := table[i].(offset := 0);
      ghost var k: nat;
      e := None;
      if SizeOk(table[i].node) {
        e, k := FindNamed(i, name);
      }
      if e.Some? {
        table[i] := table[i].(offset := 0);
      }
      if i != 0 {
        table[i] := table[i].(free := true);
        freehead := i;
      } else {
        freehead := FindNextFreehead();
      }
    }

    /** The other half of the turn: the inode that was found is entered at the free head, or where it is open. */
    method EnterInode(i: nat, number: int) returns (j: int)
      requires Apart() && i < table.Length == FILETABLESIZE
      requires freehead == (if i != 0 then i else FirstFree(table[..])) && freehead != -1
      modifies table
      ensures var (x, t) := EnterSlot(old(table[..]), i, ReadInode(inodes[..], number)); j == x && table[..] == t
      ensures View() == old(View()).(table := table[..])
    {
      var node := GetInode(number);
      var fd := AlreadyInTable(node.index);
      if fd == -1 {
        table[freehead] := Slot(false, node, 0, READANDWRITE);
        j := freehead;
      } else {
        j := fd;
      }
    }

    /** `f_opendir` */
    method OpenDir(path: seq<byte>) returns (r: Option<Entry>)
      requires Apart() && table.Length == FILETABLESIZE
      requires FirstFree(WithRoot(inodes[..], table[..])) != -1
      modifies table, this`freehead
      ensures (View(), r) == Walk.Opendir(old(View()), path)
    {
      hide FirstNamed, DirEntry, WalkFrom, EnterSlot, LeaveSlot, FirstFree, Tokens, Entries;
      var toks := Tokens(path, SLASH_QUOTE);
      var root := GetInode(0);
      if table[0].free {
        table[0] := Slot(false, root, 0, READANDWRITE);
      } else {
        table[0] := table[0].(offset := 0);
      }
      ghost var start := table[..];
      assert start == WithRoot(old(inodes[..]), old(table[..]));
      freehead := FindNextFreehead();
      var entry := ROOT_ENTRY;
      var i, k := 0, 0;
      while k < |toks|
        invariant 0 <= k <= |toks| && CanWalk(table[..], i)
        invariant View() == old(View()).(table := table[..], freehead := freehead)
        invariant WalkFrom(inodes[..], blocks[..], start, 0, toks, ROOT_ENTRY)
               == WalkFrom(inodes[..], blocks[..], table[..], i, toks[k..], entry)
      {
        WalkTurn(inodes[..], blocks[..], table[..], i, toks[k..], entry);
        var e := ScanSlot(i, toks[k]);
        if e.None? {
          return None;
        }
        entry := e.value;
        i := EnterInode(i, entry.inode);
        k := k + 1;
      }
      WalkEnd(inodes[..], blocks[..], table[..], i, entry);
      freehead := FindNextFreehead();
      r := Some(entry);
    }

    // ---- calls by path ----

    /** The loop of lines 250-281: the inode of the first regular file of this name. */
    method FindRegular(p: nat, name: seq<byte>) returns (file: Option<Inode>)
      requires Apart() && p < table.Length == FILETABLESIZE
      modifies table
      ensures var es := RawEntries(blocks[..], old(table[p].node));
              var k := FirstRegular(inodes[..], es, 0, name);
              && file == (if k < |es| then Some(ReadInode(inodes[..], es[k].inode)) else None)
              && View() == WithOffset(old(View()), p, if k < |es| then ENTRYSIZE * (k + 1) else ENTRYSIZE * |es|)
    {
      hide DirEntry, Listing.Readdir, ReadInode, FirstRegular, GetBlock, SlotOf, FirstFree, Listing.EntryAt;
      table[p] := table[p].(offset := 0);
      if !SizeOk(table[p].node) {
        return None;
      }
      ghost var es := Entries(blocks[..], table[p].node);
      var size := table[p].node.size;
      var i, k := 0, 0;
      while i < size
        invariant i == ENTRYSIZE * k && 0 <= k <= |es|
        invariant FirstRegular(inodes[..], es, 0, name) == FirstRegular(inodes[..], es, k, name)
        invariant View() == WithOffset(old(View()), p, ENTRYSIZE * k)
        decreases size - i
      {
        Listing.ReaddirReturns(View(), p, k);
        OffsetTwice(old(View()), p, ENTRYSIZE * k, ENTRYSIZE * (k + 1));
        var e := ReadDir(p);
        if e.None? {
          return None;
        }
        var node := GetInode(e.value.inode);
        FirstRegularStep(inodes[..], es, k, name);
        if e.value.name == name && node.kind == REG {
          return Some(node);
        }
        i, k := i + ENTRYSIZE, k + 1;
      }
      return None;
    }

    /** `f_open` once the directory is open in slot p */
    method OpenInSlot(p: nat, name: seq<byte>, access: Access) returns (fd: int)
      requires Apart() && p < table.Length == FILETABLESIZE && 0 <= freehead < table.Length
      requires var es := RawEntries(blocks[..], table[p].node);
               FirstRegular(inodes[..], es, 0, name) == |es| && access != READ && sb.freeInode != -1 ==> CanAddTo(View(), p, name)
      modifies this, table, inodes, blocks
      ensures (View(), fd) == OpenIn(old(View()), p, name, access)
    {
      hide DirEntry, CreateFile, CanAddTo, FirstRegular;
      ghost var es := RawEntries(blocks[..], table[p].node);
      var file := FindRegular(p, name);
      if file.Some? {
        table[freehead] := Slot(false, file.value, 0, access);
        fd := freehead;
        freehead := FindNextFreehead();
        return;
      }
      if access == READ || sb.freeInode == -1 {
        return -1;
      }
      CanAddAtOffset(old(View()), p, name, ENTRYSIZE * |es|);
      fd := CreateInSlot(p, name, access);
    }

    /** `f_open` */
    method OpenFile(path: seq<byte>, access: Access) returns (fd: int)
      requires Apart() && table.Length == FILETABLESIZE
      requires FirstFree(WithRoot(inodes[..], table[..])) != -1
      requires CanOpen(View(), path, access)
      modifies this, table, inodes, blocks
      ensures (View(), fd) == OpenPath(old(View()), path, access)
    {
      hide Walk.Opendir, OpenIn, CanAddTo;
      var toks := Tokens(path, SLASH_ONLY);
      var dir := OpenDir(ParentPath(toks));
      if dir.None? {
        return -1;
      }
      var p := AlreadyInTable(dir.value.inode);
      fd := OpenInSlot(p, NameOf(toks), access);
    }

    /** `f_mkdir` */
    method MakeDirectory(v: Variant, path: seq<byte>) returns (e: Option<Entry>)
      requires Apart() && table.Length == FILETABLESIZE
      requires FirstFree(WithRoot(inodes[..], table[..])) != -1
      requires CanMkdir(View(), path)
      modifies this, table, inodes, blocks
      ensures View() == MkdirPath(old(View()), v, path) && e == MkdirResult(old(View()), path)
    {
      hide Walk.Opendir, MkdirIn, CanAddTo;
      var toks := Tokens(path, SLASH_ONLY);
      var dir := OpenDir(ParentPath(toks));
      if dir.None? {
        return None;
      }
      var p := AlreadyInTable(dir.value.inode);
      e := MkdirInSlot(v, p, NameOf(toks));
    }

    // ---- f_remove ----

    /** The last entry of the directory in slot p, with its block (lines 1564-1584). */
    method LastEntry(node: Inode) returns (moved: Entry, block: Block, number: int32)
      requires SizeOk(node) && 1 <= Count(node) && node.size % ENTRYSIZE == 0
      ensures moved == MovedEntry(View(), node) && number == LastEntryBlock(node) && block == GetBlock(blocks[..], number)
    {
      hide DecodeEntry, Mapped;
      var lastByte := node.size - ENTRYSIZE;
      LastEntryPlace(node, 0);
      Install.MappedDirect(blocks[..], node, lastByte / BLOCKSIZE);
      block, number := GetBlockFromIndex(lastByte / BLOCKSIZE, node);
      moved := DecodeEntry(block[lastByte % BLOCKSIZE..lastByte % BLOCKSIZE + ENTRYSIZE]);
    }

    /** It is written over entry k (lines 1586-1600). */
    method OverwriteSlot(node: Inode, k: nat, moved: Entry)
      requires Apart() && SizeOk(node) && k < Count(node) && |moved.name| < FILENAMEMAX
      modifies blocks
      ensures var kb := node.dblocks[k / ENTRIES_PER_BLOCK];
              View() == SaveBlock(old(View()), kb, EntryReplaced(GetBlock(old(blocks[..]), kb), k, moved))
    {
      hide OverwriteEntry, Mapped, SaveBlock, Splice;
      LastEntryPlace(node, k);
      Install.MappedDirect(blocks[..], node, ENTRYSIZE * k / BLOCKSIZE);
      var target, kb := GetBlockFromIndex(ENTRYSIZE * k / BLOCKSIZE, node);
      var at := ENTRYSIZE * k % BLOCKSIZE;
      WriteDataToBlock(kb, Splice(target, at, OverwriteEntry(target[at..at + ENTRYSIZE], moved)));
    }

    /** The directory part of `f_remove` (lines 1564-1631), after the scan has stopped behind entry k. */
    method DropEntryAt(v: Variant, p: nat, k: nat)
      requires Apart() && p < table.Length && SizeOk(table[p].node) && k < Count(table[p].node)
      requires table[p].offset == ENTRYSIZE * (k + 1) && table[p].node.size % ENTRYSIZE == 0
      requires |MovedEntry(View(), table[p].node).name| < FILENAMEMAX
      modifies this, table, inodes, blocks
      ensures View() == DropEntry(old(View()), v, p, k)
    {
      hide GetBlock, EntryReplaced, Splice, MovedEntry, DirEntry, ShrunkDir, GivesUpBlock, LastEntryBlock, SaveOpenInode;
      var node := table[p].node;
      var lastByte := node.size - ENTRYSIZE;
      LastEntryPlace(node, k);
      ShrunkDirIs(v, node);
      var moved, lastBlock, lb := LastEntry(node);
      table[p] := table[p].(offset := table[p].offset - ENTRYSIZE);
      OverwriteSlot(node, k, moved);
      if lastByte / BLOCKSIZE * BLOCKSIZE == lastByte {
        WriteDataToBlock(lb, Splice(lastBlock, 0, WordBytes(sb.freeBlock)));
        sb := sb.(freeBlock := lb);
      }
      var shrunk := node.(size := node.size - ENTRYSIZE);
      if v.Repaired? && lastByte / BLOCKSIZE * BLOCKSIZE == lastByte && lastByte > 0 {
        shrunk := shrunk.(last := node.dblocks[lastByte / BLOCKSIZE - 1]);
      }
      StoreOpenInode(p, shrunk);
    }

    /** The loop of lines 1654-1667 */
    method ReleaseDirect(v: Variant, file: Inode, n: nat, stale: Block)
      requires Apart() && n <= N_DBLOCKS
      modifies this`sb, blocks
      ensures View() == ReleaseBlocks(old(View()), v, file, 0, n, stale)
    {
      hide Splice, GetBlock, Mapped;
      ghost var s1 := View();
      for i := 0 to n
        invariant ReleaseBlocks(s1, v, file, 0, n, stale) == ReleaseBlocks(View(), v, file, i, n, stale)
        invariant View() == s1.(sb := sb, blocks := blocks[..])
      {
        Install.MappedDirect(blocks[..], file, i);
        var block, b := GetBlockFromIndex(i, file);
        assert b == file.dblocks[i];
        block := Splice(block, 0, WordBytes(sb.freeBlock));
        sb := sb.(freeBlock := b);
        WriteDataToBlock(b, if v.Repaired? then block else stale);
      }
    }

    /** The inode and block part of `f_remove` (lines 1633-1673). */
    method ReleaseInodeAndBlocks(v: Variant, file: Inode, stale: Block)
      requires Apart() && CanRelease(v, file)
      modifies this`sb, this`dsb, inodes, blocks
      ensures View() == ReleaseFile(old(View()), v, file, stale)
    {
      hide ReleaseBlocks, DeepNumbers, ReturnBlocks;
      var further := DeepNumbers(blocks[..], file);
      UpdateInode(file.(next := sb.freeInode), file.index);
      sb := sb.(freeInode := file.index);
      var n := (file.size + BLOCKSIZE - 1) / BLOCKSIZE;
      if v.Repaired? && n == 0 {
        n := 1;
      }
      if n > N_DBLOCKS {
        n := N_DBLOCKS;
      }
      ReleaseDirect(v, file, n, stale);
      if v.Repaired? {
        ReturnAll(further);
      }
      dsb := sb;
    }

    /** Blocks go to the head of the free list, one after the other. */
    method ReturnAll(list: seq<int32>)
      requires Apart()
      modifies this`sb, blocks
      ensures View() == ReturnBlocks(old(View()), list)
    {
      hide Splice, GetBlock;
      ghost var s := View();
      assert list[0..] == list;
      for i := 0 to |list|
        invariant ReturnBlocks(View(), list[i..]) == ReturnBlocks(s, list)
        invariant View() == s.(sb := sb, blocks := blocks[..])
      {
        var b := list[i];
        assert list[i..][0] == b && list[i..][1..] == list[i + 1..];
        var block := GetDataBlock(b);
        ghost var was := View();
        WriteDataToBlock(b, Splice(block, 0, WordBytes(sb.freeBlock)));
        sb := sb.(freeBlock := b);
        assert View() == ReturnBlock(was, b);
      }
    }

    method DropAndRelease(v: Variant, p: nat, k: nat, file: Inode, stale: Block)
      requires Apart() && p < table.Length && SizeOk(table[p].node) && k < Count(table[p].node) && CanRelease(v, file)
      requires table[p].offset == ENTRYSIZE * (k + 1) && table[p].node.size % ENTRYSIZE == 0
      requires |MovedEntry(View(), table[p].node).name| < FILENAMEMAX
      modifies this, table, inodes, blocks
      ensures View() == ReleaseFile(DropEntry(old(View()), v, p, k), v, file, stale)
    {
      hide DropEntry, ReleaseFile, MovedEntry;
      DropEntryAt(v, p, k);
      ReleaseInodeAndBlocks(v, file, stale);
    }

    /** The scan of `f_remove` for the name. */
    method FindToRemove(v: Variant, p: nat, name: seq<byte>) returns (e: Option<Entry>, ghost k: nat)
      requires Apart() && p < table.Length == FILETABLESIZE && Listing.AtEntry(table[p])
      modifies table
      ensures 0 <= ScanStart(old(View()), v, p) <= Count(old(table[p].node))
      ensures var es := Entries(blocks[..], old(table[p].node));
              && k == FirstNamed(es, ScanStart(old(View()), v, p), name) && e == (if k < |es| then Some(es[k]) else None)
              && View() == WithOffset(old(View()), p, if k < |es| then ENTRYSIZE * (k + 1) else ENTRYSIZE * |es|)
    {
      hide DirEntry, FirstNamed;
      if v.Repaired? {
        table[p] := table[p].(offset := 0);
      }
      e, k := FindNamed(p, name);
    }

    /** `f_remove` once the directory is open in slot p */
    method RemoveInSlot(v: Variant, p: nat, name: seq<byte>, stale: Block) returns (ok: bool)
      requires Apart() && p < table.Length == FILETABLESIZE && CanRemoveFrom(View(), v, p, name)
      requires Listing.AtEntry(table[p]) && table[p].node.size % ENTRYSIZE == 0
      modifies this, table, inodes, blocks
      ensures (View(), ok) == RemoveName(old(View()), v, p, name, stale)
    {
      hide DirEntry, FirstNamed, DropEntry, ReleaseFile, MovedEntry, SlotOf, CanRelease, ShrunkDir, GivesUpBlock, GetBlock, EntryReplaced, FirstFree, Mapped;
      ghost var es := Entries(blocks[..], table[p].node);
      var e, k := FindToRemove(v, p, name);
      if e.None? {
        return false;
      }
      var file := GetInode(e.value.inode);
      var open := AlreadyInTable(file.index);
      SameSlotOf(old(table[..]), p, ENTRYSIZE * (k + 1), file.index);
      if open != -1 {
        return false;
      }
      MovedIsLast(old(View()), p);
      DropIgnoresOffset(old(View()), v, p, k, ENTRYSIZE * (k + 1));
      DropAndRelease(v, p, table[p].offset / ENTRYSIZE - 1, file, stale);
      return true;
    }

    /** `f_remove` */
    method RemoveFile(v: Variant, path: seq<byte>, stale: Block) returns (ok: bool)
      requires Apart() && table.Length == FILETABLESIZE
      requires FirstFree(WithRoot(inodes[..], table[..])) != -1
      requires CanRemovePath(View(), v, path) && FoundAtEntry(View(), path)
      modifies this, table, inodes, blocks
      ensures (View(), ok) == RemovePath(old(View()), v, path, stale)
    {
      hide Walk.Opendir, RemoveName, CanRemoveFrom;
      var toks := Tokens(path, SLASH_QUOTE);
      var dir := OpenDir(ParentPath(toks));
      if dir.None? {
        return false;
      }
      var p := AlreadyInTable(dir.value.inode);
      ok := RemoveInSlot(v, p, NameOf(toks), stale);
    }

    // ---- f_write ----

    /** Lines 424-428 */
    method LayOut(buffer: seq<byte>, ntimes: nat) returns (data: seq<byte>)
      ensures data == Repeat(buffer, ntimes)
    {
      data := [];
      for j := 0 to ntimes
        invariant data == Repeat(buffer, j)
      {
        data := data + buffer;
      }
    }

    /** Lines 440-447 and 492-501: the content of the block the data begins in, and the tail block's number */
    method ComposeFirst(slot: Slot, data: seq<byte>) returns (content: Block, index: int32, part: nat)
      requires WithinDirect(slot, |data|)
      ensures content == FirstContent(blocks[..], slot, data) && index == TailBlock(blocks[..], slot.node)
      ensures part == FirstPart(slot, |data|)
    {
      hide Mapped, GetBlock;
      var last;
      last, index := GetBlockFromIndex(slot.node.size / BLOCKSIZE, slot.node);
      var offset := if slot.access == APPEND then slot.node.size % BLOCKSIZE else slot.offset % BLOCKSIZE;
      var space := BLOCKSIZE - offset;
      part := if |data| < space then |data| else space;
      content := last[..offset] + data[..part] + Zeros(BLOCKSIZE - offset - part);
    }

    /** Lines 488-530: that block, the offset and the size */
    method WriteFirstBlock(fd: nat, data: seq<byte>)
      requires Apart() && fd < table.Length && WithinDirect(table[fd], |data|)
      modifies this, table, inodes, blocks
      ensures View() == WriteFirst(old(View()), fd, data)
    {
      hide FirstContent, TailBlock, SaveBlock, AllocateNext, LookupNext, SaveOpenInode, FirstPart;
      var slot := table[fd];
      var content, index, part := ComposeFirst(slot, data);
      if slot.access == APPEND {
        WriteDataToBlock(index, content);
      } else {
        var b := FindNextDatablock(fd, slot.offset / BLOCKSIZE + 1, slot.node.size, slot.offset);
        WriteDataToBlock(b, content);
      }
      table[fd] := table[fd].(offset := slot.offset + part);
      StoreOpenInode(fd, table[fd].node.(size := slot.node.size + part));
    }

    /** One turn of the loop of lines 538-565 */
    method WriteNextBlock(fd: nat, data: seq<byte>, done: nat, n: nat, oldSize: int)
      requires Apart() && fd < table.Length && done < |data| && 1 <= n <= N_DBLOCKS
      modifies this, table, inodes, blocks
      ensures View() == WriteStep(old(View()), fd, data, done, n, oldSize)
    {
      hide Splice, SaveBlock, AllocateNext, LookupNext, SaveOpenInode;
      var slot := table[fd];
      var b := FindNextDatablock(fd, n, oldSize, slot.offset);
      var c := if |data| - done < BLOCKSIZE then |data| - done else BLOCKSIZE;
      WriteDataToBlock(b, data[done..done + c]);
      table[fd] := table[fd].(offset := slot.offset + c);
      var size := slot.node.size;
      if slot.access == APPEND {
        size := size + c;
      } else if size < slot.offset + c {
        size := slot.offset + c;
      }
      StoreOpenInode(fd, table[fd].node.(size := size, last := b));
    }

    /** `f_write` */
    method WriteFile(fd: int, buffer: seq<byte>, ntimes: nat) returns (r: int)
      requires Apart() && ValidFd(fd) && table.Length == FILETABLESIZE
      requires !table[fd].free && table[fd].access != READ && table[fd].node.kind == REG ==>
                 WithinDirect(table[fd], |Repeat(buffer, ntimes)|)
      modifies this, table, inodes, blocks
      ensures (View(), r) == WriteCall(old(View()), fd, Repeat(buffer, ntimes))
    {
      hide WriteFirst, WriteStep, Mapped, Repeat, GetBlock, TailBlock, FirstContent;
      if table[fd].free || table[fd].access == READ {
        return -1;
      }
      if table[fd].node.kind != REG {
        return 0;
      }
      var data := LayOut(buffer, ntimes);
      var slot := table[fd];
      var oldOffset := if slot.access == APPEND then slot.node.size else slot.offset;
      var space := BLOCKSIZE - oldOffset % BLOCKSIZE;
      if space < |data| && sb.freeBlock == -1 {
        return -1;
      }
      var n := if slot.access == APPEND then 1 else slot.offset / BLOCKSIZE + 2;
      WriteFirstBlock(fd, data);
      var left := |data| - space;
      ghost var s1 := View();
      while left > 0
        invariant 1 <= n && left <= |data| && BLOCKSIZE * (n - 1) + Max(left, 0) <= DIRECT_LIMIT
        invariant WriteLoop(s1, fd, data, FirstPart(slot, |data|), LoopStart(slot), slot.node.size)
               == WriteLoop(View(), fd, data, |data| - Max(left, 0), n, slot.node.size)
      {
        var c := if left < BLOCKSIZE then left else BLOCKSIZE;
        WriteNextBlock(fd, data, |data| - left, n, slot.node.size);
        left, n := left - c, n + 1;
      }
      table[fd] := table[fd].(offset := oldOffset + |data|);
      r := |data|;
    }

    /** A block off the free list becomes block x of the file: `AddNode` */
    method AddBlock(fd: nat, x: FileTree.Node)
      requires Apart() && fd < table.Length && x.InRange()
      modifies this, table, inodes, blocks
      ensures View() == InstallIntended.AddNode(old(View()), fd, x)
    {
      hide Splice, GetBlock, SaveBlock, SaveOpenInode, FileTree.Number;
      var node := table[fd].node;
      var b := TakeFreeBlock();
      if x.InInode() {
        StoreOpenInode(fd, FileTree.WithPointer(node, x, b));
      } else {
        var ib := FileTree.Number(blocks[..], node, x.Above());
        var block := GetDataBlock(ib);
        WriteDataToBlock(ib, Splice(block, 4 * x.At(), WordBytes(b)));
      }
    }

    /** `find_next_datablock` as intended: the missing index blocks, then the data block. */
    method InstallBlock(fd: nat, k: nat)
      requires Apart() && fd < table.Length && k < MAX_BLOCKS
      modifies this, table, inodes, blocks
      ensures View() == InstallIntended.InstallNext(old(View()), fd, k)
    {
      hide InstallIntended.AddNode, FileTree.NewNodes;
      InstallIntended.NewInRange(k);
      var xs := FileTree.NewNodes(k);
      ghost var s := View();
      assert xs[0..] == xs;
      for i := 0 to |xs|
        invariant forall x :: x in xs[i..] ==> x.InRange()
        invariant InstallIntended.AddNodes(View(), fd, xs[i..]) == InstallIntended.AddNodes(s, fd, xs)
      {
        assert xs[i] in xs && xs[i..][0] == xs[i] && xs[i..][1..] == xs[i + 1..];
        AddTurn(View(), fd, xs[i..]);
        AddBlock(fd, xs[i]);
      }
    }

    /** One block of the intended `f_write` */
    method PutInBlock(fd: nat, at: nat, bytes: seq<byte>)
      requires Apart() && fd < table.Length && at % BLOCKSIZE + |bytes| <= BLOCKSIZE && at < MAX_SIZE
      modifies this, table, inodes, blocks
      ensures View() == Intended.PutBytes(old(View()), fd, at, bytes)
    {
      hide Splice, SaveBlock, InstallIntended.InstallNext, SaveOpenInode, Invariant.DataCount, GetBlock, FileTree.DataBlock;
      var slot := table[fd];
      var k := at / BLOCKSIZE;
      if k >= Invariant.DataCount(slot.node) {
        InstallBlock(fd, k);
      }
      var b := FileTree.DataBlock(blocks[..], table[fd].node, k);
      var block := GetDataBlock(b);
      WriteDataToBlock(b, Splice(block, at % BLOCKSIZE, bytes));
      table[fd] := table[fd].(offset := at + |bytes|);
      StoreOpenInode(fd, table[fd].node.(size := Max(slot.node.size, at + |bytes|), last := b));
    }

    /** The loop of the intended `f_write` */
    method PutInBlocks(fd: nat, at: nat, data: seq<byte>)
      requires Apart() && fd < table.Length && at + |data| <= MAX_SIZE
      modifies this, table, inodes, blocks
      ensures View() == Intended.PutAll(old(View()), fd, at, data)
    {
      hide Intended.PutBytes, Intended.PutAll, Intended.Part;
      var done := 0;
      ghost var s := View();
      assert data[0..] == data;
      while done < |data|
        invariant 0 <= done <= |data|
        invariant Intended.PutAll(View(), fd, at + done, data[done..]) == Intended.PutAll(s, fd, at, data)
        decreases |data| - done
      {
        PutTurn(View(), fd, at + done, data[done..]);
        var c := Intended.Part(at + done, |data| - done);
        assert data[done..][..c] == data[done..done + c] && data[done..][c..] == data[done + c..];
        PutInBlock(fd, at + done, data[done..done + c]);
        done := done + c;
      }
      PutEnd(View(), fd, at + done);
      assert data[done..] == [];
    }

    /** `f_write` in either variant */
    method WriteFileIn(v: Variant, fd: int, buffer: seq<byte>, ntimes: nat) returns (r: int)
      requires Apart() && ValidFd(fd) && table.Length == FILETABLESIZE
      requires !table[fd].free && table[fd].access != READ && table[fd].node.kind == REG ==>
                 var length := |Repeat(buffer, ntimes)|;
                 if v.AsWritten? then WithinDirect(table[fd], length) else Intended.WithinTree(table[fd], length)
      modifies this, table, inodes, blocks
      ensures (View(), r) == Intended.WriteIn(old(View()), v, fd, Repeat(buffer, ntimes))
    {
      hide Intended.PutAll, WriteCall, Repeat;
      if v.AsWritten? || table[fd].free || table[fd].access == READ || table[fd].node.kind != REG {
        r := WriteFile(fd, buffer, ntimes);
        return;
      }
      var data := LayOut(buffer, ntimes);
      var at := Place(table[fd]);
      PutInBlocks(fd, at, data);
      table[fd] := table[fd].(offset := at + |data|);
      r := |data|;
    }

    // ---- f_read ----

    method Fetch(b: nat, node: Inode) returns (block: Block)
      ensures block == FetchBlock(blocks[..], node, b)
    {
      if b < TRIPLE_BROKEN {
        var number;
        block, number := GetBlockFromIndex(b, node);
      } else {
        block := Zeros(BLOCKSIZE);
      }
    }

    /** The copying loops of lines 1219-1234 */
    method CopyOut(buffer: array<byte>, at: nat, block: Block, from: nat, count: nat)
      requires at + count <= buffer.Length && from + count <= BLOCKSIZE
      modifies buffer
      ensures buffer[..] == Splice(old(buffer[..]), at, block[from..from + count])
    {
      for j := 0 to count
        invariant buffer[..] == Splice(old(buffer[..]), at, block[from..from + j])
      {
        buffer[at + j] := block[from + j];
      }
    }

    /** The inner loop of lines 1213-1237: what is left of `size` and the next block. */
    method ReadOnePass(buffer: array<byte>, at: nat, node: Inode, size: nat, block: nat, blockOffset: nat) returns (left: nat, next: nat)
      requires blockOffset < BLOCKSIZE && at + size <= buffer.Length && buffer as object != blocks as object
      modifies buffer
      ensures var r := ReadPass(blocks[..], node, size, block, blockOffset);
              buffer[..] == Splice(old(buffer[..]), at, r.copied) && left == r.size && next == r.block
    {
      hide FetchBlock, Splice, ReadPass;
      var o: nat, toRead: nat := blockOffset, size;
      left, next := size, block;
      PassStarts(blocks[..], node, size, block, blockOffset);
      ghost var r := ReadPass(blocks[..], node, size, block, blockOffset);
      ghost var copied: seq<byte> := [];
      SpliceNothing(buffer[..], at);
      while left > 0 && toRead > 0
        invariant left <= size && |copied| == size - left && (left > 0 && toRead > 0 ==> o < BLOCKSIZE)
        invariant buffer[..] == Splice(old(buffer[..]), at, copied)
        invariant r == Prepend(copied, PassRest(blocks[..], node, left, next, o, toRead))
        decreases left, toRead
      {
        PassTurn(blocks[..], node, left, next, o);
        var from := Fetch(next, node);
        var rest := BLOCKSIZE - o - 1;
        toRead := if rest >= left then left else rest;
        CopyOut(buffer, at + (size - left), from, o, toRead);
        SpliceMore(old(buffer[..]), at, copied, from[o..o + toRead]);
        PrependMore(copied, from[o..o + toRead], PassRest(blocks[..], node, left - toRead, next + 1, o + toRead, toRead));
        copied := copied + from[o..o + toRead];
        o, left, next := o + toRead, left - toRead, next + 1;
      }
    }

    /** The outer loop of lines 1210-1238 */
    method ReadAllPasses(buffer: array<byte>, slot: Slot, size: nat, ntimes: nat)
      requires 0 <= slot.offset && size <= buffer.Length && buffer as object != blocks as object
      modifies buffer
      ensures var copied := Read(blocks[..], slot, size, ntimes);
              |copied| <= buffer.Length && buffer[..] == Splice(old(buffer[..]), 0, copied)
    {
      hide ReadPass, Splice;
      var block: nat, left: nat := slot.offset / BLOCKSIZE, size;
      var o := slot.offset % BLOCKSIZE;
      SpliceNothing(buffer[..], 0);
      ghost var copied: seq<byte> := [];
      for i := 0 to ntimes
        invariant left <= size && |copied| == size - left
        invariant buffer[..] == Splice(old(buffer[..]), 0, copied)
        invariant copied + ReadPasses(blocks[..], slot.node, left, block, o, ntimes - i) == Read(blocks[..], slot, size, ntimes)
      {
        ghost var pass := ReadPass(blocks[..], slot.node, left, block, o);
        SpliceMore(old(buffer[..]), 0, copied, pass.copied);
        left, block := ReadOnePass(buffer, size - left, slot.node, left, block, o);
        copied := copied + pass.copied;
      }
    }

    /** `f_read` */
    method ReadFile(buffer: array<byte>, size: int, ntimes: int, fd: int) returns (r: int)
      requires table.Length == FILETABLESIZE && buffer as object != blocks as object
      requires ValidFd(fd) ==> 0 <= table[fd].offset && (ReadAllowed(table[fd], size, ntimes) ==> size * ntimes <= buffer.Length)
      modifies buffer
      ensures r == if && 0 <= fd < FILETABLESIZE && (table[fd].access == READ || table[fd].access == READANDWRITE)
                      && 0 < size && 0 < ntimes && size * ntimes <= table[fd].node.size - table[fd].offset
                   then size * ntimes else -1
      ensures r == -1 ==> buffer[..] == old(buffer[..])
      ensures r != -1 ==>
                var copied := Read(blocks[..], table[fd], size, ntimes);
                |copied| <= buffer.Length && buffer[..] == Splice(old(buffer[..]), 0, copied)
      ensures var (copied, answer) := ReadCall(View(), fd, size, ntimes);
              r == answer && |copied| <= buffer.Length && buffer[..] == Splice(old(buffer[..]), 0, copied)
    {
      hide Read, Splice, ReadAllowed;
      if ValidFd(fd) {
        AllowedExactly(table[fd], size, ntimes);
      }
      SpliceNothing(buffer[..], 0);
      if !ValidFd(fd) || !ReadAllowed(table[fd], size, ntimes) {
        return -1;
      }
      MoreIsNotLess(size, ntimes);
      ReadAllPasses(buffer, table[fd], size, ntimes);
      r := size * ntimes;
    }
  }

  /** The walk is at open slot i, and has a slot to go on to. */
  predicate CanWalk(table: seq<Slot>, i: int) {
    0 <= i < |table| && !table[i].free && (i != 0 || FirstFree(table) != -1)
  }

  lemma WalkEnd(inodes: seq<Inode>, blocks: seq<Block>, table: seq<Slot>, i: nat, cur: Entry)
    requires i < |table|
    ensures WalkFrom(inodes, blocks, table, i, [], cur) == Walked(table, FirstFree(table), Some(cur))
  {
  }

  /** One turn of the walk in terms of its two halves. */
  lemma WalkTurn(inodes: seq<Inode>, blocks: seq<Block>, table: seq<Slot>, i: nat, toks: seq<seq<byte>>, cur: Entry)
    requires CanWalk(table, i) && toks != []
    ensures var es := RawEntries(blocks, table[i].node);
            var k := FirstNamed(es, 0, toks[0]);
            var w := WalkFrom(inodes, blocks, table, i, toks, cur);
            if k == |es| then
              var t := LeaveSlot(table, i, ENTRYSIZE * |es|);
              w == Walked(t, if i != 0 then i else FirstFree(t), None)
            else
              var t := LeaveSlot(table, i, 0);
              var (j, u) := EnterSlot(t, i, ReadInode(inodes, es[k].inode));
              (i != 0 || FirstFree(t) != -1) && CanWalk(u, j) && w == WalkFrom(inodes, blocks, u, j, toks[1..], es[k])
  {
    hide DirEntry, FirstNamed;
    var es := RawEntries(blocks, table[i].node);
    var k := FirstNamed(es, 0, toks[0]);
    if k < |es| {
      var t := LeaveSlot(table, i, 0);
      LeaveThenEnter(inodes, table, i, ReadInode(inodes, es[k].inode));
    }
  }

  lemma LeaveThenEnter(inodes: seq<Inode>, table: seq<Slot>, i: nat, node: Inode)
    requires CanWalk(table, i)
    ensures var t := LeaveSlot(table, i, 0);
            var (j, u) := EnterSlot(t, i, node);
            (i != 0 || FirstFree(t) != -1) && CanWalk(u, j)
  {
    var t := LeaveSlot(table, i, 0);
    if i == 0 {
      assert t[FirstFree(table)].free;
    } else {
      assert t[i].free;
    }
    var (j, u) := EnterSlot(t, i, node);
    if j == 0 {
      assert u == t;
    }
  }

  lemma {:induction false} SlotOfFirst(t: seq<Slot>, index: int, k: nat, i: nat)
    requires k <= i < |t| && !t[i].free && t[i].node.index == index
    requires forall j :: 0 <= j < i && !t[j].free ==> t[j].node.index != index
    ensures SlotOfFrom(t, index, k) == i
    decreases i - k
  {
    if k < i {
      SlotOfFirst(t, index, k + 1, i);
    }
  }

  /** The offset plays no part in whether a directory can take an entry. */
  lemma CanAddAtOffset(s: State, p: nat, name: seq<byte>, offset: int)
    requires CanAddTo(s, p, name)
    ensures CanAddTo(WithOffset(s, p, offset), p, name)
  {
  }

  lemma OffsetTwice(s: State, p: nat, a: int, b: int)
    requires p < |s.table|
    ensures WithOffset(WithOffset(s, p, a), p, b) == WithOffset(s, p, b)
  {
    assert s.table[p := s.table[p].(offset := a)][p := s.table[p].(offset := b)] == s.table[p := s.table[p].(offset := b)];
  }

  lemma AppendLeaves(s: State, p: nat, e: Entry)
    requires p < |s.table| && 0 <= s.table[p].node.size < DIRECT_LIMIT
    requires |e.name| < FILENAMEMAX && s.table[p].node.size % ENTRYSIZE == 0
    ensures var t := AppendEntry(s, p, e);
            t.freehead == s.freehead && |t.table| == |s.table| && |t.inodes| == |s.inodes|
  {
    hide Splice, EntryBytes;
  }

  /** Where the last entry and entry k of a directory lie. */
  lemma LastEntryPlace(node: Inode, k: nat)
    requires SizeOk(node) && k < Count(node)
    ensures var lastByte := node.size - ENTRYSIZE;
            && lastByte / BLOCKSIZE < N_DBLOCKS
            && (node.size % ENTRYSIZE == 0 ==>
                  && lastByte / BLOCKSIZE == (Count(node) - 1) / ENTRIES_PER_BLOCK
                  && lastByte % BLOCKSIZE == ENTRYSIZE * ((Count(node) - 1) % ENTRIES_PER_BLOCK)
                  && (lastByte / BLOCKSIZE * BLOCKSIZE == lastByte <==> GivesUpBlock(node)))
    ensures ENTRYSIZE * k / BLOCKSIZE == k / ENTRIES_PER_BLOCK
    ensures ENTRYSIZE * k % BLOCKSIZE == ENTRYSIZE * (k % ENTRIES_PER_BLOCK)
  {
    EntryPlace(ENTRYSIZE * k);
    if node.size % ENTRYSIZE == 0 {
      EntryPlace(node.size - ENTRYSIZE);
    }
  }

  lemma ShrunkDirIs(v: Variant, node: Inode)
    requires SizeOk(node) && 1 <= Count(node) && node.size % ENTRYSIZE == 0
    ensures var lastByte := node.size - ENTRYSIZE;
            lastByte / BLOCKSIZE < N_DBLOCKS
            && ShrunkDir(v, node) == if v.Repaired? && lastByte / BLOCKSIZE * BLOCKSIZE == lastByte && lastByte > 0
               then node.(size := lastByte, last := node.dblocks[lastByte / BLOCKSIZE - 1]) else node.(size := lastByte)
  {
    LastEntryPlace(node, 0);
  }

  /** The directory that the walk of `f_remove` finds holds whole entries and is read at one. */
  predicate FoundAtEntry(s: State, path: seq<byte>)
    requires |s.table| > 0 && Tokens(path, SLASH_QUOTE) != []
  {
    var (t, e) := Walk.Opendir(s, ParentPath(Tokens(path, SLASH_QUOTE)));
    e.Some? && 0 <= DirSlot(t, e.value) ==>
      Listing.AtEntry(t.table[DirSlot(t, e.value)]) && t.table[DirSlot(t, e.value)].node.size % ENTRYSIZE == 0
  }

  lemma SameSlotOf(t: seq<Slot>, p: nat, offset: int, index: int)
    requires p < |t|
    ensures SlotOf(t[p := t[p].(offset := offset)], index) == SlotOf(t, index)
  {
    var u := t[p := t[p].(offset := offset)];
    if SlotOf(t, index) != -1 {
      SlotOfLeast(t, index, 0);
      SlotOfFirst(u, index, 0, SlotOf(t, index));
    }
  }

  lemma {:induction false} SlotOfLeast(t: seq<Slot>, index: int, k: nat)
    requires k <= |t| && forall j :: 0 <= j < k && !t[j].free ==> t[j].node.index != index
    ensures forall j :: 0 <= j < SlotOfFrom(t, index, k) && !t[j].free ==> t[j].node.index != index
    decreases |t| - k
  {
    if k < |t| && (t[k].free || t[k].node.index != index) {
      SlotOfLeast(t, index, k + 1);
    }
  }

  lemma MovedIsLast(s: State, p: nat)
    requires p < |s.table| && SizeOk(s.table[p].node) && 1 <= Count(s.table[p].node)
    ensures var es := Entries(s.blocks, s.table[p].node); MovedEntry(s, s.table[p].node) == es[|es| - 1]
  {
    hide DirEntry;
  }

  lemma FirstRegularStep(inodes: seq<Inode>, es: seq<Entry>, k: nat, name: seq<byte>)
    requires k < |es|
    ensures FirstRegular(inodes, es, k, name)
              == if es[k].name == name && ReadInode(inodes, es[k].inode).kind == REG then k else FirstRegular(inodes, es, k + 1, name)
  {
  }

  lemma DropIgnoresOffset(s: State, v: Variant, p: nat, k: nat, offset: int)
    requires p < |s.table| && SizeOk(s.table[p].node) && k < Count(s.table[p].node)
    requires |MovedEntry(s, s.table[p].node).name| < FILENAMEMAX
    ensures MovedEntry(WithOffset(s, p, offset), s.table[p].node) == MovedEntry(s, s.table[p].node)
    ensures DropEntry(WithOffset(s, p, offset), v, p, k) == DropEntry(s, v, p, k)
  {
    hide EntryReplaced, GetBlock, Splice, DirEntry, ShrunkDir, GivesUpBlock;
  }

  lemma MoreIsNotLess(size: int, times: int)
    requires size > 0 && times > 0
    ensures size <= size * times
  {
  }

  lemma SpliceNothing(b: seq<byte>, at: nat)
    requires at <= |b|
    ensures Splice(b, at, []) == b
  {
  }

  lemma SpliceMore(b: seq<byte>, at: nat, x: seq<byte>, y: seq<byte>)
    requires at + |x| + |y| <= |b|
    ensures Splice(Splice(b, at, x), at + |x|, y) == Splice(b, at, x + y)
  {
  }

  // ---- the inner loop of f_read, one turn at a time ----

  /** What the loop has yet to do when the last turn read toRead bytes. */
  function PassRest(blocks: seq<Block>, node: Inode, left: nat, next: nat, o: nat, toRead: nat): Reading
    requires left > 0 && toRead > 0 ==> o < BLOCKSIZE
  {
    if left > 0 && toRead > 0 then ReadPass(blocks, node, left, next, o) else Reading([], left, next)
  }

  function Prepend(bytes: seq<byte>, r: Reading): Reading { r.(copied := bytes + r.copied) }

  lemma PrependMore(a: seq<byte>, b: seq<byte>, r: Reading)
    ensures Prepend(a, Prepend(b, r)) == Prepend(a + b, r)
  {
    assert a + (b + r.copied) == a + b + r.copied;
  }

  lemma PassStarts(blocks: seq<Block>, node: Inode, size: nat, block: nat, o: nat)
    requires o < BLOCKSIZE
    ensures ReadPass(blocks, node, size, block, o) == Prepend([], PassRest(blocks, node, size, block, o, size))
  {
    var r := ReadPass(blocks, node, size, block, o);
    assert [] + r.copied == r.copied;
  }

  lemma PassTurn(blocks: seq<Block>, node: Inode, left: nat, next: nat, o: nat)
    requires left > 0 && o < BLOCKSIZE
    ensures var c := ReadChunk(left, o);
            && (left - c > 0 && c > 0 ==> o + c < BLOCKSIZE)
            && ReadPass(blocks, node, left, next, o)
                 == Prepend(FetchBlock(blocks, node, next)[o..o + c], PassRest(blocks, node, left - c, next + 1, o + c, c))
  {
    hide FetchBlock;
    var c := ReadChunk(left, o);
    var bytes := FetchBlock(blocks, node, next)[o..o + c];
    assert bytes + [] == bytes;
  }

  // ---- the loops of the intended f_write ----

  lemma AddTurn(s: State, fd: nat, xs: seq<FileTree.Node>)
    requires fd < |s.table| && xs != [] && forall x :: x in xs ==> x.InRange()
    ensures xs[0] in xs && forall x :: x in xs[1..] ==> x in xs
    ensures InstallIntended.AddNodes(s, fd, xs) == InstallIntended.AddNodes(InstallIntended.AddNode(s, fd, xs[0]), fd, xs[1..])
  {
  }

  lemma PutTurn(s: State, fd: nat, at: nat, data: seq<byte>)
    requires fd < |s.table| && at + |data| <= MAX_SIZE && data != []
    ensures var c := Intended.Part(at, |data|);
            && 0 < c <= |data| && at % BLOCKSIZE + c <= BLOCKSIZE
            && Intended.PutAll(s, fd, at, data) == Intended.PutAll(Intended.PutBytes(s, fd, at, data[..c]), fd, at + c, data[c..])
  {
  }

  lemma PutEnd(s: State, fd: nat, at: nat)
    requires fd < |s.table| && at <= MAX_SIZE
    ensures Intended.PutAll(s, fd, at, []) == s
  {
  }
}
