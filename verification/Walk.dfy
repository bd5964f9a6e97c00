/** `f_opendir`: the walk from the root through the open-file table, and the plain lookup in
    the directory tree that it is meant to compute. */
module Walk {
  import opened Bytes
  import opened Records
  import opened Paths

  const ROOT_ENTRY: Entry := Entry(0, [SLASH])

  /** The inode read from a number: `fread` leaves the zeroed struct when there is none. */
  function ReadInode(inodes: seq<Inode>, i: int): Inode {
    if 0 <= i < |inodes| then inodes[i]
    else Inode(0, 0, 0, 0, 0, [0, 0, 0, 0, 0, 0, 0, 0, 0, 0], [0, 0, 0, 0], 0, 0, 0)
  }

  /** What `f_readdir` returns, call after call, for any inode: it never looks at the type. */
  function RawEntries(blocks: seq<Block>, node: Inode): seq<Entry> {
    if SizeOk(node) then Entries(blocks, node) else []
  }

  datatype Walked = Walked(table: seq<Slot>, freehead: int, entry: Option<Entry>)

  /** The slot the walk is at, once it has been scanned: kept open only if it is the root's. */
  function LeaveSlot(table: seq<Slot>, i: nat, offset: int): seq<Slot>
    requires i < |table|
  {
    table[i := table[i].(offset := offset, free := i != 0 || table[i].free)]
  }

  /** Where the walk goes from slot i to the inode it has found: the new slot and the table. */
  function EnterSlot(table: seq<Slot>, i: nat, node: Inode): (int, seq<Slot>)
    requires i < |table|
  {
    var fd := SlotOf(table, node.index);
    var fh := if i != 0 then i else FirstFree(table);
    if fd != -1 then (fd, table)
    else if fh == -1 then (-1, table)
    else (fh, table[fh := Slot(false, node, 0, READANDWRITE)])
  }

  /** The loop of `f_opendir` (lines 957-1012) from slot i on. */
  function WalkFrom(inodes: seq<Inode>, blocks: seq<Block>, table: seq<Slot>, i: nat, toks: seq<seq<byte>>, cur: Entry): Walked
    requires i < |table|
    decreases |toks|
  {
    if toks == [] then Walked(table, FirstFree(table), Some(cur))
    else
      var es := RawEntries(blocks, table[i].node);
      var k := FirstNamed(es, 0, toks[0]);
      if k == |es| then
        var t := LeaveSlot(table, i, ENTRYSIZE * |es|);
        Walked(t, if i != 0 then i else FirstFree(t), None)
      else
        var (j, t) := EnterSlot(LeaveSlot(table, i, 0), i, ReadInode(inodes, es[k].inode));
        if j == -1 then Walked(t, -1, None) else WalkFrom(inodes, blocks, t, j, toks[1..], es[k])
  }

  /** The table once `f_opendir` has the root in slot 0 (lines 928-952). */
  function WithRoot(inodes: seq<Inode>, table: seq<Slot>): seq<Slot>
    requires |table| > 0
  {
    if table[0].free then table[0 := Slot(false, ReadInode(inodes, 0), 0, READANDWRITE)]
    else table[0 := table[0].(offset := 0)]
  }

  /** `f_opendir`: the new state and the entry returned. */
  function Opendir(s: State, path: seq<byte>): (State, Option<Entry>)
    requires |s.table| > 0
  {
    var w := WalkFrom(s.inodes, s.blocks, WithRoot(s.inodes, s.table), 0, Tokens(path, SLASH_QUOTE), ROOT_ENTRY);
    (s.(table := w.table, freehead := w.freehead), w.entry)
  }

  /** The plain lookup: first match in each directory, failing at a regular file. */
  function Lookup(inodes: seq<Inode>, blocks: seq<Block>, cur: int, toks: seq<seq<byte>>, found: Entry): Option<Entry>
    decreases |toks|
  {
    if toks == [] then Some(found)
    else
      var node := ReadInode(inodes, cur);
      var es := RawEntries(blocks, node);
      var k := FirstNamed(es, 0, toks[0]);
      if node.kind != DIR || k == |es| then None
      else Lookup(inodes, blocks, es[k].inode, toks[1..], es[k])
  }

  /** The lookup that the walk makes: it never asks what kind of inode it is in, and it goes on at
      the number that the inode it has read remembers. */
  function Follow(inodes: seq<Inode>, blocks: seq<Block>, cur: int, toks: seq<seq<byte>>, found: Entry): Option<Entry>
    decreases |toks|
  {
    if toks == [] then Some(found)
    else
      var es := RawEntries(blocks, ReadInode(inodes, cur));
      var k := FirstNamed(es, 0, toks[0]);
      if k == |es| then None else Follow(inodes, blocks, ReadInode(inodes, es[k].inode).index, toks[1..], es[k])
  }

  /** On its way the lookup looks for a token in an inode that is no directory. */
  predicate PassesFile(inodes: seq<Inode>, blocks: seq<Block>, cur: int, toks: seq<seq<byte>>)
    decreases |toks|
  {
    toks != [] &&
    var node := ReadInode(inodes, cur);
    var es := RawEntries(blocks, node);
    var k := FirstNamed(es, 0, toks[0]);
    node.kind != DIR || (k < |es| && PassesFile(inodes, blocks, ReadInode(inodes, es[k].inode).index, toks[1..]))
  }

  /** The bytes of a regular file, read as entries, lead the walk to an answer. */
  predicate Forged(inodes: seq<Inode>, blocks: seq<Block>, cur: int, toks: seq<seq<byte>>) {
    PassesFile(inodes, blocks, cur, toks) && Follow(inodes, blocks, cur, toks, ROOT_ENTRY).Some?
  }
}
