/** The calls of the file system as a user makes them: by path or by file descriptor. */
module Calls {
  import opened Bytes
  import opened Records
  import opened Operations
  import opened Paths
  import opened Walk
  import opened Transfer

  // ---- paths ----

  /** What `f_open` and `f_mkdir` make of the part before the name: a string for `f_opendir`. */
  function ParentPath(toks: seq<seq<byte>>): seq<byte>
    requires toks != []
  {
    PathString(toks[..|toks| - 1])
  }

  function NameOf(toks: seq<seq<byte>>): seq<byte>
    requires toks != []
  {
    toks[|toks| - 1]
  }

  // ---- f_open ----

  /** The first entry with this name that is a regular file (lines 250-278). */
  function FirstRegular(inodes: seq<Inode>, es: seq<Entry>, k: nat, name: seq<byte>): (r: nat)
    requires k <= |es|
    ensures k <= r <= |es|
    ensures r < |es| ==> es[r].name == name && ReadInode(inodes, es[r].inode).kind == REG
    ensures forall j :: k <= j < r ==> es[j].name != name || ReadInode(inodes, es[j].inode).kind != REG
    decreases |es| - k
  {
    if k == |es| || (es[k].name == name && ReadInode(inodes, es[k].inode).kind == REG) then k
    else FirstRegular(inodes, es, k + 1, name)
  }

  function WithOffset(s: State, p: nat, offset: int): State
    requires p < |s.table|
  {
    SetSlot(s, p, s.table[p].(offset := offset))
  }

  /** Lines 259-274: the file goes to the slot at the free head, whether or not it is open already. */
  function OpenExisting(s: State, node: Inode, access: Access): State
    requires 0 <= s.freehead < |s.table|
  {
    var table := s.table[s.freehead := Slot(false, node, 0, access)];
    s.(table := table, freehead := FirstFree(table))
  }

  /** `f_open` once the directory is open in slot p: new state and file descriptor. */
  function OpenIn(s: State, p: nat, name: seq<byte>, access: Access): (State, int)
    requires p < |s.table| && 0 <= s.freehead < |s.table|
    requires var es := RawEntries(s.blocks, s.table[p].node);
             FirstRegular(s.inodes, es, 0, name) == |es| && access != READ && s.sb.freeInode != -1 ==> CanAddTo(s, p, name)
  {
    var es := RawEntries(s.blocks, s.table[p].node);
    var k := FirstRegular(s.inodes, es, 0, name);
    if k < |es| then (OpenExisting(WithOffset(s, p, ENTRYSIZE * (k + 1)), ReadInode(s.inodes, es[k].inode), access), s.freehead)
    else
      var s1 := WithOffset(s, p, ENTRYSIZE * |es|);
      if access == READ || s.sb.freeInode == -1 then (s1, -1)
      else (CreateFile(s1, p, name, access), s.freehead)
  }

  // ---- f_mkdir ----

  /** `f_mkdir` once the directory is open in slot p. */
  function MkdirIn(s: State, v: Variant, p: nat, name: seq<byte>): State
    requires s.sb.freeInode != -1 ==> CanAddTo(s, p, name)
  {
    if s.sb.freeInode == -1 then s else MakeDir(s, v, p, name)
  }

  // ---- whole calls by path ----

  /** The slot of the directory that the walk has opened. */
  function DirSlot(t: State, e: Entry): int { SlotOf(t.table, e.inode) }

  predicate CanOpen(s: State, path: seq<byte>, access: Access) {
    && |s.table| > 0 && Tokens(path, SLASH_ONLY) != []
    && var (t, e) := Opendir(s, ParentPath(Tokens(path, SLASH_ONLY)));
       e.Some? ==>
         && 0 <= DirSlot(t, e.value) < |t.table| && 0 <= t.freehead < |t.table|
         && var p := DirSlot(t, e.value);
            var es := RawEntries(t.blocks, t.table[p].node);
            (FirstRegular(t.inodes, es, 0, NameOf(Tokens(path, SLASH_ONLY))) == |es| && access != READ && t.sb.freeInode != -1 ==>
               CanAddTo(t, p, NameOf(Tokens(path, SLASH_ONLY))))
  }

  /** `f_open` */
  function OpenPath(s: State, path: seq<byte>, access: Access): (State, int)
    requires CanOpen(s, path, access)
  {
    var toks := Tokens(path, SLASH_ONLY);
    var (t, e) := Opendir(s, ParentPath(toks));
    if e.None? then (t, -1) else OpenIn(t, DirSlot(t, e.value), NameOf(toks), access)
  }

  predicate CanMkdir(s: State, path: seq<byte>) {
    && |s.table| > 0 && Tokens(path, SLASH_ONLY) != []
    && var (t, e) := Opendir(s, ParentPath(Tokens(path, SLASH_ONLY)));
       e.Some? ==>
         && 0 <= DirSlot(t, e.value)
         && (t.sb.freeInode != -1 ==> CanAddTo(t, DirSlot(t, e.value), NameOf(Tokens(path, SLASH_ONLY))))
  }

  /** `f_mkdir` */
  function MkdirPath(s: State, v: Variant, path: seq<byte>): State
    requires CanMkdir(s, path)
  {
    var toks := Tokens(path, SLASH_ONLY);
    var (t, e) := Opendir(s, ParentPath(toks));
    if e.None? then t else MkdirIn(t, v, DirSlot(t, e.value), NameOf(toks))
  }

  /** What `f_mkdir` returns: the entry it has made, or NULL. */
  function MkdirResult(s: State, path: seq<byte>): Option<Entry>
    requires CanMkdir(s, path)
  {
    var toks := Tokens(path, SLASH_ONLY);
    var (t, e) := Opendir(s, ParentPath(toks));
    if e.None? || t.sb.freeInode == -1 then None else Some(Entry(t.sb.freeInode, NameOf(toks)))
  }

  predicate CanRemovePath(s: State, v: Variant, path: seq<byte>) {
    && |s.table| > 0 && Tokens(path, SLASH_QUOTE) != []
    && var (t, e) := Opendir(s, ParentPath(Tokens(path, SLASH_QUOTE)));
       e.Some? ==> 0 <= DirSlot(t, e.value) && CanRemoveFrom(t, v, DirSlot(t, e.value), NameOf(Tokens(path, SLASH_QUOTE)))
  }

  /** `f_remove` */
  function RemovePath(s: State, v: Variant, path: seq<byte>, stale: Block): (State, bool)
    requires CanRemovePath(s, v, path)
  {
    var toks := Tokens(path, SLASH_QUOTE);
    var (t, e) := Opendir(s, ParentPath(toks));
    if e.None? then (t, false) else RemoveName(t, v, DirSlot(t, e.value), NameOf(toks), stale)
  }

  // ---- descriptors ----

  predicate ValidFd(fd: int) { 0 <= fd < FILETABLESIZE }

  /** `f_close` */
  function Close(s: State, fd: int): State
    requires |s.table| == FILETABLESIZE
  {
    if !ValidFd(fd) then s
    else
      var table := s.table[fd := s.table[fd].(free := true)];
      s.(table := table, freehead := FirstFree(table))
  }

  datatype Whence = SEEKSET | SEEKCUR | SEEKEND

  /** The offset `f_seek` sets, or the old one. */
  function SeekTo(slot: Slot, offset: int, whence: Whence): int {
    if offset < 0 then slot.offset
    else match whence
      case SEEKSET => if offset <= slot.node.size then offset else slot.offset
      case SEEKCUR => if slot.offset + offset <= slot.node.size then slot.offset + offset else slot.offset
      case SEEKEND => slot.offset
  }

  /** `f_seek` */
  function Seek(s: State, fd: int, offset: int, whence: Whence): State
    requires |s.table| == FILETABLESIZE
  {
    if !ValidFd(fd) then s else WithOffset(s, fd, SeekTo(s.table[fd], offset, whence))
  }

  /** `f_write` with its tests (lines 407-415 and 576-580). */
  function WriteCall(s: State, fd: int, data: seq<byte>): (State, int)
    requires ValidFd(fd) && |s.table| == FILETABLESIZE
    requires var slot := s.table[fd];
             !slot.free && slot.access != READ && slot.node.kind == REG ==> WithinDirect(slot, |data|)
  {
    var slot := s.table[fd];
    if slot.free || slot.access == READ then (s, -1)
    else if slot.node.kind == REG then Write(s, fd, data)
    else (s, 0)
  }

  /** `f_read` with its tests (lines 1181-1206): what it copies and what it returns. */
  function ReadCall(s: State, fd: int, size: int, times: int): (seq<byte>, int)
    requires |s.table| == FILETABLESIZE && (ValidFd(fd) ==> 0 <= s.table[fd].offset)
  {
    if !ValidFd(fd) || !ReadAllowed(s.table[fd], size, times) then ([], -1)
    else (Read(s.blocks, s.table[fd], size, times), size * times)
  }
}
