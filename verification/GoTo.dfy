/** `goto_destination` for absolute paths and the upward walk of `convert_absolute`, on the file
    system in memory. */
module GoTo {
  import opened Bytes
  import opened Records
  import opened Paths
  import opened Walk
  import opened Calls
  import opened OpenFiles
  import opened Invariant
  import opened Absolute
  import Transfer
  import Opendir
  import Conservation
  import Listing
  import Guards
  import FileSystem

  // ---- slots ----

  /** There are this many free slots. */
  ghost predicate Room(table: seq<Slot>, n: int) {
    |Opendir.OpenSet(table)| + n <= FILETABLESIZE
  }

  lemma OpenSetWithin(table: seq<Slot>)
    ensures |Opendir.OpenSet(table)| <= |table|
    ensures FirstFree(table) == -1 ==> |Opendir.OpenSet(table)| == |table|
  {
    var a := Opendir.OpenSet(table);
    var b := Conservation.Numbers(|table|);
    Opendir.SubsetSize(a, b);
    if FirstFree(table) == -1 {
      assert a == b;
    }
  }

  /** Opening takes at most one slot, and none for what is open. */
  lemma AddTakesOne(table: seq<Slot>, node: Inode, access: Access, n: int)
    requires Room(table, n) && |table| == FILETABLESIZE
    requires n >= 1 || SlotOf(table, node.index) != -1
    ensures var (t, fd) := AddToTable(table, node, access);
            fd != -1 && Room(t, if SlotOf(table, node.index) != -1 then n else n - 1)
  {
    OpenSetWithin(table);
    var (t, fd) := AddToTable(table, node, access);
    if SlotOf(table, node.index) == -1 {
      assert Opendir.OpenSet(t) == Opendir.OpenSet(table) + {fd};
    }
  }

  lemma TableSwap(s: State, g: Ghost, table: seq<Slot>)
    requires Inv(s, g) && TableOk(table, s.inodes, g.role)
    ensures Inv(s.(table := table), g)
  {
    hide FreeInodes, FreeBlocks, Owners, Deeps, Lasts, DirsMatch, Tree, InodesOk;
  }

  lemma TableOkOf(s: State, g: Ghost)
    requires Inv(s, g)
    ensures TableOk(s.table, s.inodes, g.role) && |s.table| == FILETABLESIZE
  {
  }

  // ---- the directory above ----

  /** Where a directory lists a child, ".", and "..". */
  lemma ChildPlace(s: State, g: Ghost, cur: int, k: nat)
    requires Used(s, g, cur) && cur != 0 && |g.dirs| == |s.inodes| && UniqueNames(s, g)
    requires 0 <= s.inodes[cur].parent < |s.inodes| && k < |g.dirs[s.inodes[cur].parent]|
    ensures var p := s.inodes[cur].parent;
            var es := g.dirs[p];
            && |g.pos| == |s.inodes| && Used(s, g, p)
            && (es[k].inode == cur <==> k == g.pos[cur])
            && (es[k].name == DOTDOT <==> k == 1)
            && (k == 1 ==> es[k].inode == s.inodes[p].parent && Used(s, g, es[k].inode))
            && 2 <= g.pos[cur] < |es| && es[g.pos[cur]].name == NameIn(s, g, cur)
  {
    hide FreeInodes, FreeBlocks, Owners, Deeps, Lasts, DirsMatch, TableOk, Names;
    ParentIsDir(s, g, cur);
    var p := s.inodes[cur].parent;
    EntryLeads(s, g, p, k);
    EntryLeads(s, g, p, 1);
    assert DotsOk(g.dirs[p], p, s.inodes[p].parent);
    if k >= 2 {
      assert ChildOk(s.inodes, g.role, g.pos, g.dirs[p][k], p, k);
    }
    if p != 0 {
      ParentIsDir(s, g, p);
    }
  }

  /** What an open slot of a directory shows. */
  lemma SlotShows(s: State, g: Ghost, fd: nat, p: int)
    requires Inv(s, g) && fd < |s.table| && !s.table[fd].free && s.table[fd].node.index == p
    requires UsedDir(s.inodes, g.role, p)
    ensures |g.dirs| == |s.inodes| && s.table[fd].node == s.inodes[p] && s.inodes[p].index == p
    ensures SizeOk(s.inodes[p]) && Entries(s.blocks, s.inodes[p]) == g.dirs[p] && s.inodes[p].size == ENTRYSIZE * |g.dirs[p]|
  {
    hide FreeInodes, FreeBlocks, Owners, Deeps, Lasts, Tree;
    assert SlotOk(s.table[fd], s.inodes, g.role) && InodeOk(s.inodes[p], p, g.role[p]);
    assert EntriesMatch(s.inodes[p], s.blocks, g.dirs[p]);
  }

  /** The state does change while a directory is read, but not in what is listed here. */
  lemma NamesStay(s: State, g: Ghost, t: State, i: int)
    requires Used(s, g, i) && Inv(t, g) && t.inodes == s.inodes
    ensures Used(t, g, i) && Names(t, g, i) == Names(s, g, i)
    decreases g.rank[i]
  {
    hide Inv;
    if i != 0 {
      ParentIsDir(s, g, i);
      NamesStay(s, g, t, s.inodes[i].parent);
    }
  }

  /** The inner loop of `convert_absolute` (lines 2141-2174): the name of the directory's child cur and
      the inode above the directory. */
  method ScanForChild(fs: FileSystem.FileSystem, fd: nat, cur: int, ghost g: Ghost) returns (name: seq<byte>, up: Inode)
    requires fs.Apart() && Used(fs.View(), g, cur) && cur != 0 && |g.dirs| == |fs.View().inodes| && UniqueNames(fs.View(), g)
    requires fd < fs.table.Length && !fs.table[fd].free && fs.table[fd].node.index == fs.inodes[cur].parent && fs.table[fd].offset == 0
    modifies fs.table
    ensures fs.View() == old(fs.View()).(table := fs.table[..]) && Inv(fs.View(), g)
    ensures fs.table[..] == old(fs.table[..])[fd := fs.table[fd]] && fs.table[fd] == old(fs.table[fd]).(offset := fs.table[fd].offset)
    ensures name == NameIn(old(fs.View()), g, cur)
    ensures var p := fs.inodes[cur].parent;
            0 <= p < |fs.View().inodes| && Used(fs.View(), g, fs.View().inodes[p].parent) && up == fs.View().inodes[fs.View().inodes[p].parent]
  {
    hide Inv, UniqueNames, NameIn, Listing.Readdir, DirEntry;
    ghost var s := fs.View();
    ghost var p := s.inodes[cur].parent;
    ParentIsDir(s, g, cur);
    SlotShows(s, g, fd, p);
    TableOkOf(s, g);
    ghost var es := g.dirs[p];
    var size := fs.table[fd].node.size;
    var i, k := 0, 0;
    up := fs.table[fd].node;
    name := [];
    while i < size
      invariant i == ENTRYSIZE * k && 0 <= k <= |es| && k <= g.pos[cur]
      invariant fs.View() == WithOffset(s, fd, ENTRYSIZE * k)
      invariant k > 1 ==> Used(s, g, s.inodes[p].parent) && up == s.inodes[s.inodes[p].parent]
      decreases size - i
    {
      ChildPlace(s, g, cur, k);
      Listing.ReaddirReturns(fs.View(), fd, k);
      var entry := fs.ReadDir(fd);
      assert entry == Some(es[k]);
      if entry.value.name == DOTDOT {
        up := fs.GetInode(entry.value.inode);
      }
      if entry.value.inode == cur {
        name := entry.value.name;
        Guards.OffsetKeeps(s, g, fd, ENTRYSIZE * (k + 1));
        assert fs.View() == WithOffset(s, fd, ENTRYSIZE * (k + 1));
        assert fs.table[fd] == old(fs.table[fd]).(offset := fs.table[fd].offset);
        return;
      }
      i, k := i + ENTRYSIZE, k + 1;
    }
    assert false;
  }

  // ---- the walk up ----

  /** Slot fd is open, rewound, and holds the parent of cur; the root is open; there are slots for the
      directories above. */
  ghost predicate Climbing(s: State, g: Ghost, cur: int, fd: int) {
    && Used(s, g, cur) && |g.dirs| == |s.inodes| && UniqueNames(s, g) && Room(s.table, g.rank[cur] as int - 2)
    && 0 <= fd < |s.table| == FILETABLESIZE && !s.table[0].free && s.table[0].node.index == 0
    && !s.table[fd].free && s.table[fd].offset == 0 && s.table[fd].node.index == s.inodes[cur].parent
  }

  lemma RootSlot(s: State, g: Ghost)
    requires Inv(s, g) && !s.table[0].free
    ensures s.table[0].node.index == 0 && SlotOf(s.table, 0) == 0
  {
    hide FreeInodes, FreeBlocks, Owners, Deeps, Lasts, DirsMatch, Tree, InodesOk;
  }

  /** A directory that is not open is not the root, so what is in it lies two levels down at least. */
  lemma ClosedIsDeep(s: State, g: Ghost, p: int)
    requires Used(s, g, p) && !s.table[0].free && Used(s, g, s.inodes[p].parent)
    requires SlotOf(s.table, s.inodes[p].parent) == -1
    ensures g.rank[p] >= 2
  {
    hide Inv;
    RootSlot(s, g);
    RootFacts(s, g);
    ParentIsDir(s, g, p);
    ParentIsDir(s, g, s.inodes[p].parent);
  }

  /** Opening the directory above the next one keeps the walk going. */
  lemma ClimbOn(s: State, g: Ghost, p: int)
    requires Used(s, g, p) && |g.dirs| == |s.inodes| && UniqueNames(s, g) && !s.table[0].free && |s.table| == FILETABLESIZE
    requires Room(s.table, g.rank[p] as int - 1) && Used(s, g, s.inodes[p].parent)
    ensures var up := s.inodes[s.inodes[p].parent];
            var (t, fd) := AddToTable(s.table, up, APPEND);
            && 0 <= fd < |t| == FILETABLESIZE && up.index == s.inodes[p].parent
            && Climbing(s.(table := t[fd := t[fd].(offset := 0)]), g, p, fd)
            && t[fd].node == up
  {
    hide Inv, UniqueNames, Names;
    var q := s.inodes[p].parent;
    var up := s.inodes[q];
    UpFacts(s, g, q);
    RootSlot(s, g);
    TableOkOf(s, g);
    OpenSetWithin(s.table);
    if SlotOf(s.table, q) == -1 {
      ClosedIsDeep(s, g, p);
      AddTakesOne(s.table, up, APPEND, g.rank[p] as int - 1);
    } else {
      AddTakesOne(s.table, up, APPEND, Transfer.Max(0, g.rank[p] as int - 1));
    }
    AddKeepsTable(s.table, s.inodes, g.role, q, APPEND);
    var (t, fd) := AddToTable(s.table, up, APPEND);
    TableSwap(s, g, t);
    Rewound(s.(table := t), g, fd);
    assert t[0] == s.table[0];
    UniqueStay(s, g, s.(table := t[fd := t[fd].(offset := 0)]));
  }

  /** The directories above inode i; above the root, the root. */
  ghost function AllAbove(s: State, g: Ghost, i: int): (r: set<int>)
    requires Used(s, g, i)
    ensures s.inodes[i].parent in r
    decreases g.rank[i]
  {
    RootFacts(s, g);
    if i == 0 then {0}
    else
      ParentIsDir(s, g, i);
      {s.inodes[i].parent as int} + AllAbove(s, g, s.inodes[i].parent)
  }

  /** Nothing has been closed, and what was open is as it was but for its offset; what has been opened is
      one of these directories, with APPEND. */
  ghost predicate OnlyOpens(inodes: seq<Inode>, base: seq<Slot>, table: seq<Slot>, dirs: set<int>) {
    && |table| == |base|
    && forall u {:trigger table[u]} :: 0 <= u < |base| ==> OpensAt(inodes, base[u], table[u], dirs)
  }

  ghost predicate OpensAt(inodes: seq<Inode>, was: Slot, now: Slot, dirs: set<int>) {
    if !was.free then now == was.(offset := now.offset)
    else
      || now == was
      || (0 <= now.node.index < |inodes| && now.node.index in dirs && now == Slot(false, inodes[now.node.index], now.offset, APPEND))
  }

  ghost predicate AllOpen(table: seq<Slot>, dirs: set<int>) {
    forall a {:trigger SlotOf(table, a)} :: a in dirs ==> SlotOf(table, a) != -1
  }

  lemma OpensNothing(inodes: seq<Inode>, table: seq<Slot>, dirs: set<int>)
    ensures OnlyOpens(inodes, table, table, dirs)
  {
    forall u | 0 <= u < |table| ensures OpensAt(inodes, table[u], table[u], dirs) {
      assert table[u].(offset := table[u].offset) == table[u];
    }
  }

  /** Another offset of an open slot. */
  lemma OffsetOpens(inodes: seq<Inode>, base: seq<Slot>, table: seq<Slot>, dirs: set<int>, fd: nat, slot: Slot, open: set<int>)
    requires OnlyOpens(inodes, base, table, dirs) && AllOpen(table, open)
    requires fd < |table| && !table[fd].free && slot == table[fd].(offset := slot.offset)
    ensures OnlyOpens(inodes, base, table[fd := slot], dirs) && AllOpen(table[fd := slot], open)
  {
    forall u | 0 <= u < |base| ensures OpensAt(inodes, base[u], table[fd := slot][u], dirs) {
      assert OpensAt(inodes, base[u], table[u], dirs);
    }
    forall a | a in open ensures SlotOf(table[fd := slot], a) != -1 {
      StillOpen(table, table[fd := slot], a);
    }
  }

  lemma StillOpen(table: seq<Slot>, t: seq<Slot>, a: int)
    requires |t| == |table| && SlotOf(table, a) != -1
    requires forall u :: 0 <= u < |table| && !table[u].free ==> !t[u].free && t[u].node == table[u].node
    ensures SlotOf(t, a) != -1
  {
    var u := SlotOf(table, a);
    assert !t[u].free && t[u].node.index == a;
  }

  /** One more directory. */
  lemma AddOpens(inodes: seq<Inode>, base: seq<Slot>, table: seq<Slot>, dirs: set<int>, node: Inode, open: set<int>)
    requires OnlyOpens(inodes, base, table, dirs) && AllOpen(table, open)
    requires 0 <= node.index < |inodes| && node == inodes[node.index] && node.index in dirs && AddToTable(table, node, APPEND).1 != -1
    ensures var (t, fd) := AddToTable(table, node, APPEND);
            && 0 <= fd < |t|
            && OnlyOpens(inodes, base, t[fd := t[fd].(offset := 0)], dirs)
            && AllOpen(t[fd := t[fd].(offset := 0)], open + {node.index as int})
  {
    var (t, fd) := AddToTable(table, node, APPEND);
    var now := t[fd := t[fd].(offset := 0)];
    forall u | 0 <= u < |base| ensures OpensAt(inodes, base[u], now[u], dirs) {
      assert OpensAt(inodes, base[u], table[u], dirs);
    }
    forall a | a in open + {node.index as int} ensures SlotOf(now, a) != -1 {
      if a == node.index {
        assert !now[fd].free && now[fd].node.index == a;
      } else {
        StillOpen(table, now, a);
      }
    }
  }

  lemma UniqueStay(s: State, g: Ghost, t: State)
    requires |g.role| == |g.dirs| == |s.inodes| && UniqueNames(s, g) && t.inodes == s.inodes
    ensures UniqueNames(t, g)
  {
  }

  lemma UpFacts(s: State, g: Ghost, q: int)
    requires Used(s, g, q)
    ensures s.inodes[q].index == q && s.inodes[q].size >= 0
  {
    hide FreeInodes, FreeBlocks, Owners, Deeps, Lasts, DirsMatch, Tree, TableOk;
    assert InodeOk(s.inodes[q], q, g.role[q]);
  }

  lemma Rewound(s: State, g: Ghost, fd: nat)
    requires Inv(s, g) && fd < |s.table| && !s.table[fd].free
    ensures var t := s.table[fd := s.table[fd].(offset := 0)];
            && Inv(s.(table := t), g) && Opendir.OpenSet(t) == Opendir.OpenSet(s.table)
  {
    hide FreeInodes, FreeBlocks, Owners, Deeps, Lasts, DirsMatch, Tree, InodesOk;
    assert SlotOk(s.table[fd], s.inodes, g.role);
    Guards.OffsetKeeps(s, g, fd, 0);
  }

  /** One level of the path is printed. */
  lemma NamesGrow(s: State, g: Ghost, cur: int, lower: seq<seq<byte>>, all: seq<seq<byte>>)
    requires Used(s, g, cur) && cur != 0 && all == Names(s, g, cur) + lower
    ensures Used(s, g, s.inodes[cur].parent)
    ensures all == Names(s, g, s.inodes[cur].parent) + ([NameIn(s, g, cur)] + lower)
  {
    hide Inv;
    ParentIsDir(s, g, cur);
  }

  /** The collected names, last one first. */
  function Reversed(names: seq<seq<byte>>): (r: seq<seq<byte>>)
    ensures |r| == |names| && forall k :: 0 <= k < |r| ==> r[k] == names[|names| - 1 - k]
  {
    if names == [] then [] else [names[|names| - 1]] + Reversed(names[..|names| - 1])
  }

  /** The last loop of `convert_absolute` (lines 2185-2200) */
  method BuildPath(collection: seq<seq<byte>>) returns (path: seq<byte>)
    ensures path == Printed(Reversed(collection))
  {
    var count := |collection|;
    if count == 0 {
      return [SLASH];
    }
    path := [];
    ghost var all := Reversed(collection);
    while count > 0
      invariant 0 <= count <= |collection|
      invariant path + PathString(all[|collection| - count..]) == PathString(all)
    {
      count := count - 1;
      ghost var rest := all[|collection| - count - 1..];
      assert rest[0] == collection[count] && rest[1..] == all[|collection| - count..];
      path := path + [SLASH] + collection[count];
    }
    assert all[|collection|..] == [];
  }

  /** The walk of `convert_absolute` (lines 2128-2203) from an open inode d: it ends because the
      depth shrinks, and prints the names from the root down to d. */
  method ConvertAbsolute(fs: FileSystem.FileSystem, d: int, ghost g: Ghost) returns (path: seq<byte>)
    requires fs.Apart() && Used(fs.View(), g, d) && |g.dirs| == |fs.View().inodes| && UniqueNames(fs.View(), g)
    requires fs.table.Length == FILETABLESIZE && !fs.table[0].free
    requires SlotOf(fs.table[..], d) != -1 && Room(fs.table[..], g.rank[d] as int - 1)
    modifies fs.table
    ensures fs.View() == old(fs.View()).(table := fs.table[..]) && Inv(fs.View(), g)
    ensures path == Printed(Names(old(fs.View()), g, d))
    ensures OnlyOpens(old(fs.inodes[..]), old(fs.table[..]), fs.table[..], AllAbove(old(fs.View()), g, d))
    ensures AllOpen(fs.table[..], AllAbove(old(fs.View()), g, d))
  {
    hide Inv, UniqueNames, NameIn, AddToTable, Opendir.OpenSet, SlotOf, Room, OnlyOpens, AllOpen, AllAbove;
    ghost var s := fs.View();
    ghost var dirs := AllAbove(s, g, d);
    OpensNothing(s.inodes, s.table, dirs);
    var curFd := fs.AlreadyInTable(d);
    ParentUsed(s, g, d);
    SlotIs(s, g, d);
    var parent := fs.GetInode(fs.table[curFd].node.parent);
    ClimbOn(s, g, d);
    NoneOpen(s.table);
    AddOpens(s.inodes, s.table, s.table, dirs, parent, {});
    var fd := fs.AddToFileTable(parent, APPEND);
    parent := fs.table[fd].node;
    var oldParent := parent.index;
    fs.table[fd] := fs.table[fd].(offset := 0);
    var cur := d;
    var collection: seq<seq<byte>> := [];
    assert fs.View() == s.(table := fs.table[..]);
    OpenFirst(s, g, fs.table[..], d);
    NamesStay(s, g, fs.View(), d);
    ghost var all := Names(s, g, d);
    assert all == Names(fs.View(), g, d) + Reversed([]);
    while cur > 0
      invariant fs.View() == s.(table := fs.table[..]) && Climbing(fs.View(), g, cur, fd)
      invariant oldParent == s.inodes[cur].parent && Used(s, g, cur) && Used(s, g, oldParent)
      invariant OnlyOpens(s.inodes, s.table, fs.table[..], dirs) && AllOpen(fs.table[..], dirs - AllAbove(s, g, oldParent))
      invariant AllAbove(s, g, cur) <= dirs
      invariant all == Names(fs.View(), g, cur) + Reversed(collection)
      decreases g.rank[cur]
    {
      ghost var t := fs.View();
      ParentIsDir(t, g, cur);
      NamesGrow(t, g, cur, Reversed(collection), all);
      ParentUsed(t, g, oldParent);
      var name, up := ScanForChild(fs, fd, cur, g);
      ScanKeepsRoom(t, g, cur, fd, fs.View());
      ghost var u := fs.View();
      OffsetOpens(s.inodes, s.table, t.table, dirs, fd, u.table[fd], dirs - AllAbove(s, g, oldParent));
      ClimbOn(u, g, oldParent);
      OneUp(s, g, u.table, cur, dirs);
      AddOpens(s.inodes, s.table, u.table, dirs, up, dirs - AllAbove(s, g, oldParent));
      fd := fs.AddToFileTable(up, APPEND);
      assert (collection + [name])[..|collection|] == collection;
      collection := collection + [name];
      fs.table[fd] := fs.table[fd].(offset := 0);
      assert fs.View() == s.(table := fs.table[..]);
      NamesStay(t, g, fs.View(), oldParent);
      OneUpOpen(s, g, fs.table[..], oldParent, dirs);
      cur, oldParent := oldParent, up.index;
    }
    TopOpen(s, g, fs.View(), dirs);
    assert Names(fs.View(), g, cur) == [];
    assert all == Reversed(collection);
    path := BuildPath(collection);
  }

  lemma NoneOpen(table: seq<Slot>)
    ensures AllOpen(table, {})
  {
  }

  lemma OpenFirst(s: State, g: Ghost, table: seq<Slot>, d: int)
    requires Used(s, g, d) && AllOpen(table, {} + {s.inodes[d].parent as int})
    ensures Used(s, g, s.inodes[d].parent)
    ensures AllOpen(table, AllAbove(s, g, d) - AllAbove(s, g, s.inodes[d].parent))
  {
    hide Inv;
    RootFacts(s, g);
    ParentUsed(s, g, d);
  }

  /** What is above the next directory is above the last one. */
  lemma OneUp(s: State, g: Ghost, table: seq<Slot>, cur: int, dirs: set<int>)
    requires Used(s, g, cur) && cur != 0 && AllAbove(s, g, cur) <= dirs
    ensures Used(s, g, s.inodes[cur].parent) && AllAbove(s, g, s.inodes[cur].parent) <= dirs
    ensures s.inodes[s.inodes[cur].parent].parent in dirs
  {
    hide Inv;
    ParentUsed(s, g, cur);
  }

  lemma OneUpOpen(s: State, g: Ghost, table: seq<Slot>, p: int, dirs: set<int>)
    requires Used(s, g, p) && AllOpen(table, dirs - AllAbove(s, g, p) + {s.inodes[p].parent as int})
    ensures Used(s, g, s.inodes[p].parent)
    ensures AllOpen(table, dirs - AllAbove(s, g, s.inodes[p].parent))
  {
    hide Inv;
    RootFacts(s, g);
    ParentUsed(s, g, p);
  }

  lemma TopOpen(s: State, g: Ghost, t: State, dirs: set<int>)
    requires Used(s, g, 0) && Used(s, g, s.inodes[0].parent) && AllOpen(t.table, dirs - AllAbove(s, g, s.inodes[0].parent))
    requires Inv(t, g) && |t.table| > 0 && !t.table[0].free
    ensures AllOpen(t.table, dirs)
  {
    hide Inv;
    RootFacts(s, g);
    RootSlot(t, g);
  }

  lemma ParentUsed(s: State, g: Ghost, i: int)
    requires Used(s, g, i)
    ensures Used(s, g, s.inodes[i].parent)
  {
    hide Inv;
    RootFacts(s, g);
    if i != 0 {
      ParentIsDir(s, g, i);
    }
  }

  lemma SlotIs(s: State, g: Ghost, i: int)
    requires Inv(s, g) && SlotOf(s.table, i) != -1 && 0 <= i < |s.inodes|
    ensures s.table[SlotOf(s.table, i)].node == s.inodes[i]
  {
    hide FreeInodes, FreeBlocks, Owners, Deeps, Lasts, DirsMatch, Tree, InodesOk;
    assert SlotOk(s.table[SlotOf(s.table, i)], s.inodes, g.role);
  }

  lemma ScanKeepsRoom(t: State, g: Ghost, cur: int, fd: nat, u: State)
    requires Climbing(t, g, cur, fd) && cur != 0 && u == t.(table := u.table) && Inv(u, g)
    requires fd < |u.table| && u.table == t.table[fd := u.table[fd]] && u.table[fd] == t.table[fd].(offset := u.table[fd].offset)
    ensures var p := t.inodes[cur].parent;
            && Used(u, g, p) && |g.dirs| == |u.inodes| && UniqueNames(u, g) && Room(u.table, g.rank[p] as int - 1)
            && !u.table[0].free && |u.table| == FILETABLESIZE && Used(u, g, u.inodes[p].parent)
  {
    hide Inv;
    ParentIsDir(t, g, cur);
    ParentUsed(u, g, t.inodes[cur].parent);
    assert Opendir.OpenSet(u.table) == Opendir.OpenSet(t.table);
  }

  // ---- both together ----

  /** The state in which the shell asks for a path: if it leads anywhere, there are slots for the walk
      down to there and up again. */
  ghost predicate CanPrint(s: State, g: Ghost, path: seq<byte>) {
    && Inv(s, g) && |g.role| == |g.rank| == |g.dirs| == |s.inodes| && UniqueNames(s, g)
    && Opendir.RoomToWalk(s.inodes, s.table) && !Forged(s.inodes, s.blocks, 0, Tokens(path, SLASH_QUOTE))
    && (forall i :: 0 <= i < |g.rank| && Reaches(s, path, i) ==> Room(s.table, g.rank[i] + 1))
  }

  /** After the walk down there is room for the walk up. */
  lemma Arrived(s: State, g: Ghost, path: seq<byte>)
    requires CanPrint(s, g, path)
    ensures var (t, e) := Walk.Opendir(s, path);
            && t.inodes == s.inodes && Inv(t, g) && !t.table[0].free && |t.table| == FILETABLESIZE
            && (e.None? ==> Lookup(s.inodes, s.blocks, 0, Tokens(path, SLASH_QUOTE), ROOT_ENTRY) == None)
            && (e.Some? ==>
                  var i := e.value.inode;
                  Used(t, g, i) && Reaches(s, path, i) && SlotOf(t.table, i) != -1 && Room(t.table, g.rank[i] as int - 1))
  {
    hide Inv, Lookup, UniqueNames, Forged;
    Opendir.OpendirIsLookup(s, g, path);
    Opendir.OpendirSlots(s, g, path);
    var (t, e) := Walk.Opendir(s, path);
    TableOkOf(s, g);
  }

  /** The walk up from where the walk down had ended has left the directories on its way open. */
  ghost predicate Climbed(t: State, g: Ghost, e: Option<Entry>, u: State) {
    && e.Some? && Used(t, g, e.value.inode) && u == t.(table := u.table)
    && OnlyOpens(t.inodes, t.table, u.table, AllAbove(t, g, e.value.inode)) && AllOpen(u.table, AllAbove(t, g, e.value.inode))
  }

  /** `convert_absolute` of an absolute path: the string returned leads to the same inode. */
  method PrintPath(fs: FileSystem.FileSystem, path: seq<byte>, ghost g: Ghost) returns (r: Option<seq<byte>>)
    requires fs.Apart() && path != [] && path[0] == SLASH && CanPrint(fs.View(), g, path)
    modifies fs.table, fs`freehead
    ensures Inv(fs.View(), g) && fs.View() == old(fs.View()).(table := fs.table[..], freehead := fs.freehead)
    ensures r.None? <==> forall i :: !Reaches(old(fs.View()), path, i)
    ensures r.Some? ==> exists i :: Reaches(old(fs.View()), path, i) && Reaches(old(fs.View()), r.value, i)
    ensures var (t, e) := Walk.Opendir(old(fs.View()), path);
            if r.None? then fs.View() == t else Climbed(t, g, e, fs.View())
  {
    hide OnlyOpens, AllOpen, AllAbove, Inv, Lookup, UniqueNames, Forged, Walk.Opendir, Opendir.OpenSet, AddToTable;
    ghost var s := fs.View();
    Arrived(s, g, path);
    TableOkOf(s, g);
    var e := fs.OpenDir(path);
    if e.None? {
      return None;
    }
    var i: int := e.value.inode;
    ghost var t := fs.View();
    UpFacts(t, g, i);
    var node := fs.GetInode(i);
    AlreadyOpen(fs.table[..], node, APPEND);
    var fd := fs.AddToFileTable(node, APPEND);
    assert fs.View() == t;
    UniqueStay(s, g, t);
    var p := ConvertAbsolute(fs, i, g);
    NamesStay(t, g, s, i);
    ReachedIsClean(s, g, path, i);
    PrintedPathLeadsBackExactly(s, g, i);
    r := Some(p);
  }

  lemma AlreadyOpen(table: seq<Slot>, node: Inode, access: Access)
    requires SlotOf(table, node.index) != -1
    ensures AddToTable(table, node, access) == (table, SlotOf(table, node.index))
  {
  }
}
