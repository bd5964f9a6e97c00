/** Directories made in the root of a disk on which nothing else is open; and what becomes of the one
    that is made behind a full block. */
module RootCalls {
  import opened Bytes
  import opened Records
  import opened Operations
  import opened Paths
  import opened Walk
  import opened Calls
  import opened Invariant
  import opened Guards
  import opened Runs
  import opened Forgery
  import Opendir
  import Birth
  import Cycle
  import Format

  /** The root has m entries and nothing else is open. There are inodes and blocks for some more, and no
      free inode remembers a block. */
  ghost predicate RootAt(s: State, g: Ghost, m: nat) {
    && Inv(s, g) && |s.table| == FILETABLESIZE && |g.dirs| == |g.role| == |s.inodes| > 0
    && (forall u :: 0 < u < FILETABLESIZE ==> s.table[u].free)
    && |g.dirs[0]| == m && |g.fi| + m >= 16 && |g.fb| + 2 * m >= 32
    && (forall i :: 0 <= i < |s.inodes| && g.role[i].Idle? ==> s.inodes[i].last == -1)
  }

  lemma FreshAtRoot(mb: nat)
    requires 1 <= mb <= Format.MAX_MB
    ensures Format.InodeCount(mb) >= 2 && Format.DataBlocks(mb) >= 2
    ensures RootAt(Format.FreshState(mb), Format.FreshGhost(Format.InodeCount(mb), Format.DataBlocks(mb)), 2)
  {
    hide Inv, Format.InodeCount, Format.DataBlocks, Format.NewBlock;
    Format.FreshIsValid(mb);
    EnoughBlocks(mb);
  }

  lemma EnoughBlocks(mb: nat)
    requires 1 <= mb <= Format.MAX_MB
    ensures Format.InodeCount(mb) >= 50 && Format.DataBlocks(mb) >= 50
  {
    Format.Sizes(mb);
    Format.InodeBlocksFit(mb);
  }

  /** The walk of an empty path opens the root, rewound. */
  lemma RootOpens(s: State, g: Ghost, m: nat)
    requires RootAt(s, g, m)
    ensures var (t, e) := Walk.Opendir(s, []);
            && e == Some(ROOT_ENTRY) && Opendir.RoomToWalk(s.inodes, s.table) && !Forged(s.inodes, s.blocks, 0, Tokens([], SLASH_QUOTE))
            && t == s.(table := t.table, freehead := 1) && |t.table| == FILETABLESIZE && DirSlot(t, ROOT_ENTRY) == 0
            && !t.table[0].free && t.table[0].node == s.inodes[0] && t.table[0].offset == 0
            && RootAt(t, g, m)
  {
    hide Disk, FreeInodes, Tree;
    Opendir.RootInUse(s, g);
    assert Tokens([], SLASH_QUOTE) == [];
    var base := WithRoot(s.inodes, s.table);
    assert base[1].free;
    assert FirstFree(base) == 1;
    RootSlot(s, g);
    WalkKeeps(s, g, []);
  }

  lemma RootSlot(s: State, g: Ghost)
    requires Inv(s, g) && |s.table| > 0
    ensures 0 < |s.inodes| && (!s.table[0].free ==> s.table[0].node == s.inodes[0]) && s.inodes[0].index == 0
    ensures s.inodes[0].kind == DIR
  {
    hide FreeInodes, FreeBlocks, Owners, Deeps, Lasts, DirsMatch, Tree;
    assert SlotOk(s.table[0], s.inodes, g.role) && InodeOk(s.inodes[0], 0, g.role[0]);
  }

  /** There is room for one more directory. */
  lemma RoomInRoot(t: State, g: Ghost, m: nat, name: seq<byte>)
    requires RootAt(t, g, m) && !t.table[0].free && 2 <= m <= 8 && NameOk(name)
    ensures Birth.CanCreate(t, g, 0, name) && RoomFor(t, 0) && 0 <= t.sb.freeInode < |t.inodes|
    ensures t.table[0].node == t.inodes[0] && t.inodes[0].size == ENTRYSIZE * m && t.table[0].node.kind == DIR
    ensures t.inodes[t.sb.freeInode].last == -1
  {
    hide Disk, FreeInodes, Tree;
    RootSlot(t, g);
    DirFacts(t, g, 0);
    FreeCount(t, g, 2);
    FreeCount(t, g, 1);
    HeadIdle(t, g);
    RoomIsRoom(t, g, 0, name);
  }

  lemma HeadIdle(t: State, g: Ghost)
    requires Inv(t, g) && g.fi != []
    ensures |g.role| == |t.inodes| && 0 <= t.sb.freeInode < |t.inodes| && g.role[t.sb.freeInode].Idle?
  {
    hide Disk, Tree;
    assert IdleAt(g.fi, t.inodes, g.role, |g.fi| - 1);
  }

  /** What `f_mkdir` in the root leaves where. */
  lemma MadeInRoot(t: State, g: Ghost, m: nat, name: seq<byte>)
    requires RootAt(t, g, m) && !t.table[0].free && 2 <= m <= 8 && NameOk(name) && Birth.CanCreate(t, g, 0, name)
    ensures CanAddTo(t, 0, name) && 0 < t.sb.freeInode < |t.inodes|
    ensures var u, h, ni := MakeDir(t, AsWritten, 0, name), Birth.GhostAfterCreate(t, g, 0, name), t.sb.freeInode;
            && u.table == t.table[0 := u.table[0]] && !u.table[0].free && |u.inodes| == |t.inodes|
            && u.inodes[ni].kind == DIR
            && (forall i :: 0 <= i < |t.inodes| && i != 0 && i != ni ==> u.inodes[i] == t.inodes[i])
            && |h.dirs| == |h.role| == |t.inodes| && h.role == g.role[ni := InUse] && |h.fi| == |g.fi| - 1 && |h.fb| >= |g.fb| - 2
            && h.dirs[0] == g.dirs[0] + [Entry(ni, name)] && h.dirs[ni] == [Entry(ni, DOT), Entry(0, DOTDOT)]
  {
    hide Disk, FreeInodes, Tree, MakeDir, WithNewEntry;
    Birth.HeadInode(t, g, 0, name);
    Birth.Stage(t, g, 0, name);
    Birth.EntryForm(t, g, 0, name);
    Birth.MakeDirForm(t, AsWritten, 0, name);
    Cycle.CreateGivesRoles(t, g, 0, name);
    RootSlot(t, g);
    DirFacts(t, g, 0);
  }

  lemma ExplainedIsValid(s: State, g: Ghost, m: nat)
    requires RootAt(s, g, m)
    ensures Valid(s)
  {
  }

  lemma PathOfName(name: seq<byte>)
    requires Plain(name)
    ensures Tokens(name, SLASH_ONLY) == [name] && ParentPath([name]) == [] && NameOf([name]) == name
  {
    OneToken(name, SLASH_ONLY);
  }

  /** `f_mkdir` in the root, in terms of the part behind the walk. */
  lemma MkdirIsMakeDir(s: State, g: Ghost, m: nat, v: Variant, name: seq<byte>)
    requires RootAt(s, g, m) && 2 <= m <= 8 && Plain(name)
    ensures var t := Walk.Opendir(s, []).0;
            && |t.table| == FILETABLESIZE && !t.table[0].free && RootAt(t, g, m)
            && Birth.CanCreate(t, g, 0, name) && CanAddTo(t, 0, name) && t.sb == s.sb && t.inodes == s.inodes
            && CanMkdir(s, name) && MkdirPath(s, v, name) == MakeDir(t, v, 0, name)
  {
    hide Inv, Walk.Opendir, MakeDir;
    PathOfName(name);
    RootOpens(s, g, m);
    var t := Walk.Opendir(s, []).0;
    RoomInRoot(t, g, m, name);
    Birth.HeadInode(t, g, 0, name);
  }

  lemma RootSize(m: nat)
    requires 2 <= m <= 8
    ensures ENTRYSIZE * m % BLOCKSIZE == 0 <==> m == 8
  {
  }

  /** The root has got an entry for a new, empty directory ni. */
  ghost predicate Made(g: Ghost, m: nat, u: State, h: Ghost, ni: int32, name: seq<byte>) {
    && RootAt(u, h, m + 1) && !u.table[0].free && |g.dirs| == |h.dirs|
    && 0 < ni < |u.inodes| && UsedDir(u.inodes, h.role, ni)
    && h.dirs[0] == g.dirs[0] + [Entry(ni, name)] && h.dirs[ni] == [Entry(ni, DOT), Entry(0, DOTDOT)]
  }

  /** While the root's block has room, `f_mkdir` is guarded, and the root has one entry more. */
  lemma MkdirInRoot(s: State, g: Ghost, m: nat, name: seq<byte>) returns (h: Ghost)
    requires RootAt(s, g, m) && 2 <= m < 8 && Plain(name)
    ensures CanMkdir(s, name) && Goes(s, FMkdir(name), MkdirPath(s, AsWritten, name))
    ensures Made(g, m, MkdirPath(s, AsWritten, name), h, s.sb.freeInode, name)
  {
    hide Inv, Walk.Opendir, MakeDir, MkdirPath, CanMkdir, Goes, Clean, RawEntries, Forged, Tokens, Birth.CanCreate, CanAddTo;
    MkdirIsMakeDir(s, g, m, AsWritten, name);
    RootOpens(s, g, m);
    var t := Walk.Opendir(s, []).0;
    RoomInRoot(t, g, m, name);
    RootSize(m);
    MadeInRoot(t, g, m, name);
    Birth.MakeDirKeepsRest(t, g, AsWritten, 0, name);
    h := Birth.GhostAfterCreate(t, g, 0, name);
    MkdirGoes(s, g, m, name);
  }

  lemma MkdirGuarded(s: State, g: Ghost, m: nat, name: seq<byte>)
    requires RootAt(s, g, m) && 2 <= m < 8 && Plain(name)
    ensures |s.table| == FILETABLESIZE && Guard(s, AsWritten, FMkdir(name))
  {
    hide Inv, Walk.Opendir, RawEntries, Forged, Birth.CanCreate, CanAddTo, RoomFor, Clean, OpenRoom, RemoveGuard;
    PathOfName(name);
    RootOpens(s, g, m);
    var t := Walk.Opendir(s, []).0;
    RoomInRoot(t, g, m, name);
    RootSize(m);
  }

  lemma MkdirGoes(s: State, g: Ghost, m: nat, name: seq<byte>)
    requires RootAt(s, g, m) && 2 <= m < 8 && Plain(name)
    ensures CanMkdir(s, name) && Goes(s, FMkdir(name), MkdirPath(s, AsWritten, name))
  {
    hide Inv, Valid, Walk.Opendir, MkdirPath, RawEntries, CanMkdir, Guard, Birth.CanCreate, CanAddTo, RootAt, Plain;
    ExplainedIsValid(s, g, m);
    MkdirIsMakeDir(s, g, m, AsWritten, name);
    MkdirGuarded(s, g, m, name);
  }

  // ---- the seventh directory ----

  function Mkdirs(names: seq<seq<byte>>): (r: seq<Op>)
    ensures |r| == |names| && forall i :: 0 <= i < |r| ==> r[i] == FMkdir(names[i])
  {
    seq(|names|, i requires 0 <= i < |names| => FMkdir(names[i]))
  }

  lemma NoCalls(s: State)
    requires Valid(s)
    ensures Guarded(s, AsWritten, []) && Run(s, AsWritten, []) == s
  {
  }

  lemma {:induction false} DirectoriesMade(mb: nat, names: seq<seq<byte>>) returns (h: Ghost)
    requires 1 <= mb <= Format.MAX_MB && |names| <= 6 && forall i :: 0 <= i < |names| ==> Plain(names[i])
    ensures Valid(Format.FreshState(mb)) && Guarded(Format.FreshState(mb), AsWritten, Mkdirs(names))
    ensures RootAt(Run(Format.FreshState(mb), AsWritten, Mkdirs(names)), h, 2 + |names|)
    decreases |names|
  {
    hide Inv, Format.FreshState, Goes, RootAt, Guarded, Run, MkdirPath, Valid;
    var s := Format.FreshState(mb);
    FreshAtRoot(mb);
    ExplainedIsValid(s, Format.FreshGhost(Format.InodeCount(mb), Format.DataBlocks(mb)), 2);
    if names == [] {
      h := Format.FreshGhost(Format.InodeCount(mb), Format.DataBlocks(mb));
      NoCalls(s);
      assert Mkdirs([]) == [];
    } else {
      var rest, name := names[..|names| - 1], names[|names| - 1];
      var g := DirectoriesMade(mb, rest);
      h := OneMoreMade(s, rest, g, name);
      assert names == rest + [name];
    }
  }

  lemma OneMoreMade(s: State, rest: seq<seq<byte>>, g: Ghost, name: seq<byte>) returns (h: Ghost)
    requires Valid(s) && Guarded(s, AsWritten, Mkdirs(rest)) && RootAt(Run(s, AsWritten, Mkdirs(rest)), g, 2 + |rest|)
    requires |rest| < 6 && Plain(name)
    ensures Guarded(s, AsWritten, Mkdirs(rest + [name])) && RootAt(Run(s, AsWritten, Mkdirs(rest + [name])), h, 3 + |rest|)
  {
    hide Inv, Goes, RootAt, Guarded, Run, MkdirPath, CanMkdir, Valid, Plain;
    var t := Run(s, AsWritten, Mkdirs(rest));
    h := MkdirInRoot(t, g, 2 + |rest|, name);
    RunGoesOn(s, Mkdirs(rest), t, FMkdir(name), MkdirPath(t, AsWritten, name));
    assert Mkdirs(rest + [name]) == Mkdirs(rest) + [FMkdir(name)];
  }

  /** The second element of the free list is a block. */
  lemma SecondFree(t: State, g: Ghost)
    requires Inv(t, g) && |g.fb| >= 2
    ensures Link(GetBlock(t.blocks, t.sb.freeBlock)) >= 0
  {
    hide Owners, Deeps, Lasts, DirsMatch, TableOk, FreeInodes, Tree, InodesOk;
    assert FreeAt(g.fb, t.blocks, g.own, |g.fb| - 1) && FreeAt(g.fb, t.blocks, g.own, |g.fb| - 2);
  }

  /** On a fresh disk of any size, whatever the names: six directories are made in the root, each call
      guarded, and the root's block is full. A seventh `f_mkdir` as written leaves a disk that no
      assignment of roles explains; repaired, a valid one. */
  lemma SeventhDirectory(mb: nat, names: seq<seq<byte>>)
    requires 1 <= mb <= Format.MAX_MB && |names| == 7 && forall i :: 0 <= i < 7 ==> Plain(names[i])
    ensures Valid(Format.FreshState(mb)) && Guarded(Format.FreshState(mb), AsWritten, Mkdirs(names[..6]))
    ensures var s := Run(Format.FreshState(mb), AsWritten, Mkdirs(names[..6]));
            && Valid(s) && CanMkdir(s, names[6])
            && !Valid(MkdirPath(s, AsWritten, names[6])) && Valid(MkdirPath(s, Repaired, names[6]))
  {
    hide Inv, Valid, Format.FreshState, Goes, MkdirPath, Walk.Opendir, MakeDir;
    var g := DirectoriesMade(mb, names[..6]);
    var s := Run(Format.FreshState(mb), AsWritten, Mkdirs(names[..6]));
    ExplainedIsValid(s, g, 8);
    MkdirIsMakeDir(s, g, 8, AsWritten, names[6]);
    MkdirIsMakeDir(s, g, 8, Repaired, names[6]);
    var t := Walk.Opendir(s, []).0;
    RoomInRoot(t, g, 8, names[6]);
    RootSize(8);
    SecondFree(t, g);
    Birth.MakeDirValidExactly(t, g, AsWritten, 0, names[6]);
    Birth.MakeDirValidExactly(t, g, Repaired, 0, names[6]);
  }
}
