/** A run after which `f_remove` does not find a file that is there and closed: the directory's slot
    still has the offset that a scan of `f_open` has left. */
module Missed {
  import opened Bytes
  import opened Records
  import opened Operations
  import opened Paths
  import opened Walk
  import opened Calls
  import opened Invariant
  import opened Guards
  import opened Runs
  import opened Forgery
  import opened RootCalls
  import opened Scan
  import opened Absolute
  import Opendir
  import Birth
  import Cycle
  import Deletion
  import Format

  /** Directory d of the root, with these entries, is open in slot 1 or not at all; slots 3 and up are
      free. */
  ghost predicate InDir(s: State, g: Ghost, d: int32, dn: seq<byte>, es: seq<Entry>) {
    && Inv(s, g) && |s.table| == FILETABLESIZE && |g.dirs| == |g.role| == |s.inodes|
    && !s.table[0].free && (forall u :: 3 <= u < FILETABLESIZE ==> s.table[u].free)
    && (if s.table[1].free then s.table[2].free else s.table[1].node.index == d)
    && 0 < d < |s.inodes| && UsedDir(s.inodes, g.role, d) && Plain(dn)
    && |g.dirs[0]| == 3 && g.dirs[0][2] == Entry(d, dn)
    && g.dirs[d] == es && 2 <= |es| <= 7 && |g.fi| + |es| >= 12 && |g.fb| + 2 * |es| >= 20
  }

  /** Where the root's entries are and what they name. */
  lemma RootListed(s: State, g: Ghost, d: int32, dn: seq<byte>, es: seq<Entry>)
    requires InDir(s, g, d, dn, es)
    ensures s.table[0].node == s.inodes[0] && RawEntries(s.blocks, s.inodes[0]) == g.dirs[0] && FirstNamed(g.dirs[0], 0, dn) == 2
    ensures s.inodes[d].index == d && s.inodes[0].index == 0 && (!s.table[1].free ==> s.table[1].node == s.inodes[d])
    ensures RawEntries(s.blocks, s.inodes[d]) == es && s.inodes[d].kind == DIR && s.inodes[0].kind == DIR
  {
    hide FreeInodes, FreeBlocks, Owners, Deeps, Lasts, DirsMatch;
    RootSlot(s, g);
    EntriesOfDir(s, g, 0);
    EntriesOfDir(s, g, d);
    Opendir.UsedNumber(s, g, d);
    assert DotsOk(g.dirs[0], 0, s.inodes[0].parent);
    assert SlotOk(s.table[1], s.inodes, g.role);
    assert g.dirs[0][0].name == DOT && g.dirs[0][1].name == DOTDOT;
  }

  /** The walk to d: its slot keeps the offset it has. */
  lemma DirOpens(s: State, g: Ghost, d: int32, dn: seq<byte>, es: seq<Entry>)
    requires InDir(s, g, d, dn, es)
    ensures var (t, e) := Walk.Opendir(s, PathString([dn]));
            && e == Some(Entry(d, dn)) && Opendir.RoomToWalk(s.inodes, s.table)
            && !Forged(s.inodes, s.blocks, 0, Tokens(PathString([dn]), SLASH_QUOTE))
            && t == s.(table := t.table, freehead := FirstFree(t.table)) && |t.table| == FILETABLESIZE && DirSlot(t, Entry(d, dn)) == 1
            && !t.table[1].free && t.table[1].node == s.inodes[d]
            && (!s.table[1].free ==> t.table[1].offset == s.table[1].offset)
            && (forall u :: 2 <= u < FILETABLESIZE ==> t.table[u] == s.table[u])
            && InDir(t, g, d, dn, es)
  {
    hide Disk, FreeInodes, Tree, RawEntries;
    RootListed(s, g, d, dn, es);
    TokensOfPath([dn], SLASH_QUOTE);
    var base := WithRoot(s.inodes, s.table);
    assert base[3].free;
    var left := LeaveSlot(base, 0, 0);
    assert [dn][1..] == [];
    SlotsOf(left, d);
    var (j, t1) := EnterSlot(left, 0, s.inodes[d]);
    assert ReadInode(s.inodes, d) == s.inodes[d];
    assert WalkFrom(s.inodes, s.blocks, base, 0, [dn], ROOT_ENTRY) == WalkFrom(s.inodes, s.blocks, t1, j, [], Entry(d, dn));
    NoFilePassed1(s.inodes, s.blocks, dn);
    WalkKeeps(s, g, PathString([dn]));
  }

  /** Slot 1 holds d or is the first free one. */
  lemma SlotsOf(t: seq<Slot>, d: int)
    requires |t| == FILETABLESIZE && !t[0].free && t[0].node.index == 0 && d != 0
    requires if t[1].free then forall u :: 1 < u < |t| ==> t[u].free else t[1].node.index == d
    ensures SlotOf(t, d) == (if t[1].free then -1 else 1)
    ensures t[1].free ==> FirstFree(t) == 1
  {
    assert SlotOf(t, d) == SlotOfFrom(t, d, 1);
  }

  lemma NoFilePassed1(inodes: seq<Inode>, blocks: seq<Block>, name: seq<byte>)
    requires |inodes| > 0 && inodes[0].kind == DIR
    ensures !Forged(inodes, blocks, 0, [name])
  {
    var es := RawEntries(blocks, ReadInode(inodes, 0));
    var k := FirstNamed(es, 0, name);
    assert [name][1..] == [];
    assert !PassesFile(inodes, blocks, if k < |es| then ReadInode(inodes, es[k].inode).index else 0, []);
  }

  /** The slot that the file gets, and what stays. */
  ghost predicate FileMade(s: State, u: State, h: Ghost, d: int32, ni: int32) {
    && |u.table| == FILETABLESIZE && |u.inodes| == |s.inodes|
    && 0 < ni < |s.inodes| && ni != d && |h.role| == |s.inodes| && h.role[ni].InUse?
    && !u.table[1].free && !u.table[2].free && u.table[2].node.index == ni && u.freehead == 3
    && u.inodes[ni].kind == REG && u.inodes[ni].size == 0
    && (forall i :: 0 <= i < |s.inodes| && i != d && i != ni ==> u.inodes[i] == s.inodes[i])
  }

  /** What has to be so for `f_open` to make a file in d. */
  lemma FileCanCome(t: State, g: Ghost, d: int32, dn: seq<byte>, es: seq<Entry>, name: seq<byte>)
    requires InDir(t, g, d, dn, es) && !t.table[1].free && t.table[2].free && t.freehead == 2 && Plain(name) && |es| < 7
    ensures var x := WithOffset(t, 1, ENTRYSIZE * |es|);
            && InDir(x, g, d, dn, es) && Cycle.CanOpenNew(x, g, 1, name) && RoomFor(t, 1)
            && 0 <= t.sb.freeInode < |t.inodes| && g.role[t.sb.freeInode].Idle?
            && t.table[1].node.kind == DIR && t.table[1].node.size % BLOCKSIZE != 0
  {
    hide Disk, FreeInodes, Tree;
    RootListed(t, g, d, dn, es);
    DirFacts(t, g, 1);
    HeadIdle(t, g);
    FreeCount(t, g, 1);
    SmallSize(|es|);
    OffsetKeeps(t, g, 1, ENTRYSIZE * |es|);
    RoomIsRoom(WithOffset(t, 1, ENTRYSIZE * |es|), g, 1, name);
  }

  lemma SmallSize(m: nat)
    requires 2 <= m <= 7
    ensures ENTRYSIZE * m % BLOCKSIZE != 0
  {
  }

  /** Creating the file. */
  lemma FileComes(t: State, g: Ghost, d: int32, dn: seq<byte>, es: seq<Entry>, name: seq<byte>, access: Access) returns (h: Ghost)
    requires InDir(t, g, d, dn, es) && !t.table[1].free && t.table[2].free && t.freehead == 2 && Plain(name) && |es| < 7
    ensures CanAddTo(WithOffset(t, 1, ENTRYSIZE * |es|), 1, name)
    ensures var u := CreateFile(WithOffset(t, 1, ENTRYSIZE * |es|), 1, name, access);
            && InDir(u, h, d, dn, es + [Entry(t.sb.freeInode, name)]) && u.table[1].offset == ENTRYSIZE * |es|
            && FileMade(t, u, h, d, t.sb.freeInode)
  {
    hide Disk, FreeInodes, Tree, CreateFile, WithNewEntry;
    FileCanCome(t, g, d, dn, es, name);
    var x := WithOffset(t, 1, ENTRYSIZE * |es|);
    Cycle.CreatePlaces(x, g, 1, name, access);
    Cycle.CreateGivesRoles(x, g, 1, name);
    Birth.CreateKeeps(x, g, 1, name, access);
    h := Birth.GhostAfterCreate(x, g, 1, name);
    var u := CreateFile(x, 1, name, access);
    Cycle.SameLengths(u, h);
    Opendir.RootInUse(t, g);
    RootListed(t, g, d, dn, es);
    ThirdFree(u.table);
  }

  lemma ThirdFree(t: seq<Slot>)
    requires |t| == FILETABLESIZE && !t[0].free && !t[1].free && !t[2].free && t[3].free
    ensures FirstFree(t) == 3
  {
  }

  function PathOf(dn: seq<byte>, name: seq<byte>): seq<byte> { PathString([dn, name]) }

  lemma TokensOfPathOf(dn: seq<byte>, name: seq<byte>)
    requires Plain(dn) && Plain(name)
    ensures Tokens(PathOf(dn, name), SLASH_ONLY) == Tokens(PathOf(dn, name), SLASH_QUOTE) == [dn, name]
    ensures ParentPath([dn, name]) == PathString([dn]) && NameOf([dn, name]) == name
  {
    TokensOfPath([dn, name], SLASH_ONLY);
    TokensOfPath([dn, name], SLASH_QUOTE);
    assert [dn, name][..1] == [dn];
  }

  /** `f_open` of a name that d does not have makes the file, and leaves d's offset where the scan ended. */
  lemma OpenMakes(s: State, g: Ghost, d: int32, dn: seq<byte>, es: seq<Entry>, name: seq<byte>, access: Access) returns (h: Ghost)
    requires InDir(s, g, d, dn, es) && s.table[2].free && |es| < 7 && Plain(name) && access != READ
    requires forall e :: e in es ==> e.name != name
    ensures CanOpen(s, PathOf(dn, name), access) && Goes(s, FOpen(PathOf(dn, name), access), OpenPath(s, PathOf(dn, name), access).0)
    ensures var u := OpenPath(s, PathOf(dn, name), access).0;
            && InDir(u, h, d, dn, es + [Entry(s.sb.freeInode, name)]) && u.table[1].offset == ENTRYSIZE * |es|
            && FileMade(s, u, h, d, s.sb.freeInode)
  {
    hide Inv, Walk.Opendir, OpenPath, CanOpen, CreateFile;
    OpenIsCreate(s, g, d, dn, es, name, access);
    DirOpens(s, g, d, dn, es);
    OpenGoes(s, g, d, dn, es, name, access);
    h := FileComes(Walk.Opendir(s, PathString([dn])).0, g, d, dn, es, name, access);
  }

  /** The call, in terms of the part behind the walk. */
  lemma OpenIsCreate(s: State, g: Ghost, d: int32, dn: seq<byte>, es: seq<Entry>, name: seq<byte>, access: Access)
    requires InDir(s, g, d, dn, es) && s.table[2].free && |es| < 7 && Plain(name) && access != READ
    requires forall e :: e in es ==> e.name != name
    ensures var t := Walk.Opendir(s, PathString([dn])).0;
            && |t.table| == FILETABLESIZE && t.freehead == 2 && CanAddTo(WithOffset(t, 1, ENTRYSIZE * |es|), 1, name)
            && CanOpen(s, PathOf(dn, name), access)
            && OpenPath(s, PathOf(dn, name), access).0 == CreateFile(WithOffset(t, 1, ENTRYSIZE * |es|), 1, name, access)
  {
    hide Inv, Walk.Opendir, CreateFile, RawEntries, CanAddTo, Clean, FirstNamed, FirstRegular, Forged, SlotOf, UsedDir, Cycle.CanOpenNew;
    TokensOfPathOf(dn, name);
    DirOpens(s, g, d, dn, es);
    var t := Walk.Opendir(s, PathString([dn])).0;
    SecondIsFree(t.table);
    RootListed(t, g, d, dn, es);
    FileCanCome(t, g, d, dn, es, name);
    CanAddThere(WithOffset(t, 1, ENTRYSIZE * |es|), t, g, name, ENTRYSIZE * |es|);
    NoneRegular(t.inodes, es, name);
  }

  lemma SecondIsFree(t: seq<Slot>)
    requires |t| == FILETABLESIZE && !t[0].free && !t[1].free && t[2].free
    ensures FirstFree(t) == 2
  {
  }

  lemma NoneRegular(inodes: seq<Inode>, es: seq<Entry>, name: seq<byte>)
    requires forall e :: e in es ==> e.name != name
    ensures FirstRegular(inodes, es, 0, name) == |es|
  {
  }

  lemma CanAddThere(x: State, t: State, g: Ghost, name: seq<byte>, offset: int)
    requires |t.table| > 1 && x == WithOffset(t, 1, offset) && Cycle.CanOpenNew(x, g, 1, name)
    ensures CanAddTo(x, 1, name) && CanAddTo(t, 1, name)
  {
    hide Inv;
    Birth.HeadInode(x, g, 1, name);
  }

  lemma OpenGoes(s: State, g: Ghost, d: int32, dn: seq<byte>, es: seq<Entry>, name: seq<byte>, access: Access)
    requires InDir(s, g, d, dn, es) && s.table[2].free && |es| < 7 && Plain(name) && access != READ
    requires forall e :: e in es ==> e.name != name
    ensures CanOpen(s, PathOf(dn, name), access) && Goes(s, FOpen(PathOf(dn, name), access), OpenPath(s, PathOf(dn, name), access).0)
  {
    hide Inv, Valid, Walk.Opendir, OpenPath, RawEntries, CanOpen, Forged, Clean, FirstNamed, FirstRegular, UsedDir, Cycle.CanOpenNew, CanAddTo,
         RoomFor, EndsInUse, Follow, Tokens, CreateFile, FirstFree, SlotOf;
    OpenIsCreate(s, g, d, dn, es, name, access);
    TokensOfPathOf(dn, name);
    DirOpens(s, g, d, dn, es);
    var t := Walk.Opendir(s, PathString([dn])).0;
    RootListed(t, g, d, dn, es);
    FileCanCome(t, g, d, dn, es, name);
    NoneRegular(t.inodes, es, name);
    ValidThere(s, g);
  }

  lemma ValidThere(s: State, g: Ghost)
    requires Inv(s, g)
    ensures Valid(s)
  {
  }

  /** Then it is closed. */
  lemma CloseGoes(s: State, g: Ghost, d: int32, dn: seq<byte>, es: seq<Entry>)
    requires InDir(s, g, d, dn, es) && !s.table[1].free
    ensures var w := Close(s, 2);
            && Goes(s, FClose(2), w) && InDir(w, g, d, dn, es)
            && w.table[1] == s.table[1] && w.table[2].free && w.inodes == s.inodes && w.sb == s.sb
  {
    hide Inv;
    CloseKeeps(s, g, 2);
    assert Valid(s) by { assert Inv(s, g); }
  }

  /** The directory holds a closed, empty file, and its offset is behind it. */
  ghost predicate Behind(s: State, g: Ghost, d: int32, dn: seq<byte>, es: seq<Entry>, k: nat) {
    && InDir(s, g, d, dn, es) && !s.table[1].free && 2 <= k < |es|
    && ENTRYSIZE * k < s.table[1].offset && s.table[1].offset % ENTRYSIZE == 0
    && Plain(es[k].name) && SlotOf(s.table, es[k].inode) == -1
    && 0 <= es[k].inode < |s.inodes| && s.inodes[es[k].inode].kind == REG && s.inodes[es[k].inode].size == 0
    && (forall j :: 0 <= j < |es| && es[j].name == es[k].name ==> j == k)
  }

  /** The name may be asked for. */
  lemma EmptyFileAsked(t: State, g: Ghost, d: int32, dn: seq<byte>, es: seq<Entry>, k: nat, v: Variant)
    requires InDir(t, g, d, dn, es) && !t.table[1].free && k < |es| && Plain(es[k].name)
    requires 0 <= es[k].inode < |t.inodes| && t.inodes[es[k].inode].kind == REG && t.inodes[es[k].inode].size == 0
    requires forall e :: e in es && e.name == es[k].name ==> e == es[k]
    ensures CanAsk(t, g, v, 1, es[k].name) && Entries(t.blocks, t.table[1].node) == es
  {
    hide Inv, DirEntry, SlotOf, FirstNamed, Clean, UsedDir;
    RootListed(t, g, d, dn, es);
    DirFacts(t, g, 1);
  }

  /** What the walk to d leaves for the scan. */
  lemma MayBeAsked(s: State, t: State, g: Ghost, d: int32, dn: seq<byte>, es: seq<Entry>, k: nat, v: Variant)
    requires Behind(s, g, d, dn, es, k) && InDir(t, g, d, dn, es) && t.inodes == s.inodes && t.blocks == s.blocks
    requires !t.table[1].free && t.table[1].offset == s.table[1].offset
    requires forall u :: 2 <= u < FILETABLESIZE ==> t.table[u] == s.table[u]
    ensures CanAsk(t, g, v, 1, es[k].name) && Entries(t.blocks, t.table[1].node) == es && SlotOf(t.table, es[k].inode) == -1
    ensures k < ScanStart(t, AsWritten, 1) <= |es| && NoneFrom(es, ScanStart(t, AsWritten, 1), es[k].name) && FirstNamed(es, 0, es[k].name) == k
  {
    hide Inv, DirEntry, Entries, RawEntries, SlotOf, FirstNamed, Plain, NoneFrom, UsedDir, CanAsk;
    StillClosed(s, t, g, d, dn, es, es[k].inode);
    OffsetWithin(t, g, d, dn, es, k);
    OnlyOne(es, k, t.table[1].offset / ENTRYSIZE);
    EmptyFileAsked(t, g, d, dn, es, k, v);
  }

  lemma OffsetWithin(t: State, g: Ghost, d: int32, dn: seq<byte>, es: seq<Entry>, k: nat)
    requires InDir(t, g, d, dn, es) && !t.table[1].free && ENTRYSIZE * k < t.table[1].offset && t.table[1].offset % ENTRYSIZE == 0
    ensures k < t.table[1].offset / ENTRYSIZE <= |es|
  {
    hide Inv, DirEntry, Plain;
    RootListed(t, g, d, dn, es);
    DirFacts(t, g, 1);
  }

  lemma StillClosed(s: State, t: State, g: Ghost, d: int32, dn: seq<byte>, es: seq<Entry>, i: int)
    requires InDir(s, g, d, dn, es) && !s.table[1].free && InDir(t, g, d, dn, es) && !t.table[1].free && t.inodes == s.inodes
    requires forall u :: 2 <= u < FILETABLESIZE ==> t.table[u] == s.table[u]
    ensures SlotOf(s.table, i) == -1 ==> SlotOf(t.table, i) == -1
  {
    hide Inv, RawEntries, SlotOf, FirstNamed, Plain, UsedDir;
    RootListed(s, g, d, dn, es);
    RootListed(t, g, d, dn, es);
    SameClosed(s.table, t.table, i);
  }

  lemma SameClosed(was: seq<Slot>, t: seq<Slot>, i: int)
    requires |t| == |was| && forall u :: 0 <= u < |t| ==> t[u].free == was[u].free && t[u].node.index == was[u].node.index
    ensures SlotOf(was, i) == -1 ==> SlotOf(t, i) == -1
  {
    var r := SlotOf(t, i);
    assert r >= 0 ==> !was[r].free && was[r].node.index == i;
  }

  lemma OnlyOne(es: seq<Entry>, k: nat, start: nat)
    requires k < start <= |es| && forall j :: 0 <= j < |es| && es[j].name == es[k].name ==> j == k
    ensures NoneFrom(es, start, es[k].name) && FirstNamed(es, 0, es[k].name) == k
    ensures forall e :: e in es && e.name == es[k].name ==> e == es[k]
  {
  }

  lemma LooksUp(s: State, g: Ghost, d: int32, dn: seq<byte>, es: seq<Entry>, k: nat)
    requires InDir(s, g, d, dn, es) && k < |es| && FirstNamed(es, 0, es[k].name) == k
    ensures Lookup(s.inodes, s.blocks, 0, [dn, es[k].name], ROOT_ENTRY) == Some(es[k])
  {
    hide Inv, RawEntries;
    RootListed(s, g, d, dn, es);
    assert [dn, es[k].name][1..] == [es[k].name] && [es[k].name][1..] == [];
    assert ReadInode(s.inodes, 0) == s.inodes[0] && ReadInode(s.inodes, d) == s.inodes[d];
    assert Lookup(s.inodes, s.blocks, d, [es[k].name], Entry(d, dn)) == Some(es[k]);
  }

  /** `f_remove` as written fails, although the tree has the file; repaired, it removes it. */
  lemma BehindIsMissed(s: State, g: Ghost, d: int32, dn: seq<byte>, es: seq<Entry>, k: nat, stale: Block)
    requires Behind(s, g, d, dn, es, k)
    ensures var path := PathOf(dn, es[k].name);
            && CanRemovePath(s, AsWritten, path) && !RemovePath(s, AsWritten, path, stale).1
            && CanRemovePath(s, Repaired, path) && RemovePath(s, Repaired, path, stale).1
            && Lookup(s.inodes, s.blocks, 0, Tokens(path, SLASH_QUOTE), ROOT_ENTRY) == Some(es[k])
  {
    hide Inv, Walk.Opendir, Entries, RawEntries, RemoveName, CanRemoveFrom, Lookup, Plain, NoneFrom, FirstNamed, SlotOf, CanAsk, UsedDir, Deletion.Removed;
    var name := es[k].name;
    TokensOfPathOf(dn, name);
    DirOpens(s, g, d, dn, es);
    var t := Walk.Opendir(s, PathString([dn])).0;
    MayBeAsked(s, t, g, d, dn, es, k, AsWritten);
    MayBeAsked(s, t, g, d, dn, es, k, Repaired);
    Picked(t, g, AsWritten, 1, name, stale);
    Picked(t, g, Repaired, 1, name, stale);
    ScanExactly(es, ScanStart(t, AsWritten, 1), name);
    ScanExactly(es, 0, name);
    LooksUp(s, g, d, dn, es, k);
  }

  /** A directory just made in a root that had none. */
  lemma MadeIsInDir(g: Ghost, s: State, h: Ghost, d: int32, dn: seq<byte>)
    requires |g.dirs| > 0 && |g.dirs[0]| == 2 && Made(g, 2, s, h, d, dn) && Plain(dn)
    ensures InDir(s, h, d, dn, [Entry(d, DOT), Entry(0, DOTDOT)]) && s.table[2].free
  {
    hide Inv;
  }

  lemma DotsAreNot(es: seq<Entry>, name: seq<byte>)
    requires |es| == 2 && es[0].name == DOT && es[1].name == DOTDOT && Plain(name)
    ensures forall e :: e in es ==> e.name != name
  {
  }

  lemma NotAmongThree(t: seq<Slot>, i: int)
    requires |t| == FILETABLESIZE && forall u :: 3 <= u < |t| ==> t[u].free
    requires t[0].node.index != i && t[1].node.index != i && t[2].node.index != i
    ensures SlotOf(t, i) == -1
  {
  }

  /** After the second file has come, the first one, which is closed, lies before the offset. */
  lemma FirstIsBehind(s1: State, s2: State, s3: State, s4: State, g2: Ghost, g4: Ghost, d: int32, dn: seq<byte>, a: seq<byte>, b: seq<byte>)
    requires |s1.inodes| == |s2.inodes| && FileMade(s1, s2, g2, d, s1.sb.freeInode) && s3.inodes == s2.inodes
    requires FileMade(s3, s4, g4, d, s3.sb.freeInode) && Plain(a) && Plain(b) && a != b
    requires var es := [Entry(d, DOT), Entry(0, DOTDOT)] + [Entry(s1.sb.freeInode, a)];
             InDir(s4, g4, d, dn, es + [Entry(s3.sb.freeInode, b)]) && s4.table[1].offset == ENTRYSIZE * |es|
    ensures Behind(s4, g4, d, dn, [Entry(d, DOT), Entry(0, DOTDOT)] + [Entry(s1.sb.freeInode, a)] + [Entry(s3.sb.freeInode, b)], 2)
  {
    hide Inv, SlotOf, FirstNamed, Clean, RawEntries;
    var na, nb := s1.sb.freeInode, s3.sb.freeInode;
    EntriesDiffer(s4, g4, d, 2, 3);
    RootListed(s4, g4, d, dn, g4.dirs[d]);
    NotAmongThree(s4.table, na);
  }

  /** The calls: a directory in the root, a file in it that is closed again, and another file. */
  function MissingRun(dn: seq<byte>, a: seq<byte>, b: seq<byte>, access: Access): seq<Op> {
    [FMkdir(dn), FOpen(PathOf(dn, a), access), FClose(2), FOpen(PathOf(dn, b), access)]
  }

  /** As written, on a fresh disk of any size, after those four guarded calls: `f_remove` of the first file
      reports that there is none, although the tree has it and it is closed. Repaired, it removes it. */
  lemma FileMissed(mb: nat, dn: seq<byte>, a: seq<byte>, b: seq<byte>, access: Access, stale: Block)
    requires 1 <= mb <= Format.MAX_MB && Plain(dn) && Plain(a) && Plain(b) && a != b && access != READ
    ensures Valid(Format.FreshState(mb)) && Guarded(Format.FreshState(mb), AsWritten, MissingRun(dn, a, b, access))
    ensures var s := Run(Format.FreshState(mb), AsWritten, MissingRun(dn, a, b, access));
            var path := PathOf(dn, a);
            && CanRemovePath(s, AsWritten, path) && !RemovePath(s, AsWritten, path, stale).1
            && CanRemovePath(s, Repaired, path) && RemovePath(s, Repaired, path, stale).1
            && var e := Lookup(s.inodes, s.blocks, 0, Tokens(path, SLASH_QUOTE), ROOT_ENTRY);
               e.Some? && e.value.name == a && SlotOf(s.table, e.value.inode) == -1
  {
    hide Inv, Format.FreshState, Goes, Guarded, Run, MkdirPath, OpenPath, RemovePath, Lookup, Valid, RootAt, Plain, CanOpen, CanMkdir, CanRemovePath, Close;
    var s, g := Format.FreshState(mb), Format.FreshGhost(Format.InodeCount(mb), Format.DataBlocks(mb));
    FreshAtRoot(mb);
    ExplainedIsValid(s, g, 2);
    var d, es := s.sb.freeInode, [Entry(s.sb.freeInode, DOT), Entry(0, DOTDOT)];
    var g1 := MkdirInRoot(s, g, 2, dn);
    var s1 := MkdirPath(s, AsWritten, dn);
    MadeIsInDir(g, s1, g1, d, dn);
    DotsAreNot(es, a);
    var g2 := OpenMakes(s1, g1, d, dn, es, a, access);
    var s2, na := OpenPath(s1, PathOf(dn, a), access).0, s1.sb.freeInode;
    CloseGoes(s2, g2, d, dn, es + [Entry(na, a)]);
    var s3 := Close(s2, 2);
    DotsAreNot(es, b);
    var g4 := OpenMakes(s3, g2, d, dn, es + [Entry(na, a)], b, access);
    var s4 := OpenPath(s3, PathOf(dn, b), access).0;
    RunStarts(s, FMkdir(dn), s1);
    var ops := [FMkdir(dn), FOpen(PathOf(dn, a), access), FClose(2)];
    assert ops[..1] + [ops[1]] == ops[..2] && ops[..2] + [ops[2]] == ops && ops[..1] == [FMkdir(dn)];
    assert ops + [FOpen(PathOf(dn, b), access)] == MissingRun(dn, a, b, access);
    RunGoesOn(s, ops[..1], s1, ops[1], s2);
    RunGoesOn(s, ops[..2], s2, ops[2], s3);
    RunGoesOn(s, ops, s3, FOpen(PathOf(dn, b), access), s4);
    FirstIsBehind(s1, s2, s3, s4, g2, g4, d, dn, a, b);
    BehindIsMissed(s4, g4, d, dn, es + [Entry(na, a)] + [Entry(s3.sb.freeInode, b)], 2, stale);
  }
}
