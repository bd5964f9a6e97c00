/** Path printing in the shell: `convert_absolute` walks from a directory up to the root and builds
    the string that leads back down. */
module Absolute {
  import opened Bytes
  import opened Records
  import opened Paths
  import opened Walk
  import opened Invariant
  import Opendir

  // ---- names up the tree ----

  lemma ParentIsDir(s: State, g: Ghost, i: int)
    requires Inv(s, g) && 0 < i < |s.inodes| && g.role[i].InUse?
    ensures var p := s.inodes[i].parent;
            && |g.role| == |g.rank| == |g.pos| == |g.dirs| == |s.inodes|
            && UsedDir(s.inodes, g.role, p) && g.rank[i] == g.rank[p] + 1
            && 2 <= g.pos[i] < |g.dirs[p]| && g.dirs[p][g.pos[i]].inode == i
            && NameOk(g.dirs[p][g.pos[i]].name)
  {
    hide FreeInodes, FreeBlocks, Owners, Deeps, Lasts, DirsMatch, TableOk;
    assert Named(s.inodes, g.role, g.pos, g.rank, g.dirs, i);
    var p := s.inodes[i].parent;
    assert ChildOk(s.inodes, g.role, g.pos, g.dirs[p][g.pos[i]], p, g.pos[i]);
  }

  /** An inode in use. */
  ghost predicate Used(s: State, g: Ghost, i: int) {
    Inv(s, g) && 0 <= i < |s.inodes| && |g.role| == |s.inodes| && |g.rank| == |s.inodes| && g.role[i].InUse?
  }

  /** The name under which its parent lists inode i. */
  ghost function NameIn(s: State, g: Ghost, i: int): seq<byte>
    requires Used(s, g, i) && i != 0
  {
    ParentIsDir(s, g, i);
    g.dirs[s.inodes[i].parent][g.pos[i]].name
  }

  /** The names from the root down to inode i. */
  ghost function Names(s: State, g: Ghost, i: int): (r: seq<seq<byte>>)
    requires Used(s, g, i)
    ensures |r| == g.rank[i]
    decreases g.rank[i]
  {
    if i == 0 then RootRank(s, g); []
    else
      ParentIsDir(s, g, i);
      Names(s, g, s.inodes[i].parent) + [NameIn(s, g, i)]
  }

  lemma RootRank(s: State, g: Ghost)
    requires Inv(s, g)
    ensures |g.rank| > 0 && g.rank[0] == 0
  {
  }

  /** No directory lists a name twice. */
  ghost predicate UniqueNames(s: State, g: Ghost)
    requires |g.role| == |g.dirs| == |s.inodes|
  {
    forall i, j, k {:trigger g.dirs[i][j], g.dirs[i][k]} :: UsedDir(s.inodes, g.role, i) && 0 <= j < k < |g.dirs[i]| ==>
      g.dirs[i][j].name != g.dirs[i][k].name
  }

  /** The entries as the lookup reads them. */
  lemma EntriesOfDir(s: State, g: Ghost, i: int)
    requires Inv(s, g) && UsedDir(s.inodes, g.role, i)
    ensures |g.dirs| == |s.inodes| && SizeOk(s.inodes[i]) && RawEntries(s.blocks, ReadInode(s.inodes, i)) == g.dirs[i]
  {
    hide FreeInodes, FreeBlocks, Owners, Deeps, Lasts, Tree, TableOk;
    assert EntriesMatch(s.inodes[i], s.blocks, g.dirs[i]) && InodeOk(s.inodes[i], i, g.role[i]);
  }

  /** Looking names up one after the other. */
  lemma {:induction false} LookupThen(inodes: seq<Inode>, blocks: seq<Block>, cur: int, a: seq<seq<byte>>, b: seq<seq<byte>>, found: Entry)
    requires Lookup(inodes, blocks, cur, a, found).Some?
    requires a == [] ==> found.inode == cur
    ensures var e := Lookup(inodes, blocks, cur, a, found).value;
            Lookup(inodes, blocks, cur, a + b, found) == Lookup(inodes, blocks, e.inode, b, e)
    decreases |a|
  {
    if a == [] {
      assert a + b == b;
    } else {
      var es := RawEntries(blocks, ReadInode(inodes, cur));
      var k := FirstNamed(es, 0, a[0]);
      assert (a + b)[0] == a[0] && (a + b)[1..] == a[1..] + b;
      LookupThen(inodes, blocks, es[k].inode, a[1..], b, es[k]);
    }
  }

  /** One name down. */
  lemma LookupChild(s: State, g: Ghost, i: int, found: Entry)
    requires Used(s, g, i) && i != 0 && |g.dirs| == |s.inodes| && UniqueNames(s, g)
    ensures var e := Lookup(s.inodes, s.blocks, s.inodes[i].parent, [NameIn(s, g, i)], found);
            e.Some? && e.value.inode == i
  {
    hide Inv, RawEntries, NameOk;
    ParentIsDir(s, g, i);
    var p := s.inodes[i].parent;
    EntriesOfDir(s, g, p);
    var k := FirstNamed(g.dirs[p], 0, NameIn(s, g, i));
    assert g.dirs[p][k].name == g.dirs[p][g.pos[i]].name;
    var e := g.dirs[p][k];
    assert Lookup(s.inodes, s.blocks, e.inode, [], e) == Some(e);
  }

  /** The names of an inode lead to it. */
  lemma {:induction false} NamesLead(s: State, g: Ghost, i: int)
    requires Used(s, g, i) && |g.dirs| == |s.inodes| && UniqueNames(s, g)
    ensures var e := Lookup(s.inodes, s.blocks, 0, Names(s, g, i), ROOT_ENTRY);
            e.Some? && e.value.inode == i
    decreases g.rank[i]
  {
    hide Inv, UniqueNames, NameIn, Lookup;
    if i == 0 {
      LookupNothing(s.inodes, s.blocks, ROOT_ENTRY);
    } else {
      ParentIsDir(s, g, i);
      var p := s.inodes[i].parent;
      NamesLead(s, g, p);
      LookupThen(s.inodes, s.blocks, 0, Names(s, g, p), [NameIn(s, g, i)], ROOT_ENTRY);
      LookupChild(s, g, i, Lookup(s.inodes, s.blocks, 0, Names(s, g, p), ROOT_ENTRY).value);
    }
  }

  lemma LookupNothing(inodes: seq<Inode>, blocks: seq<Block>, found: Entry)
    ensures Lookup(inodes, blocks, 0, [], found) == Some(found)
  {
  }

  // ---- the printed path ----

  /** The string that `convert_absolute` returns for these names. */
  function Printed(names: seq<seq<byte>>): seq<byte> {
    if names == [] then [SLASH] else PathString(names)
  }

  /** The path leads to inode i in the tree. */
  predicate Reaches(s: State, path: seq<byte>, i: int) {
    var e := Lookup(s.inodes, s.blocks, 0, Tokens(path, SLASH_QUOTE), ROOT_ENTRY);
    e.Some? && e.value.inode == i
  }

  /** Neither a slash nor an apostrophe in any name on the way to inode i. */
  ghost predicate CleanNames(s: State, g: Ghost, i: int)
    requires Used(s, g, i)
  {
    forall n :: n in Names(s, g, i) ==> Clean(n, SLASH_QUOTE)
  }

  lemma PrintedTokens(names: seq<seq<byte>>)
    requires forall n :: n in names ==> Clean(n, SLASH_QUOTE)
    ensures Tokens(Printed(names), SLASH_QUOTE) == names
  {
    TokensOfPath(names, SLASH_QUOTE);
    if names == [] {
      assert Printed(names)[1..] == [];
    }
  }

  /** An entry of a directory leads to itself, to the parent or to a child of that name. */
  lemma EntryLeads(s: State, g: Ghost, i: int, k: nat)
    requires Used(s, g, i) && s.inodes[i].kind == DIR && |g.dirs| == |s.inodes| && k < |g.dirs[i]|
    ensures var j := g.dirs[i][k].inode;
            && Used(s, g, j)
            && (j != 0 && k >= 2 ==> s.inodes[j].parent == i && NameIn(s, g, j) == g.dirs[i][k].name)
            && (k >= 2 ==> j != 0)
            && (k == 1 ==> j == s.inodes[i].parent) && (k == 0 ==> j == i)
  {
    hide FreeInodes, FreeBlocks, Owners, Deeps, Lasts, DirsMatch, TableOk;
    assert DotsOk(g.dirs[i], i, s.inodes[i].parent);
    if k >= 2 {
      assert ChildOk(s.inodes, g.role, g.pos, g.dirs[i][k], i, k);
    } else if k == 1 && i != 0 {
      ParentIsDir(s, g, i);
    }
  }

  lemma NamesOfEntry(s: State, g: Ghost, i: int, k: nat)
    requires Used(s, g, i) && s.inodes[i].kind == DIR && |g.dirs| == |s.inodes| && k < |g.dirs[i]|
    requires CleanNames(s, g, i) && Clean(g.dirs[i][k].name, SLASH_QUOTE)
    ensures Used(s, g, g.dirs[i][k].inode) && CleanNames(s, g, g.dirs[i][k].inode)
  {
    hide Inv, NameIn, Clean;
    EntryLeads(s, g, i, k);
    RootFacts(s, g);
    if k == 1 && i != 0 {
      ParentIsDir(s, g, i);
      var p := s.inodes[i].parent;
      forall n | n in Names(s, g, p) ensures n in Names(s, g, i) {
      }
    }
  }

  lemma RootFacts(s: State, g: Ghost)
    requires Inv(s, g)
    ensures Used(s, g, 0) && s.inodes[0].parent == 0 && s.inodes[0].kind == DIR
  {
  }

  /** A lookup by clean names never leaves the part of the tree that has clean names only. */
  lemma {:induction false} LookupStaysClean(s: State, g: Ghost, cur: int, toks: seq<seq<byte>>, found: Entry)
    requires Used(s, g, cur) && CleanNames(s, g, cur) && found.inode == cur
    requires forall t :: t in toks ==> Clean(t, SLASH_QUOTE)
    requires Lookup(s.inodes, s.blocks, cur, toks, found).Some?
    ensures var i := Lookup(s.inodes, s.blocks, cur, toks, found).value.inode;
            Used(s, g, i) && CleanNames(s, g, i)
    decreases |toks|
  {
    hide Inv, CleanNames, Clean, FirstNamed, RawEntries;
    if toks != [] {
      EntriesOfDir(s, g, cur);
      var es := RawEntries(s.blocks, ReadInode(s.inodes, cur));
      var k := FirstNamed(es, 0, toks[0]);
      FirstIsNamed(es, toks[0]);
      assert toks[0] in toks;
      NamesOfEntry(s, g, cur, k);
      LookupStaysClean(s, g, es[k].inode, toks[1..], es[k]);
    }
  }

  lemma FirstIsNamed(es: seq<Entry>, name: seq<byte>)
    requires FirstNamed(es, 0, name) < |es|
    ensures es[FirstNamed(es, 0, name)].name == name
  {
  }

  lemma ReachedIsClean(s: State, g: Ghost, path: seq<byte>, i: int)
    requires Inv(s, g) && Reaches(s, path, i)
    ensures Used(s, g, i) && CleanNames(s, g, i)
  {
    hide Inv, Lookup;
    RootFacts(s, g);
    LookupStaysClean(s, g, 0, Tokens(path, SLASH_QUOTE), ROOT_ENTRY);
  }

  /** Path printing inverts path lookup exactly for the inodes on whose way there is no apostrophe
      (which `f_opendir` takes for a separator); the others are reached by no path whatever. */
  lemma PrintedPathLeadsBackExactly(s: State, g: Ghost, i: int)
    requires Used(s, g, i) && |g.dirs| == |s.inodes| && UniqueNames(s, g)
    ensures CleanNames(s, g, i) ==> Reaches(s, Printed(Names(s, g, i)), i)
    ensures !CleanNames(s, g, i) ==> forall path :: !Reaches(s, path, i)
  {
    hide Inv, Lookup;
    if CleanNames(s, g, i) {
      PrintedTokens(Names(s, g, i));
      NamesLead(s, g, i);
    } else {
      forall path ensures !Reaches(s, path, i) {
        if Reaches(s, path, i) {
          ReachedIsClean(s, g, path, i);
        }
      }
    }
  }

  /** A step down from a directory. */
  lemma NotPassedBelow(inodes: seq<Inode>, blocks: seq<Block>, p: int, name: seq<byte>, rest: seq<seq<byte>>, i: int)
    requires ReadInode(inodes, p).kind == DIR && !PassesFile(inodes, blocks, i, rest)
    requires var es := RawEntries(blocks, ReadInode(inodes, p));
             var k := FirstNamed(es, 0, name);
             k < |es| && ReadInode(inodes, es[k].inode).index == i
    ensures !PassesFile(inodes, blocks, p, [name] + rest)
  {
    assert ([name] + rest)[1..] == rest;
  }

  /** On that way every inode but possibly the last is a directory. */
  lemma {:induction false} NoFilePassed(s: State, g: Ghost, i: int, rest: seq<seq<byte>>)
    requires Used(s, g, i) && |g.dirs| == |s.inodes| && UniqueNames(s, g)
    requires !PassesFile(s.inodes, s.blocks, i, rest)
    ensures !PassesFile(s.inodes, s.blocks, 0, Names(s, g, i) + rest)
    decreases g.rank[i]
  {
    hide Inv, NameIn, FirstNamed, UniqueNames, PassesFile, RawEntries;
    if i == 0 {
      assert Names(s, g, i) + rest == rest;
    } else {
      ParentIsDir(s, g, i);
      var p := s.inodes[i].parent;
      var name := NameIn(s, g, i);
      EntriesOfDir(s, g, p);
      ChildIsFirst(s, g, i);
      Opendir.UsedNumber(s, g, i);
      NotPassedBelow(s.inodes, s.blocks, p, name, rest, i);
      NoFilePassed(s, g, p, [name] + rest);
      assert Names(s, g, i) + rest == Names(s, g, p) + ([name] + rest);
    }
  }

  lemma ChildIsFirst(s: State, g: Ghost, i: int)
    requires Used(s, g, i) && i != 0 && |g.dirs| == |s.inodes| && UniqueNames(s, g)
    ensures var p := s.inodes[i].parent;
            0 <= p < |g.dirs| && var k := FirstNamed(g.dirs[p], 0, NameIn(s, g, i)); k < |g.dirs[p]| && g.dirs[p][k].inode == i
  {
    hide Inv, NameOk;
    ParentIsDir(s, g, i);
    var p := s.inodes[i].parent;
    var k := FirstNamed(g.dirs[p], 0, NameIn(s, g, i));
    assert g.dirs[p][k].name == g.dirs[p][g.pos[i]].name;
  }

  /** `f_opendir` of the printed path returns the inode that was printed. */
  lemma PrintedPathOpens(s: State, g: Ghost, i: int)
    requires Used(s, g, i) && |g.dirs| == |s.inodes| && UniqueNames(s, g) && CleanNames(s, g, i)
    requires Opendir.RoomToWalk(s.inodes, s.table)
    ensures var e := Walk.Opendir(s, Printed(Names(s, g, i))).1; e.Some? && e.value.inode == i
  {
    hide Inv, Lookup, Forged, Opendir.RoomToWalk;
    var names := Names(s, g, i);
    PrintedTokens(names);
    NoFilePassed(s, g, i, []);
    assert names + [] == names;
    NamesLead(s, g, i);
    NotForged(s.inodes, s.blocks, 0, names);
    Opendir.OpendirIsLookup(s, g, Printed(names));
  }

  lemma NotForged(inodes: seq<Inode>, blocks: seq<Block>, i: int, toks: seq<seq<byte>>)
    requires !PassesFile(inodes, blocks, i, toks)
    ensures !Forged(inodes, blocks, i, toks)
  {
  }
}
