/** Where every block and every inode is: the counts add up, and what a file took comes back when
    it is removed. */
module Conservation {
  import opened Records
  import opened Operations
  import opened FileTree
  import opened Invariant
  import Roles

  // ---- the blocks add up ----

  /** The blocks of the inodes below n. */
  ghost function OwnedBelow(own: seq<Owner>, n: nat): set<int> { set b | 0 <= b < |own| && Taken(own[b]) && own[b].i < n }

  ghost function BlocksOf(own: seq<Owner>, i: nat): set<int> { set b | 0 <= b < |own| && Taken(own[b]) && own[b].i == i }

  /** The number of blocks that an inode of this size should have, index blocks included. */
  function TreeSize(node: Inode): nat {
    Owned(node) + (if FileSizeOk(node) then |Beyond(BlocksFor(node.size))| else 0)
  }

  /** The blocks that the first n inodes should have, by their sizes. */
  ghost function SumOwned(inodes: seq<Inode>, role: seq<Role>, n: nat): nat
    requires n <= |inodes| == |role|
  {
    if n == 0 then 0
    else SumOwned(inodes, role, n - 1) + (if role[n - 1].InUse? then TreeSize(inodes[n - 1]) else 0)
  }

  ghost function Numbers(n: nat): (r: set<int>)
    ensures |r| == n && forall b :: b in r <==> 0 <= b < n
  {
    if n == 0 then {} else Numbers(n - 1) + {n - 1}
  }

  /** The blocks in the first d places of the free list. */
  ghost function ListedBelow(own: seq<Owner>, d: nat): set<int> { set b | 0 <= b < |own| && own[b].Free? && own[b].d < d }

  lemma OneMoreListed(blocks: seq<Block>, own: seq<Owner>, fb: seq<int>, d: nat)
    requires d < |fb| && FreeBlocks(Top(fb), blocks, own, fb)
    ensures ListedBelow(own, d + 1) == ListedBelow(own, d) + {fb[d]} && fb[d] !in ListedBelow(own, d)
  {
    assert FreeAt(fb, blocks, own, d);
    forall b | 0 <= b < |own| && own[b] == Free(d) ensures b == fb[d] {
      assert BlockListed(fb, own[b], b);
    }
  }

  /** The first d elements of the free list are d different blocks. */
  lemma {:induction false} ListedDistinct(blocks: seq<Block>, own: seq<Owner>, fb: seq<int>, d: nat)
    requires d <= |fb| && FreeBlocks(Top(fb), blocks, own, fb)
    ensures ListedBelow(own, d) == (set x | 0 <= x < d :: fb[x])
    ensures |ListedBelow(own, d)| == d
  {
    hide FreeBlocks;
    if d == 0 {
      assert ListedBelow(own, 0) == {};
    } else {
      ListedDistinct(blocks, own, fb, d - 1);
      OneMoreListed(blocks, own, fb, d - 1);
      assert (set x | 0 <= x < d :: fb[x]) == (set x | 0 <= x < d - 1 :: fb[x]) + {fb[d - 1]};
    }
  }

  /** Every block on the free list is on it once and has no other use; no free block is missing. */
  lemma FreeListIsFreeSet(s: State, g: Ghost)
    requires Inv(s, g)
    ensures FreeSet(g.own) == set x | 0 <= x < |g.fb| :: g.fb[x]
    ensures |FreeSet(g.own)| == |g.fb|
  {
    ListedDistinct(s.blocks, g.own, g.fb, |g.fb|);
    forall b | b in FreeSet(g.own) ensures g.own[b].d < |g.fb| {
      assert BlockListed(g.fb, g.own[b], b);
    }
    assert FreeSet(g.own) == set b | 0 <= b < |g.own| && g.own[b].Free? && g.own[b].d < |g.fb|;
  }

  /** The first k blocks of inode i, as a set, are k blocks. */
  lemma {:induction false} OwnedDistinct(node: Inode, own: seq<Owner>, i: nat, k: nat)
    requires k <= Owned(node) && OwnsAll(node, own, i)
    ensures |set x | 0 <= x < k :: node.dblocks[x] as int| == k
  {
    if k > 0 {
      OwnedDistinct(node, own, i, k - 1);
      assert OwnsAt(node, own, i, k - 1);
      forall x | 0 <= x < k - 1 ensures node.dblocks[x] != node.dblocks[k - 1] {
        assert OwnsAt(node, own, i, x);
      }
      assert (set x | 0 <= x < k :: node.dblocks[x] as int) == (set x | 0 <= x < k - 1 :: node.dblocks[x] as int) + {node.dblocks[k - 1] as int};
    }
  }

  ghost function DirectOf(own: seq<Owner>, i: nat): set<int> { set b | 0 <= b < |own| && own[b].By? && own[b].i == i }

  ghost function DeepOf(own: seq<Owner>, i: nat): set<int> { set b | 0 <= b < |own| && own[b].Deep? && own[b].i == i }

  lemma DirectCount(inodes: seq<Inode>, role: seq<Role>, own: seq<Owner>, i: nat)
    requires Owners(inodes, role, own) && i < |inodes|
    ensures |DirectOf(own, i)| == if role[i].InUse? then Owned(inodes[i]) else 0
  {
    var a := DirectOf(own, i);
    forall b | b in a ensures role[i].InUse? && own[b].k < Owned(inodes[i]) && inodes[i].dblocks[own[b].k] == b {
      assert OwnerOk(inodes, role, own[b], b);
    }
    if role[i].InUse? {
      var n := Owned(inodes[i]);
      assert OwnsAll(inodes[i], own, i);
      OwnedDistinct(inodes[i], own, i, n);
      forall x | 0 <= x < n ensures inodes[i].dblocks[x] as int in a {
        assert OwnsAt(inodes[i], own, i, x);
      }
      assert a == set x | 0 <= x < n :: inodes[i].dblocks[x] as int;
    } else {
      assert a == {};
    }
  }

  lemma DeepCount(inodes: seq<Inode>, blocks: seq<Block>, role: seq<Role>, own: seq<Owner>, i: nat)
    requires Deeps(inodes, blocks, role, own) && i < |inodes| && FileSizeOk(inodes[i])
    ensures |DeepOf(own, i)| == if role[i].InUse? then |Beyond(BlocksFor(inodes[i].size))| else 0
  {
    var a := DeepOf(own, i);
    forall b | b in a ensures role[i].InUse? {
      assert DeepOk(inodes, blocks, role, own[b], b);
    }
    if role[i].InUse? {
      Roles.DeepList(inodes, blocks, role, own, i);
      var list: seq<int> := DeepNumbers(blocks, inodes[i]);
      assert Distinct(list);
      DistinctSize(list);
      assert a == set b | b in list;
    } else {
      assert a == {};
    }
  }

  lemma BlocksOfOne(inodes: seq<Inode>, blocks: seq<Block>, role: seq<Role>, own: seq<Owner>, i: nat)
    requires Owners(inodes, role, own) && Deeps(inodes, blocks, role, own) && i < |inodes| && FileSizeOk(inodes[i])
    ensures |BlocksOf(own, i)| == if role[i].InUse? then TreeSize(inodes[i]) else 0
  {
    hide Owners, Deeps;
    assert |role| == |inodes| by { assert Owners(inodes, role, own); LengthsOf(inodes, role, own); }
    DirectCount(inodes, role, own, i);
    DeepCount(inodes, blocks, role, own, i);
    assert BlocksOf(own, i) == DirectOf(own, i) + DeepOf(own, i);
    assert DirectOf(own, i) !! DeepOf(own, i);
  }

  lemma LengthsOf(inodes: seq<Inode>, role: seq<Role>, own: seq<Owner>)
    requires Owners(inodes, role, own)
    ensures |role| == |inodes|
  {
  }

  lemma {:induction false} OwnedCount(inodes: seq<Inode>, blocks: seq<Block>, role: seq<Role>, own: seq<Owner>, n: nat)
    requires Owners(inodes, role, own) && Deeps(inodes, blocks, role, own) && n <= |inodes| == |role|
    requires forall i :: 0 <= i < n ==> FileSizeOk(inodes[i])
    ensures |OwnedBelow(own, n)| == SumOwned(inodes, role, n)
  {
    hide Owners, Deeps, TreeSize;
    if n == 0 {
      assert OwnedBelow(own, 0) == {};
    } else {
      OwnedCount(inodes, blocks, role, own, n - 1);
      BlocksOfOne(inodes, blocks, role, own, n - 1);
      assert OwnedBelow(own, n) == OwnedBelow(own, n - 1) + BlocksOf(own, n - 1);
    }
  }

  lemma Partition(own: seq<Owner>, n: nat)
    requires forall b :: 0 <= b < |own| && Taken(own[b]) ==> own[b].i < n
    ensures |FreeSet(own)| + |OwnedBelow(own, n)| + |LostSet(own)| == |own|
  {
    var f, o, l := FreeSet(own), OwnedBelow(own, n), LostSet(own);
    forall b | 0 <= b < |own| ensures b in f || b in o || b in l {
      assert own[b].Free? || Taken(own[b]) || own[b].Lost?;
    }
    assert Numbers(|own|) == f + o + l;
    assert |f + o + l| == |f + o| + |l|;
    assert |f + o| == |f| + |o|;
  }

  /** Every owner is an inode, and every size is one the pointers can lead to. */
  lemma OwnersAreInodes(s: State, g: Ghost)
    requires Inv(s, g)
    ensures |g.role| == |s.inodes| && |g.own| == |s.blocks|
    ensures forall b :: 0 <= b < |g.own| && Taken(g.own[b]) ==> g.own[b].i < |s.inodes|
    ensures forall i :: 0 <= i < |s.inodes| ==> FileSizeOk(s.inodes[i])
  {
    hide FreeInodes, DirsMatch, Tree, TableOk, Lasts, FreeBlocks;
    forall b | 0 <= b < |g.own| && Taken(g.own[b]) ensures g.own[b].i < |s.inodes| {
      if g.own[b].By? {
        assert OwnerOk(s.inodes, g.role, g.own[b], b);
      } else {
        assert DeepOk(s.inodes, s.blocks, g.role, g.own[b], b);
      }
    }
    forall i | 0 <= i < |s.inodes| ensures FileSizeOk(s.inodes[i]) {
      assert InodeOk(s.inodes[i], i, g.role[i]);
    }
  }

  /** Free blocks, the blocks of all inodes in use, index blocks included, and lost blocks make up
      the data region. */
  lemma BlocksAddUp(s: State, g: Ghost)
    requires Inv(s, g)
    ensures |g.role| == |s.inodes|
    ensures |g.fb| + SumOwned(s.inodes, g.role, |s.inodes|) + |LostSet(g.own)| == |s.blocks|
  {
    hide FreeInodes, DirsMatch, Tree, TableOk, Lasts, FreeSet, LostSet, OwnedBelow, SumOwned, Owners, Deeps, FreeBlocks, InodesOk;
    FreeListIsFreeSet(s, g);
    OwnersAreInodes(s, g);
    OwnedCount(s.inodes, s.blocks, g.role, g.own, |s.inodes|);
    Partition(g.own, |s.inodes|);
  }

  /** Every block has its place. */
  lemma EveryBlock(s: State, g: Ghost)
    requires Inv(s, g)
    ensures FreeSet(g.own) + OwnedBelow(g.own, |s.inodes|) + LostSet(g.own) == Numbers(|s.blocks|)
  {
    hide Inv;
    OwnersAreInodes(s, g);
    forall b | 0 <= b < |g.own| ensures b in FreeSet(g.own) || b in OwnedBelow(g.own, |s.inodes|) || b in LostSet(g.own) {
      assert g.own[b].Free? || Taken(g.own[b]) || g.own[b].Lost?;
    }
  }

  // ---- inodes ----

  /** Every inode in use but the root is named by exactly one entry of exactly one directory, "."
      and ".." apart; an inode on the free list is named by none and not open. */
  lemma NamedExactlyOnce(s: State, g: Ghost, j: nat, i: nat, k: nat)
    requires Inv(s, g) && 0 < j < |s.inodes| && UsedDir(s.inodes, g.role, i)
    requires i < |g.dirs| && 2 <= k < |g.dirs[i]|
    ensures |g.role| == |g.pos| == |s.inodes|
    ensures g.role[j].InUse? ==> UsedDir(s.inodes, g.role, s.inodes[j].parent) && 2 <= g.pos[j] < |g.dirs[s.inodes[j].parent]|
    ensures g.dirs[i][k].inode == j <==> g.role[j].InUse? && i == s.inodes[j].parent && k == g.pos[j]
  {
    assert ChildOk(s.inodes, g.role, g.pos, g.dirs[i][k], i, k);
    if g.role[j].InUse? {
      assert Named(s.inodes, g.role, g.pos, g.rank, g.dirs, j);
    }
  }

  lemma SlotsAreSafe(s: State, g: Ghost, t: nat, u: nat)
    requires Inv(s, g) && t < u < |s.table| && !s.table[t].free
    ensures s.table[t].node.index !in g.fi
    ensures 0 <= s.table[t].node.index < |s.inodes| && s.table[t].node == s.inodes[s.table[t].node.index]
    ensures !s.table[u].free ==> s.table[u].node.index != s.table[t].node.index
  {
    assert SlotOk(s.table[t], s.inodes, g.role);
    forall d | 0 <= d < |g.fi| ensures g.fi[d] != s.table[t].node.index {
      assert IdleAt(g.fi, s.inodes, g.role, d);
    }
  }

  // ---- the disk decides ----

  /** Inode i has this block among its direct ones, from what is on disk. */
  predicate Holds(inodes: seq<Inode>, role: seq<Role>, i: nat, k: nat, b: int)
    requires i < |inodes| && i < |role|
  {
    role[i].InUse? && k < Owned(inodes[i]) && inodes[i].dblocks[k] == b
  }

  /** Inode i has it beyond them. */
  predicate HoldsDeep(inodes: seq<Inode>, blocks: seq<Block>, role: seq<Role>, i: nat, x: Node, b: int)
    requires i < |inodes| && i < |role|
  {
    role[i].InUse? && DeepNeeded(inodes[i], x) && Number(blocks, inodes[i], x) == b
  }

  /** The disk decides who owns a block. */
  lemma OwnerDecided(s: State, g: Ghost, i: nat, k: nat, x: Node, b: nat)
    requires Inv(s, g) && b < |s.blocks|
    ensures |g.role| == |s.inodes| && |g.own| == |s.blocks|
    ensures g.own[b] == By(i, k) <==> i < |s.inodes| && Holds(s.inodes, g.role, i, k, b)
    ensures g.own[b] == Deep(i, x) <==> i < |s.inodes| && HoldsDeep(s.inodes, s.blocks, g.role, i, x, b)
  {
    if g.own[b].By? {
      assert OwnerOk(s.inodes, g.role, g.own[b], b);
    } else if g.own[b].Deep? {
      assert DeepOk(s.inodes, s.blocks, g.role, g.own[b], b);
    }
    if i < |s.inodes| && Holds(s.inodes, g.role, i, k, b) {
      assert OwnsAll(s.inodes[i], g.own, i);
      assert OwnsAt(s.inodes[i], g.own, i, k);
    }
    if i < |s.inodes| && HoldsDeep(s.inodes, s.blocks, g.role, i, x, b) {
      assert DeepAll(s.inodes[i], s.blocks, g.own, i);
      assert DeepAt(s.inodes[i], s.blocks, g.own, i, x);
    }
  }

  /** Blocks in use keep their roles, and the inodes in use at the end have as many blocks as they had
      at the start: then no other block is in use. */
  lemma NoMoreTaken(s: State, g: Ghost, t: State, h: Ghost, b: nat)
    requires Inv(s, g) && Inv(t, h) && |s.inodes| == |t.inodes| && |g.own| == |h.own| && |g.role| == |h.role| == |s.inodes|
    requires forall c :: 0 <= c < |g.own| && Taken(g.own[c]) ==> h.own[c] == g.own[c]
    requires forall i :: 0 <= i < |s.inodes| && h.role[i].InUse? ==> g.role[i].InUse? && DataCount(s.inodes[i]) == DataCount(t.inodes[i])
    requires b < |h.own| && Taken(h.own[b])
    ensures g.own[b] == h.own[b]
  {
    hide FreeInodes, DirsMatch, Tree, TableOk, Lasts, FreeBlocks, InodesOk;
    var i := h.own[b].i;
    if h.own[b].By? {
      var k := h.own[b].k;
      assert OwnerOk(t.inodes, h.role, h.own[b], b);
      assert OwnsAll(s.inodes[i], g.own, i) && OwnsAt(s.inodes[i], g.own, i, k);
      var c := s.inodes[i].dblocks[k];
      assert OwnerOk(t.inodes, h.role, h.own[c], c);
    } else {
      var x := h.own[b].x;
      assert DeepOk(t.inodes, t.blocks, h.role, h.own[b], b);
      assert DeepAll(s.inodes[i], s.blocks, g.own, i) && DeepAt(s.inodes[i], s.blocks, g.own, i, x);
      var c := Number(s.blocks, s.inodes[i], x);
      assert DeepOk(t.inodes, t.blocks, h.role, h.own[c], c);
    }
  }

  /** Then what is free has not changed but for what has been lost. */
  lemma SameHoldersSameFree(s: State, g: Ghost, t: State, h: Ghost, lost: set<int>)
    requires Inv(s, g) && Inv(t, h) && |s.inodes| == |t.inodes| && |g.own| == |h.own| && |g.role| == |h.role| == |s.inodes|
    requires forall c :: 0 <= c < |g.own| && Taken(g.own[c]) ==> h.own[c] == g.own[c]
    requires forall i :: 0 <= i < |s.inodes| && h.role[i].InUse? ==> g.role[i].InUse? && DataCount(s.inodes[i]) == DataCount(t.inodes[i])
    requires LostSet(h.own) == LostSet(g.own) + lost && lost <= FreeSet(g.own)
    ensures FreeSet(h.own) == FreeSet(g.own) - lost
  {
    hide Inv;
    forall b | 0 <= b < |g.own| ensures h.own[b].Free? <==> g.own[b].Free? && b !in lost {
      assert g.own[b].Lost? <==> b in LostSet(g.own);
      assert h.own[b].Lost? <==> b in LostSet(h.own);
      assert g.own[b].Free? <==> b in FreeSet(g.own);
      if Taken(h.own[b]) {
        NoMoreTaken(s, g, t, h, b);
      }
    }
  }

  // ---- lists ----

  /** Two lists through the same links that meet are the same from there to the bottom. */
  lemma {:induction false} ListsMeet(h1: int, blocks1: seq<Block>, own1: seq<Owner>, fb1: seq<int>,
                                     h2: int, blocks2: seq<Block>, own2: seq<Owner>, fb2: seq<int>, a: nat, c: nat)
    requires FreeBlocks(h1, blocks1, own1, fb1) && FreeBlocks(h2, blocks2, own2, fb2)
    requires a < |fb1| && c < |fb2| && fb1[a] == fb2[c]
    requires forall x :: 0 <= x <= c ==> 0 <= fb2[x] < |blocks1| && 0 <= fb2[x] < |blocks2| && Link(blocks1[fb2[x]]) == Link(blocks2[fb2[x]])
    ensures a == c && fb1[..a + 1] == fb2[..a + 1]
  {
    assert FreeAt(fb1, blocks1, own1, a) && FreeAt(fb2, blocks2, own2, c);
    if a > 0 {
      assert FreeAt(fb1, blocks1, own1, a - 1);
    }
    if c > 0 {
      assert FreeAt(fb2, blocks2, own2, c - 1);
    }
    if a > 0 && c > 0 {
      ListsMeet(h1, blocks1, own1, fb1, h2, blocks2, own2, fb2, a - 1, c - 1);
      assert fb1[..a + 1] == fb1[..a] + [fb1[a]] && fb2[..c + 1] == fb2[..c] + [fb2[c]];
    }
  }

  /** The list on disk alone decides what is on it. */
  lemma FreeListDecided(head: int, blocks: seq<Block>, own1: seq<Owner>, fb1: seq<int>, own2: seq<Owner>, fb2: seq<int>)
    requires FreeBlocks(head, blocks, own1, fb1) && FreeBlocks(head, blocks, own2, fb2)
    ensures fb1 == fb2
    ensures forall b :: 0 <= b < |own1| ==> (own1[b].Free? <==> own2[b].Free?)
  {
    forall x | 0 <= x < |fb2| ensures 0 <= fb2[x] < |blocks| {
      assert FreeAt(fb2, blocks, own2, x);
    }
    if fb1 != [] {
      assert FreeAt(fb1, blocks, own1, |fb1| - 1);
    }
    if fb1 != [] && fb2 != [] {
      ListsMeet(head, blocks, own1, fb1, head, blocks, own2, fb2, |fb1| - 1, |fb2| - 1);
    }
    forall b | 0 <= b < |own1| ensures own1[b].Free? <==> own2[b].Free? {
      assert BlockListed(fb1, own1[b], b) && BlockListed(fb2, own2[b], b);
      if own1[b].Free? {
        assert FreeAt(fb2, blocks, own2, own1[b].d);
      }
      if own2[b].Free? {
        assert FreeAt(fb1, blocks, own1, own2[b].d);
      }
    }
  }

  /** Two different blocks on a list have different links. */
  lemma LinksDiffer(head: int, blocks: seq<Block>, own: seq<Owner>, fb: seq<int>, x: nat, y: nat)
    requires FreeBlocks(head, blocks, own, fb) && x < |own| && y < |own| && x != y && own[x].Free? && own[y].Free?
    ensures Link(blocks[x]) != Link(blocks[y])
  {
    assert BlockListed(fb, own[x], x) && BlockListed(fb, own[y], y);
    assert FreeAt(fb, blocks, own, own[x].d) && FreeAt(fb, blocks, own, own[y].d);
    if own[x].d > 0 {
      assert FreeAt(fb, blocks, own, own[x].d - 1);
    }
    if own[y].d > 0 {
      assert FreeAt(fb, blocks, own, own[y].d - 1);
    }
  }

  lemma FreeCounts(head: int, blocks: seq<Block>, own: seq<Owner>, fb: seq<int>)
    requires FreeBlocks(head, blocks, own, fb)
    ensures |FreeSet(own)| == |fb|
  {
    ListedDistinct(blocks, own, fb, |fb|);
    forall b | b in FreeSet(own) ensures own[b].d < |fb| {
      assert BlockListed(fb, own[b], b);
    }
    assert FreeSet(own) == set b | 0 <= b < |own| && own[b].Free? && own[b].d < |fb|;
  }

  /** A list that has one more block, at its head, goes on where the old one began. */
  lemma HeadGoesOn(head: int, blocks: seq<Block>, own: seq<Owner>, fb: seq<int>,
                   x: nat, blocks': seq<Block>, own': seq<Owner>, fb': seq<int>)
    requires FreeBlocks(head, blocks, own, fb) && FreeBlocks(x, blocks', own', fb') && |own'| == |own|
    requires x < |own| && !own[x].Free? && FreeSet(own') == FreeSet(own) + {x as int}
    requires forall b :: 0 <= b < |own| && own[b].Free? ==> blocks'[b] == blocks[b]
    ensures Link(blocks'[x]) == head
  {
    FreeCounts(head, blocks, own, fb);
    FreeCounts(x, blocks', own', fb');
    var m := |fb|;
    assert |fb'| == m + 1;
    assert FreeAt(fb', blocks', own', m);
    if m > 0 {
      assert FreeAt(fb', blocks', own', m - 1);
      var y := fb'[m - 1];
      assert y in FreeSet(own');
      assert y in FreeSet(own) && BlockListed(fb, own[y], y);
      var d := own[y].d;
      forall z | 0 <= z <= d
        ensures 0 <= fb[z] < |blocks'| && 0 <= fb[z] < |blocks| && Link(blocks'[fb[z]]) == Link(blocks[fb[z]])
      {
        assert FreeAt(fb, blocks, own, z);
      }
      ListsMeet(x, blocks', own', fb', head, blocks, own, fb, m - 1, d);
    }
  }

  /** Who owns a block is on disk: two explanations with the same inodes in use agree. */
  lemma TakenDecided(inodes: seq<Inode>, blocks: seq<Block>, r1: seq<Role>, own1: seq<Owner>, r2: seq<Role>, own2: seq<Owner>, b: nat)
    requires Owners(inodes, r1, own1) && Deeps(inodes, blocks, r1, own1) && Owners(inodes, r2, own2) && Deeps(inodes, blocks, r2, own2)
    requires forall i :: 0 <= i < |inodes| && r1[i].InUse? ==> r2[i].InUse?
    requires b < |own1| && Taken(own1[b])
    ensures own2[b] == own1[b]
  {
    var i := own1[b].i;
    if own1[b].By? {
      assert OwnerOk(inodes, r1, own1[b], b);
      assert OwnsAll(inodes[i], own2, i) && OwnsAt(inodes[i], own2, i, own1[b].k);
    } else {
      assert DeepOk(inodes, blocks, r1, own1[b], b);
      assert DeepAll(inodes[i], blocks, own2, i) && DeepAt(inodes[i], blocks, own2, i, own1[b].x);
    }
  }
}
