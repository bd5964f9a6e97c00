/** `find_next_datablock` as intended, at every level of indirection.

    Changed in `find_next_datablock` and `update_inodes_datablocks`: blocks are numbered from 0 as
    in `get_block_from_index` (lines 1259-1262, 1276-1280, 1324-1335), the index into the second
    level of the triple-indirect tree is reduced modulo 128 (1397), and the index blocks that are
    still missing on the way to a new block are taken off the free list and recorded before it. */
module InstallIntended {
  import opened Bytes
  import opened BlockMap
  import opened Records
  import opened FileTree
  import opened Operations
  import opened Invariant
  import opened Roles
  import opened WriteSteps

  // ---- what the call does ----

  /** A block off the free list becomes block x of the file open in slot p. */
  function AddNode(s: State, p: nat, x: Node): (t: State)
    requires p < |s.table| && x.InRange()
    ensures |t.table| == |s.table|
  {
    var b := s.sb.freeBlock;
    var node := s.table[p].node;
    var s1 := RequestNewBlock(s);
    if x.InInode() then SaveOpenInode(s1, p, WithPointer(node, x, b))
    else
      var ib := Number(s1.blocks, node, x.Above());
      SaveBlock(s1, ib, Splice(GetBlock(s1.blocks, ib), 4 * x.At(), WordBytes(b)))
  }

  function AddNodes(s: State, p: nat, xs: seq<Node>): (t: State)
    requires p < |s.table| && forall x :: x in xs ==> x.InRange()
    ensures |t.table| == |s.table|
    decreases |xs|
  {
    if xs == [] then s
    else
      assert xs[0] in xs && forall x :: x in xs[1..] ==> x in xs;
      AddNodes(AddNode(s, p, xs[0]), p, xs[1..])
  }

  /** `find_next_datablock` for a file that has k data blocks: the missing index blocks, from the top
      down, and then the data block. */
  function InstallNext(s: State, p: nat, k: nat): (t: State)
    requires p < |s.table| && k < MAX_BLOCKS
    ensures |t.table| == |s.table|
  {
    NewInRange(k);
    AddNodes(s, p, NewNodes(k))
  }

  lemma NewInRange(k: nat)
    requires k < MAX_BLOCKS
    ensures forall x :: x in NewNodes(k) ==> x.InRange()
  {
    forall x | x in NewNodes(k) ensures x.InRange() {
      NewNodesAre(k, x);
    }
  }

  /** One data block after the other, from the n-th up to the m-th. */
  function Installs(s: State, p: nat, n: nat, m: nat): (t: State)
    requires p < |s.table| && n <= m <= MAX_BLOCKS
    ensures |t.table| == |s.table|
    decreases m
  {
    if m == n then s else InstallNext(Installs(s, p, n, m - 1), p, m - 1)
  }

  // ---- the blocks of one file ----

  /** The role of block x of inode i. */
  function OwnerOf(i: nat, x: Node): (o: Owner)
    ensures Taken(o) && o.i == i
  {
    if x.Data? && x.k < N_DBLOCKS then By(i, x.k) else Deep(i, x)
  }

  function NodeOf(o: Owner): Node
    requires Taken(o)
  {
    if o.By? then Data(o.k) else o.x
  }

  predicate HasNode(blocks: seq<Block>, node: Inode, own: seq<Owner>, i: nat, x: Node) {
    x.InRange() && 0 <= Number(blocks, node, x) < |own| && own[Number(blocks, node, x)] == OwnerOf(i, x)
  }

  predicate NodeAt(blocks: seq<Block>, node: Inode, i: nat, live: set<Node>, o: Owner, b: int)
    requires Taken(o)
  {
    var x := NodeOf(o);
    x in live && o == OwnerOf(i, x) && x.InRange() && Number(blocks, node, x) == b
  }

  /** Inode i owns exactly the blocks `live` of its tree, each where its pointers say. */
  ghost predicate HasTree(blocks: seq<Block>, node: Inode, own: seq<Owner>, i: nat, live: set<Node>) {
    && |own| == |blocks| && Rooted(live)
    && (forall x {:trigger HasNode(blocks, node, own, i, x)} :: x in live ==> HasNode(blocks, node, own, i, x))
    && (forall b {:trigger NodeAt(blocks, node, i, live, own[b], b)} ::
          0 <= b < |own| && Taken(own[b]) && own[b].i == i ==> NodeAt(blocks, node, i, live, own[b], b))
  }

  lemma TreeIsSeparate(blocks: seq<Block>, node: Inode, own: seq<Owner>, i: nat, live: set<Node>)
    requires HasTree(blocks, node, own, i, live)
    ensures Separate(blocks, node, live)
  {
    forall x, y | x in live && y in live && x != y ensures Number(blocks, node, x) != Number(blocks, node, y) {
      assert HasNode(blocks, node, own, i, x) && HasNode(blocks, node, own, i, y);
    }
    forall x | x in live ensures 0 <= Number(blocks, node, x) < |blocks| {
      assert HasNode(blocks, node, own, i, x);
    }
  }

  /** The invariant says so of every inode in use. */
  lemma TreeOfInode(s: State, g: Ghost, i: nat)
    requires Inv(s, g) && i < |s.inodes| && |g.role| == |s.inodes| && g.role[i].InUse?
    ensures DataCount(s.inodes[i]) <= MAX_BLOCKS
    ensures HasTree(s.blocks, s.inodes[i], g.own, i, Needs(DataCount(s.inodes[i])))
  {
    hide FreeInodes, FreeBlocks, Lasts, DirsMatch, Tree, TableOk;
    assert InodeOk(s.inodes[i], i, g.role[i]);
    var node := s.inodes[i];
    var n := DataCount(node);
    NeedsRooted(n);
    assert OwnsAll(node, g.own, i) && DeepAll(node, s.blocks, g.own, i);
    forall x | x in Needs(n) ensures HasNode(s.blocks, node, g.own, i, x) {
      if x.Data? && x.k < N_DBLOCKS {
        assert OwnsAt(node, g.own, i, x.k);
      } else {
        assert DeepAt(node, s.blocks, g.own, i, x);
      }
    }
    forall b | 0 <= b < |g.own| && Taken(g.own[b]) && g.own[b].i == i ensures NodeAt(s.blocks, node, i, Needs(n), g.own[b], b) {
      if g.own[b].By? {
        assert OwnerOk(s.inodes, g.role, g.own[b], b);
      } else {
        assert DeepOk(s.inodes, s.blocks, g.role, g.own[b], b);
      }
    }
  }

  /** And what has just been proved of one inode can be put back into the invariant. */
  lemma InodeOfTree(s: State, g: Ghost, i: nat, node: Inode, blocks: seq<Block>, own: seq<Owner>)
    requires Inv(s, g) && i < |s.inodes| && |g.role| == |s.inodes| && g.role[i].InUse? && |own| == |g.own| && |blocks| == |s.blocks|
    requires DataCount(node) <= MAX_BLOCKS && HasTree(blocks, node, own, i, Needs(DataCount(node)))
    requires forall b :: 0 <= b < |g.own| && Taken(g.own[b]) && g.own[b].i != i ==> own[b] == g.own[b] && blocks[b] == s.blocks[b]
    requires forall b :: 0 <= b < |g.own| && Taken(own[b]) && own[b].i != i ==> own[b] == g.own[b]
    ensures Owners(s.inodes[i := node], g.role, own)
    ensures Deeps(s.inodes[i := node], blocks, g.role, own)
  {
    hide FreeInodes, FreeBlocks, Lasts, DirsMatch, Tree, TableOk, InodesOk;
    OwnLength(s, g);
    var inodes' := s.inodes[i := node];
    OthersKeep(s.inodes, g.role, g.own, i, own);
    DirectOfTree(blocks, node, own, i);
    forall j | 0 <= j < |inodes'| && g.role[j].InUse? ensures OwnsAll(inodes'[j], own, j) {
      assert j != i ==> OwnsAll(s.inodes[j], own, j);
    }
    forall j | 0 <= j < |inodes'| && g.role[j].InUse? ensures DeepAll(inodes'[j], blocks, own, j) {
      if j != i {
        OtherDeep(s, g, i, j, blocks, own);
      }
    }
    forall b | 0 <= b < |own| && own[b].By? ensures OwnerOk(inodes', g.role, own[b], b) {
      if own[b].i == i {
        assert NodeAt(blocks, node, i, Needs(DataCount(node)), own[b], b);
      } else {
        assert OwnerOk(s.inodes, g.role, g.own[b], b);
      }
    }
    forall b | 0 <= b < |own| && own[b].Deep? ensures DeepOk(inodes', blocks, g.role, own[b], b) {
      if own[b].i == i {
        assert NodeAt(blocks, node, i, Needs(DataCount(node)), own[b], b);
      } else {
        assert DeepOk(s.inodes, s.blocks, g.role, g.own[b], b);
        var j := own[b].i;
        assert DeepAll(s.inodes[j], s.blocks, g.own, j);
        DeepNumberStays(s.blocks, blocks, s.inodes[j], s.inodes[j], g.own, j, own[b].x);
      }
    }
  }

  lemma DirectOfTree(blocks: seq<Block>, node: Inode, own: seq<Owner>, i: nat)
    requires DataCount(node) <= MAX_BLOCKS && HasTree(blocks, node, own, i, Needs(DataCount(node)))
    ensures OwnsAll(node, own, i) && DeepAll(node, blocks, own, i)
  {
    forall k | 0 <= k < Owned(node) ensures OwnsAt(node, own, i, k) {
      assert HasNode(blocks, node, own, i, Data(k));
    }
    forall x | DeepNeeded(node, x) ensures DeepAt(node, blocks, own, i, x) {
      assert HasNode(blocks, node, own, i, x);
    }
  }

  lemma OtherDeep(s: State, g: Ghost, i: nat, j: nat, blocks: seq<Block>, own: seq<Owner>)
    requires Inv(s, g) && j < |s.inodes| && |g.role| == |s.inodes| && g.role[j].InUse? && j != i
    requires |own| == |g.own| == |blocks| == |s.blocks|
    requires forall b :: 0 <= b < |g.own| && Taken(g.own[b]) && g.own[b].i != i ==> own[b] == g.own[b] && blocks[b] == s.blocks[b]
    ensures DeepAll(s.inodes[j], blocks, own, j)
  {
    hide FreeInodes, FreeBlocks, Lasts, DirsMatch, Tree, TableOk, InodesOk, Owners;
    var node := s.inodes[j];
    assert DeepAll(node, s.blocks, g.own, j);
    forall x | DeepNeeded(node, x) ensures DeepAt(node, blocks, own, j, x) {
      assert DeepAt(node, s.blocks, g.own, j, x);
      DeepNumberStays(s.blocks, blocks, node, node, g.own, j, x);
    }
  }

  // ---- one more block ----

  /** The file open in slot fd has a tree, and the free list is sound. */
  ghost predicate Planted(s: State, g: Ghost, fd: nat, live: set<Node>) {
    && fd < |s.table| && 0 <= s.table[fd].node.index < |s.inodes| && s.inodes[s.table[fd].node.index] == s.table[fd].node
    && s.dsb == s.sb && FreeBlocks(s.sb.freeBlock, s.blocks, g.own, g.fb)
    && HasTree(s.blocks, s.table[fd].node, g.own, s.table[fd].node.index, live)
  }

  /** Only pointers differ. */
  predicate SameButPointers(a: Inode, b: Inode) {
    b == a.(dblocks := b.dblocks, iblocks := b.iblocks, i2block := b.i2block, i3block := b.i3block)
  }

  /** A block of the file is where it was; a data block has the bytes it had. */
  predicate NodeStays(s: State, t: State, fd: nat, x: Node)
    requires fd < |s.table| && fd < |t.table|
  {
    x.InRange() &&
    var b := Number(s.blocks, s.table[fd].node, x);
    Number(t.blocks, t.table[fd].node, x) == b && (x.Data? ==> GetBlock(t.blocks, b) == GetBlock(s.blocks, b))
  }

  /** From s to t the tree of the open file has grown from `was` to `live`; no block has been lost, no
      block of another file touched, and each new block has come off the free list. */
  ghost predicate Grown(s: State, g: Ghost, fd: nat, was: set<Node>, t: State, h: Ghost, live: set<Node>) {
    && Planted(s, g, fd, was) && Planted(t, h, fd, live) && was <= live
    && t.table[fd].node.index == s.table[fd].node.index
    && t == FileChanged(s, fd, t.table[fd], t.blocks, t.sb.freeBlock)
    && t.table[fd] == s.table[fd].(node := t.table[fd].node) && SameButPointers(s.table[fd].node, t.table[fd].node)
    && h == g.(own := h.own, fb := h.fb) && |h.own| == |g.own| == |t.blocks| == |s.blocks|
    && |h.fb| <= |g.fb| && h.fb == g.fb[..|h.fb|] && |h.fb| + |live| == |g.fb| + |was|
    && (forall b :: 0 <= b < |g.own| && Taken(g.own[b]) && g.own[b].i != s.table[fd].node.index ==>
          h.own[b] == g.own[b] && t.blocks[b] == s.blocks[b])
    && (forall b :: 0 <= b < |g.own| && Taken(h.own[b]) && h.own[b].i != s.table[fd].node.index ==> h.own[b] == g.own[b])
    && (forall b :: 0 <= b < |g.own| ==> (h.own[b].Lost? <==> g.own[b].Lost?))
    && (forall b :: 0 <= b < |g.own| && h.own[b].Free? ==> h.own[b] == g.own[b])
    && (forall x {:trigger NodeStays(s, t, fd, x)} :: x in was ==> NodeStays(s, t, fd, x))
  }

  lemma NothingGrown(s: State, g: Ghost, fd: nat, live: set<Node>)
    requires Planted(s, g, fd, live)
    ensures Grown(s, g, fd, live, s, g, live)
  {
    hide FreeBlocks, HasTree;
    TreeLength(s, g, fd, live);
    assert s.table[fd := s.table[fd]] == s.table && s.inodes[s.table[fd].node.index := s.inodes[s.table[fd].node.index]] == s.inodes;
    assert g.fb == g.fb[..|g.fb|];
  }

  lemma TreeLength(s: State, g: Ghost, fd: nat, live: set<Node>)
    requires Planted(s, g, fd, live)
    ensures |g.own| == |s.blocks| && forall x :: x in live ==> x.InRange()
  {
  }

  /** The state after one block more, field by field. */
  lemma AddForm(s: State, g: Ghost, fd: nat, live: set<Node>, x: Node)
    requires Planted(s, g, fd, live) && g.fb != [] && x.InRange() && (x.InInode() || x.Above() in live)
    ensures 0 <= s.sb.freeBlock < |s.blocks| == |g.own| && s.sb.freeBlock == Top(g.fb) && g.own[s.sb.freeBlock].Free?
    ensures var t := AddNode(s, fd, x);
            var (node, blocks) := Recorded(s.blocks, s.table[fd].node, x, s.sb.freeBlock);
            && t.table[fd] == s.table[fd].(node := node) && t.blocks == blocks && |blocks| == |s.blocks|
            && SameButPointers(s.table[fd].node, node)
            && t == FileChanged(s, fd, t.table[fd], t.blocks, Link(s.blocks[s.sb.freeBlock]))
            && t.sb.freeBlock == Link(s.blocks[s.sb.freeBlock]) && t.dsb == t.sb
            && |t.inodes| == |s.inodes| && t.inodes[s.table[fd].node.index] == node
  {
    assert FreeAt(g.fb, s.blocks, g.own, |g.fb| - 1);
    var t, node := AddNode(s, fd, x), s.table[fd].node;
    if x.InInode() {
      assert t.blocks == s.blocks;
    } else {
      assert HasNode(s.blocks, node, g.own, node.index, x.Above());
      var ib := Number(s.blocks, node, x.Above());
      var y: Block := Splice(s.blocks[ib], 4 * x.At(), WordBytes(s.sb.freeBlock));
      assert Splice(s.blocks[ib], 0, y) == y;
      assert s.table[fd := s.table[fd]] == s.table && s.inodes[node.index := s.inodes[node.index]] == s.inodes;
    }
  }

  /** The tree with one block more. */
  lemma TreeGains(blocks: seq<Block>, node: Inode, own: seq<Owner>, i: nat, live: set<Node>, x: Node, b: int32)
    requires HasTree(blocks, node, own, i, live) && x !in live && x.InRange() && (x.InInode() || x.Above() in live)
    requires 0 <= b < |own| && own[b].Free?
    ensures var (node', blocks') := Recorded(blocks, node, x, b);
            && |blocks'| == |blocks| && HasTree(blocks', node', own[b as int := OwnerOf(i, x)], i, live + {x})
            && Number(blocks', node', x) == b
            && (forall y :: y in live ==> y.InRange() && Number(blocks', node', y) == Number(blocks, node, y))
  {
    TreeIsSeparate(blocks, node, own, i, live);
    var (node', blocks') := Recorded(blocks, node, x, b);
    var own' := own[b as int := OwnerOf(i, x)];
    forall y | y in live + {x} ensures y.InRange() && Number(blocks', node', y) == if y == x then b else Number(blocks, node, y) {
      RecordedNumber(blocks, node, live, x, b, y);
    }
    forall y | y in live + {x} ensures HasNode(blocks', node', own', i, y) {
      assert y in live ==> HasNode(blocks, node, own, i, y);
    }
    forall c | 0 <= c < |own'| && Taken(own'[c]) && own'[c].i == i ensures NodeAt(blocks', node', i, live + {x}, own'[c], c) {
      if c != b {
        assert NodeAt(blocks, node, i, live, own[c], c);
      }
    }
  }

  /** What is written is the free list's head no more, and at most one index block of the file. */
  lemma GainWrites(blocks: seq<Block>, node: Inode, own: seq<Owner>, i: nat, live: set<Node>, x: Node, b: int32, fb: seq<int>)
    requires HasTree(blocks, node, own, i, live) && x !in live && x.InRange() && (x.InInode() || x.Above() in live)
    requires FreeBlocks(Top(fb), blocks, own, fb) && fb != [] && b == Top(fb) && 0 <= b < |own|
    ensures var blocks' := Recorded(blocks, node, x, b).1;
            && |blocks'| == |blocks|
            && FreeBlocks(Link(blocks[b]), blocks', own[b as int := OwnerOf(i, x)], fb[..|fb| - 1])
            && (forall c :: 0 <= c < |own| && !(Taken(own[c]) && own[c].i == i) ==> blocks'[c] == blocks[c])
            && (forall y :: y in live && y.Data? ==>
                  y.InRange() && GetBlock(blocks', Number(blocks, node, y)) == GetBlock(blocks, Number(blocks, node, y)))
  {
    var own' := own[b as int := OwnerOf(i, x)];
    TakeBlock(blocks, own, fb, OwnerOf(i, x));
    TreeIsSeparate(blocks, node, own, i, live);
    if !x.InInode() {
      assert HasNode(blocks, node, own, i, x.Above());
      var ib := Number(blocks, node, x.Above());
      WriteOwnedBlock(Link(blocks[b]), blocks, own', fb[..|fb| - 1], ib, Splice(blocks[ib], 4 * x.At(), WordBytes(b)));
    }
  }

  /** One block more keeps everything that growing keeps. */
  lemma AddGrows(s: State, g: Ghost, fd: nat, live: set<Node>, x: Node) returns (h: Ghost)
    requires Planted(s, g, fd, live) && g.fb != [] && x !in live && x.InRange() && (x.InInode() || x.Above() in live)
    ensures var t := AddNode(s, fd, x);
            && Grown(s, g, fd, live, t, h, live + {x})
            && Number(t.blocks, t.table[fd].node, x) == Top(g.fb)
  {
    hide FreeBlocks, HasTree, Recorded, AddNode, Rooted, Separate, FileChanged;
    var i, b := s.table[fd].node.index, s.sb.freeBlock;
    var t := AddNode(s, fd, x);
    AddForm(s, g, fd, live, x);
    TreeGains(s.blocks, s.table[fd].node, g.own, i, live, x, b);
    GainWrites(s.blocks, s.table[fd].node, g.own, i, live, x, b, g.fb);
    h := g.(own := g.own[b as int := OwnerOf(i, x)], fb := g.fb[..|g.fb| - 1]);
    TreeLength(s, g, fd, live);
    forall y | y in live ensures NodeStays(s, t, fd, y) {
    }
    assert |live + {x}| == |live| + 1;
  }

  lemma GrownTrans(s: State, g: Ghost, fd: nat, a: set<Node>, t: State, h: Ghost, b: set<Node>, u: State, f: Ghost, c: set<Node>)
    requires Grown(s, g, fd, a, t, h, b) && Grown(t, h, fd, b, u, f, c)
    ensures Grown(s, g, fd, a, u, f, c)
  {
    hide FreeBlocks, HasTree;
    forall x | x in a ensures NodeStays(s, u, fd, x) {
      assert NodeStays(s, t, fd, x) && NodeStays(t, u, fd, x);
    }
    assert u.table == s.table[fd := u.table[fd]];
    assert u.inodes == s.inodes[s.table[fd].node.index := u.table[fd].node];
  }

  // ---- the next data block ----

  /** The blocks can be added in this order: each new, and below one that is there. */
  ghost predicate Chain(live: set<Node>, xs: seq<Node>)
    decreases |xs|
  {
    xs == [] || (xs[0] !in live && xs[0].InRange() && (xs[0].InInode() || xs[0].Above() in live) && Chain(live + {xs[0]}, xs[1..]))
  }

  ghost function Elements(xs: seq<Node>): (r: set<Node>)
    ensures forall x :: x in r <==> x in xs
  {
    set x | x in xs
  }

  lemma ElementsOfRest(live: set<Node>, xs: seq<Node>)
    requires xs != []
    ensures live + {xs[0]} + Elements(xs[1..]) == live + Elements(xs)
    ensures forall x :: x in xs ==> x == xs[0] || x in xs[1..]
  {
    assert forall x :: x in xs <==> x == xs[0] || x in xs[1..];
  }

  lemma TakenJoin(g: Ghost, h: Ghost, t: State, fd: nat, xs: seq<Node>)
    requires fd < |t.table| && xs != [] && |xs| <= |g.fb| && h.fb == g.fb[..|g.fb| - 1]
    requires xs[0].InRange() && Number(t.blocks, t.table[fd].node, xs[0]) == Top(g.fb)
    requires forall j {:trigger NextTaken(h, t, fd, xs[1..], j)} :: 0 <= j < |xs| - 1 ==> NextTaken(h, t, fd, xs[1..], j)
    ensures forall j {:trigger NextTaken(g, t, fd, xs, j)} :: 0 <= j < |xs| ==> NextTaken(g, t, fd, xs, j)
  {
    hide Number;
    forall j | 0 <= j < |xs| ensures NextTaken(g, t, fd, xs, j) {
      if j > 0 {
        assert NextTaken(h, t, fd, xs[1..], j - 1);
      }
    }
  }

  /** Block xs[j] is the j-th that was taken off the free list of g. */
  predicate NextTaken(g: Ghost, t: State, fd: nat, xs: seq<Node>, j: nat)
    requires fd < |t.table| && j < |xs| <= |g.fb|
  {
    xs[j].InRange() && Number(t.blocks, t.table[fd].node, xs[j]) == g.fb[|g.fb| - 1 - j]
  }

  /** A list of blocks, one after the other, from the head of the free list on. */
  lemma {:induction false} AddAllGrows(s: State, g: Ghost, fd: nat, live: set<Node>, xs: seq<Node>) returns (h: Ghost)
    requires fd < |s.table| && Planted(s, g, fd, live) && Chain(live, xs) && |xs| <= |g.fb|
    ensures forall x :: x in xs ==> x.InRange()
    ensures var t := AddNodes(s, fd, xs);
            && Grown(s, g, fd, live, t, h, live + Elements(xs))
            && |h.fb| == |g.fb| - |xs|
            && (forall j {:trigger NextTaken(g, t, fd, xs, j)} :: 0 <= j < |xs| ==> NextTaken(g, t, fd, xs, j))
    decreases |xs|
  {
    hide AddNode, Planted, Grown, Number, NextTaken, Elements;
    if xs == [] {
      h := g;
      NothingGrown(s, g, fd, live);
      assert Elements(xs) == {};
      assert live + Elements(xs) == live;
    } else {
      var x, rest := xs[0], xs[1..];
      var h1 := AddGrows(s, g, fd, live, x);
      var s1 := AddNode(s, fd, x);
      GrownShrinks(s, g, fd, live, s1, h1, live + {x}, x);
      h := AddAllGrows(s1, h1, fd, live + {x}, rest);
      var t := AddNodes(s1, fd, rest);
      var all := live + Elements(xs);
      ElementsOfRest(live, xs);
      GrownTrans(s, g, fd, live, s1, h1, live + {x}, t, h, all);
      StaysThere(s1, h1, fd, live + {x}, t, h, all, x);
      TakenJoin(g, h1, t, fd, xs);
    }
  }

  lemma StaysThere(s: State, g: Ghost, fd: nat, live: set<Node>, t: State, h: Ghost, all: set<Node>, x: Node)
    requires Grown(s, g, fd, live, t, h, all) && x in live
    ensures fd < |s.table| && fd < |t.table|
    ensures x.InRange() && Number(t.blocks, t.table[fd].node, x) == Number(s.blocks, s.table[fd].node, x)
  {
    assert NodeStays(s, t, fd, x);
  }

  lemma GrownShrinks(s: State, g: Ghost, fd: nat, live: set<Node>, t: State, h: Ghost, live': set<Node>, x: Node)
    requires Grown(s, g, fd, live, t, h, live') && x !in live && live' == live + {x}
    ensures Planted(t, h, fd, live') && |h.fb| == |g.fb| - 1 && h.fb == g.fb[..|g.fb| - 1] && fd < |t.table|
  {
    assert |live + {x}| == |live| + 1;
  }

  /** Element j can be added once those before it have been. */
  predicate Placed(live: set<Node>, xs: seq<Node>, j: nat)
    requires j < |xs|
  {
    xs[j] !in live && xs[j].InRange() && (xs[j].InInode() || xs[j].Above() in live || (j > 0 && xs[j].Above() == xs[j - 1]))
  }

  lemma NewNodesChain(k: nat)
    requires k < MAX_BLOCKS
    ensures Chain(Needs(k), NewNodes(k))
    ensures Needs(k) + Elements(NewNodes(k)) == Needs(k + 1)
  {
    hide NewNodes;
    var xs := NewNodes(k);
    forall x ensures x in Needs(k) || x in xs <==> x in Needs(k + 1) {
      NewNodesAre(k, x);
    }
    forall j | 0 <= j < |xs| ensures Placed(Needs(k), xs, j) {
      assert xs[j] in xs;
      NewNodesAre(k, xs[j]);
      AboveIsThere(k, j);
    }
    NewNodesDistinct(k);
    ChainOf(Needs(k), xs);
  }

  /** What is above a new block is the one added before it, or was there already. */
  lemma AboveIsThere(k: nat, j: nat)
    requires k < MAX_BLOCKS && j < |NewNodes(k)| && NewNodes(k)[j].InRange()
    ensures var x := NewNodes(k)[j];
            x.InInode() || x.Above() in Needs(k) || (j > 0 && x.Above() == NewNodes(k)[j - 1])
  {
    RepairedPathIsBijection(k, Direct(0));
    match RepairedPathOf(k)
    case Direct(_) =>
    case Single(i, a) => AboveInSingle(k, i, a, j);
    case Double(i, a) => AboveInDouble(k, i, a, j);
    case Triple(d, i, a) => AboveInTriple(k, d, i, a, j);
  }

  lemma AboveInSingle(k: nat, i: nat, a: nat, j: nat)
    requires k < MAX_BLOCKS && j < |NewNodes(k)| && NewNodes(k)[j].InRange() && RepairedPathOf(k) == Single(i, a)
    ensures var x := NewNodes(k)[j];
            x.InInode() || x.Above() in Needs(k) || (j > 0 && x.Above() == NewNodes(k)[j - 1])
  {
    var x := NewNodes(k)[j];
    if !x.InInode() {
      AboveFirst(x);
      assert x == Data(k);
    }
  }

  lemma AboveInDouble(k: nat, i: nat, a: nat, j: nat)
    requires k < MAX_BLOCKS && j < |NewNodes(k)| && NewNodes(k)[j].InRange() && RepairedPathOf(k) == Double(i, a)
    ensures var x := NewNodes(k)[j];
            x.InInode() || x.Above() in Needs(k) || (j > 0 && x.Above() == NewNodes(k)[j - 1])
  {
    var x := NewNodes(k)[j];
    if !x.InInode() {
      AboveFirst(x);
      assert x == Data(k) || x == Two(i);
    }
  }

  lemma AboveInTriple(k: nat, d: nat, i: nat, a: nat, j: nat)
    requires k < MAX_BLOCKS && j < |NewNodes(k)| && NewNodes(k)[j].InRange() && RepairedPathOf(k) == Triple(d, i, a)
    ensures var x := NewNodes(k)[j];
            x.InInode() || x.Above() in Needs(k) || (j > 0 && x.Above() == NewNodes(k)[j - 1])
  {
    var x := NewNodes(k)[j];
    if !x.InInode() {
      AboveFirst(x);
      assert x == Data(k) || x == Three(d, i) || x == ThreeMid(d);
    }
  }

  lemma {:induction false} ChainOf(live: set<Node>, xs: seq<Node>)
    requires Distinct(xs)
    requires forall j {:trigger Placed(live, xs, j)} :: 0 <= j < |xs| ==> Placed(live, xs, j)
    ensures Chain(live, xs)
    decreases |xs|
  {
    if xs != [] {
      assert Placed(live, xs, 0);
      var rest := xs[1..];
      forall j | 0 <= j < |rest| ensures Placed(live + {xs[0]}, rest, j) {
        assert Placed(live, xs, j + 1);
        assert rest[j] == xs[j + 1] && xs[j + 1] != xs[0];
      }
      forall i, j | 0 <= i < j < |rest| ensures rest[i] != rest[j] {
        assert xs[i + 1] != xs[j + 1];
      }
      ChainOf(live + {xs[0]}, rest);
    }
  }

  /** `find_next_datablock` as intended, for a file of k data blocks: afterwards it has one more, and
      the blocks it took are the next ones on the free list. */
  lemma InstallGrows(s: State, g: Ghost, fd: nat, k: nat) returns (h: Ghost)
    requires k < MAX_BLOCKS && Planted(s, g, fd, Needs(k)) && |NewNodes(k)| <= |g.fb|
    ensures var t := InstallNext(s, fd, k);
            && Grown(s, g, fd, Needs(k), t, h, Needs(k + 1)) && |h.fb| == |g.fb| - |NewNodes(k)|
            && (forall j {:trigger NextTaken(g, t, fd, NewNodes(k), j)} :: 0 <= j < |NewNodes(k)| ==> NextTaken(g, t, fd, NewNodes(k), j))
  {
    hide Planted, Grown, Number, NewNodes, AddNodes;
    NewInRange(k);
    NewNodesChain(k);
    FdInTable(s, g, fd, Needs(k));
    h := AddAllGrows(s, g, fd, Needs(k), NewNodes(k));
  }

  lemma FdInTable(s: State, g: Ghost, fd: nat, live: set<Node>)
    requires Planted(s, g, fd, live)
    ensures fd < |s.table|
  {
  }

  /** The place of the last block that a file of n data blocks, of m from there on, has taken. */
  function Taking(n: nat, m: nat): nat
    requires n <= m <= MAX_BLOCKS
    decreases m
  {
    if m == n then 0 else Taking(n, m - 1) + |NewNodes(m - 1)|
  }

  lemma {:induction false} TakingMonotone(n: nat, i: nat, m: nat)
    requires n <= i <= m <= MAX_BLOCKS
    ensures Taking(n, i) <= Taking(n, m) && (n < i ==> 0 < Taking(n, i))
    decreases m
  {
    if i < m {
      TakingMonotone(n, i, m - 1);
    }
  }

  /** The i-th data block is the one that the free list of g had at its turn. */
  predicate TakenFor(g: Ghost, t: State, fd: nat, n: nat, i: nat)
    requires fd < |t.table| && n <= i < MAX_BLOCKS
  {
    0 < Taking(n, i + 1) <= |g.fb| && DataBlock(t.blocks, t.table[fd].node, i) == g.fb[|g.fb| - Taking(n, i + 1)]
  }

  /** From a file of n data blocks (n may be 0) on, whatever level they belong to: after the installs
      the repaired path of block i leads to the block that was taken for it, for every i, and of the
      blocks that were there before to where it led. */
  lemma {:induction false} EveryBlockAgrees(s: State, g: Ghost, fd: nat, n: nat, m: nat) returns (h: Ghost)
    requires n <= m <= MAX_BLOCKS && Planted(s, g, fd, Needs(n)) && Taking(n, m) <= |g.fb|
    ensures fd < |s.table|
    ensures var t := Installs(s, fd, n, m);
            && Grown(s, g, fd, Needs(n), t, h, Needs(m)) && |h.fb| == |g.fb| - Taking(n, m)
            && (forall i {:trigger TakenFor(g, t, fd, n, i)} :: n <= i < m ==> TakenFor(g, t, fd, n, i))
            && (forall i :: 0 <= i < n ==> DataBlock(t.blocks, t.table[fd].node, i) == DataBlock(s.blocks, s.table[fd].node, i))
    decreases m
  {
    hide Planted, Grown, Number, NewNodes, DataBlock, InstallNext;
    FdInTable(s, g, fd, Needs(n));
    if m == n {
      h := g;
      NothingGrown(s, g, fd, Needs(n));
    } else {
      var h1 := EveryBlockAgrees(s, g, fd, n, m - 1);
      var s1 := Installs(s, fd, n, m - 1);
      GrownPlanted(s, g, fd, Needs(n), s1, h1, Needs(m - 1));
      h := InstallGrows(s1, h1, fd, m - 1);
      var t := Installs(s, fd, n, m);
      assert t == InstallNext(s1, fd, m - 1);
      GrownTrans(s, g, fd, Needs(n), s1, h1, Needs(m - 1), t, h, Needs(m));
      forall i | n <= i < m ensures TakenFor(g, t, fd, n, i) {
        TakingMonotone(n, i + 1, m);
        if i == m - 1 {
          LastInstalled(s1, h1, fd, m - 1, t);
        } else {
          assert TakenFor(g, s1, fd, n, i);
          DataThere(s1, h1, fd, m - 1, t, h, Needs(m), i);
        }
      }
      forall i | 0 <= i < n ensures DataBlock(t.blocks, t.table[fd].node, i) == DataBlock(s.blocks, s.table[fd].node, i) {
        DataThere(s1, h1, fd, m - 1, t, h, Needs(m), i);
      }
    }
  }

  lemma GrownPlanted(s: State, g: Ghost, fd: nat, was: set<Node>, t: State, h: Ghost, live: set<Node>)
    requires Grown(s, g, fd, was, t, h, live)
    ensures Planted(t, h, fd, live) && fd < |t.table| && |h.fb| <= |g.fb| && h.fb == g.fb[..|h.fb|]
  {
  }

  /** The data block comes last. */
  lemma LastInstalled(s: State, g: Ghost, fd: nat, k: nat, t: State)
    requires k < MAX_BLOCKS && fd < |t.table| && |NewNodes(k)| <= |g.fb|
    requires forall j {:trigger NextTaken(g, t, fd, NewNodes(k), j)} :: 0 <= j < |NewNodes(k)| ==> NextTaken(g, t, fd, NewNodes(k), j)
    ensures |NewNodes(k)| > 0 && DataBlock(t.blocks, t.table[fd].node, k) == g.fb[|g.fb| - |NewNodes(k)|]
  {
    hide Number, DataBlock;
    NumberIsRead(t.blocks, t.table[fd].node, k);
    var j := |NewNodes(k)| - 1;
    assert NewNodes(k)[j] == Data(k) && NextTaken(g, t, fd, NewNodes(k), j);
  }

  lemma DataThere(s: State, g: Ghost, fd: nat, k: nat, t: State, h: Ghost, live: set<Node>, i: nat)
    requires k <= MAX_BLOCKS && Grown(s, g, fd, Needs(k), t, h, live) && i < k
    ensures fd < |s.table| && fd < |t.table|
    ensures DataBlock(t.blocks, t.table[fd].node, i) == DataBlock(s.blocks, s.table[fd].node, i)
  {
    hide DataBlock, Planted;
    assert Data(i) in Needs(k);
    StaysThere(s, g, fd, Needs(k), t, h, live, Data(i));
    NumberIsRead(s.blocks, s.table[fd].node, i);
    NumberIsRead(t.blocks, t.table[fd].node, i);
  }

  /** The blocks of every other inode stay where its pointers lead. */
  lemma OtherInodeStays(s: State, g: Ghost, fd: nat, was: set<Node>, t: State, h: Ghost, live: set<Node>, j: nat, other: set<Node>, x: Node)
    requires Grown(s, g, fd, was, t, h, live) && j < |s.inodes| && j != s.table[fd].node.index
    requires HasTree(s.blocks, s.inodes[j], g.own, j, other) && x in other
    ensures |t.inodes| == |s.inodes| && x.InRange()
    ensures var b := Number(s.blocks, s.inodes[j], x);
            && Number(t.blocks, t.inodes[j], x) == b && GetBlock(t.blocks, b) == GetBlock(s.blocks, b)
  {
    hide FreeBlocks;
    forall y | y in other
      ensures y.InRange() && GetBlock(t.blocks, Number(s.blocks, s.inodes[j], y)) == GetBlock(s.blocks, Number(s.blocks, s.inodes[j], y))
    {
      assert HasNode(s.blocks, s.inodes[j], g.own, j, y);
    }
    NumberFrame(s.blocks, t.blocks, s.inodes[j], s.inodes[j], other, x);
  }
}
