/** The tree of blocks below an inode: its data blocks and the index blocks that lead to them, each
    known by where it stands, and the block number that the pointers give it. */
module FileTree {
  import opened Bytes
  import opened BlockMap
  import opened Records

  /** A block of a file: the k-th data block, or an index block of the first, second or third level. */
  datatype Node = Data(k: nat) | One(i: nat) | TwoTop | Two(i: nat) | ThreeTop | ThreeMid(d: nat) | Three(d: nat, i: nat)
  {
    predicate InRange() {
      match this
      case Data(k) => k < MAX_BLOCKS
      case One(i) => i < N_IBLOCKS
      case Two(i) => i < FANOUT
      case ThreeMid(d) => d < FANOUT
      case Three(d, i) => d < FANOUT && i < FANOUT
      case _ => true
    }

    /** The lowest data block that needs this one. */
    function First(): nat {
      match this
      case Data(k) => k
      case One(i) => SINGLE_START + FANOUT * i
      case TwoTop => DOUBLE_START
      case Two(i) => DOUBLE_START + FANOUT * i
      case ThreeTop => TRIPLE_START
      case ThreeMid(d) => TRIPLE_START + FANOUT * FANOUT * d
      case Three(d, i) => TRIPLE_START + FANOUT * FANOUT * d + FANOUT * i
    }

    /** Its number is in the inode itself. */
    predicate InInode() { (Data? && k < N_DBLOCKS) || One? || TwoTop? || ThreeTop? }

    /** The index block that holds its number, and the place there. */
    function Above(): (r: Node)
      requires InRange() && !InInode()
      ensures r.InRange() && r.Depth() < Depth() && !r.Data?
    {
      match this
      case Data(k) =>
        RepairedPathIsBijection(k, Direct(0));
        LeafOf(RepairedPathOf(k))
      case Two(_) => TwoTop
      case ThreeMid(_) => ThreeTop
      case Three(d, _) => ThreeMid(d)
    }

    function At(): (r: nat)
      requires InRange() && !InInode()
      ensures r < FANOUT
    {
      match this
      case Data(k) =>
        RepairedPathIsBijection(k, Direct(0));
        RepairedPathOf(k).a
      case Two(i) => i
      case ThreeMid(d) => d
      case Three(_, i) => i
    }

    function Depth(): nat {
      if InInode() then 0 else if Data? then 3 else if Three? then 2 else 1
    }
  }

  /** The index block in which a path ends. */
  function LeafOf(p: Path): Node
    requires !p.Direct?
  {
    match p
    case Single(i, a) => One(i)
    case Double(i, a) => Two(i)
    case Triple(d, i, a) => Three(d, i)
  }

  function Pointer(node: Inode, x: Node): int32
    requires x.InRange() && x.InInode()
  {
    match x
    case Data(k) => node.dblocks[k]
    case One(i) => node.iblocks[i]
    case TwoTop => node.i2block
    case ThreeTop => node.i3block
  }

  function WithPointer(node: Inode, x: Node, b: int32): Inode
    requires x.InRange() && x.InInode()
  {
    match x
    case Data(k) => node.(dblocks := node.dblocks[k := b])
    case One(i) => node.(iblocks := node.iblocks[i := b])
    case TwoTop => node.(i2block := b)
    case ThreeTop => node.(i3block := b)
  }

  /** The number of a block of the file, as the pointers give it. */
  function Number(blocks: seq<Block>, node: Inode, x: Node): int32
    requires x.InRange()
    decreases x.Depth()
  {
    if x.InInode() then Pointer(node, x) else Word(GetBlock(blocks, Number(blocks, node, x.Above())), x.At())
  }

  /** The number of the k-th data block, found along the repaired path. */
  function DataBlock(blocks: seq<Block>, node: Inode, k: nat): int32
    requires k < MAX_BLOCKS
  {
    RepairedPathIsBijection(k, Direct(0));
    BlockAtPath(blocks, node, RepairedPathOf(k))
  }

  /** For data blocks that is what the reader finds, its line 1397 repaired. */
  lemma NumberIsRead(blocks: seq<Block>, node: Inode, k: nat)
    requires k < MAX_BLOCKS
    ensures DataBlock(blocks, node, k) == Number(blocks, node, Data(k))
  {
    hide Word, GetBlock;
    RepairedPathIsBijection(k, Direct(0));
    var p := RepairedPathOf(k);
    if p.Triple? {
      assert Number(blocks, node, ThreeMid(p.d)) == Word(GetBlock(blocks, node.i3block), p.d);
      assert Number(blocks, node, Three(p.d, p.i)) == Word(GetBlock(blocks, Number(blocks, node, ThreeMid(p.d))), p.i);
    } else if p.Double? {
      assert Number(blocks, node, Two(p.i)) == Word(GetBlock(blocks, node.i2block), p.i);
    }
  }

  // ---- which blocks a file of n data blocks has ----

  /** The blocks that the k-th data block adds, each below one that is there before it. */
  function NewNodes(k: nat): seq<Node>
    requires k < MAX_BLOCKS
  {
    match RepairedPathOf(k)
    case Direct(_) => [Data(k)]
    case Single(i, a) => (if a == 0 then [One(i)] else []) + [Data(k)]
    case Double(i, a) =>
      (if a == 0 && i == 0 then [TwoTop] else []) + (if a == 0 then [Two(i)] else []) + [Data(k)]
    case Triple(d, i, a) =>
      (if a == 0 && i == 0 && d == 0 then [ThreeTop] else []) + (if a == 0 && i == 0 then [ThreeMid(d)] else [])
      + (if a == 0 then [Three(d, i)] else []) + [Data(k)]
  }

  /** All blocks of a file of n data blocks, in the order in which they are added. */
  function Nodes(n: nat): seq<Node>
    requires n <= MAX_BLOCKS
  {
    if n == 0 then [] else Nodes(n - 1) + NewNodes(n - 1)
  }

  predicate Needed(x: Node, n: nat) { x.InRange() && x.First() < n }

  ghost function Needs(n: nat): (r: set<Node>)
    requires n <= MAX_BLOCKS
    ensures forall x :: x in r <==> Needed(x, n)
  {
    NodesAre(n);
    set x | x in Nodes(n)
  }

  /** First() in terms of the path to the data block. */
  lemma FirstIsStart(x: Node, k: nat)
    requires k < MAX_BLOCKS && x.InRange() && x.First() == k
    ensures match x
            case Data(j) => j == k
            case One(i) => RepairedPathOf(k) == Single(i, 0)
            case TwoTop => RepairedPathOf(k) == Double(0, 0)
            case Two(i) => RepairedPathOf(k) == Double(i, 0)
            case ThreeTop => RepairedPathOf(k) == Triple(0, 0, 0)
            case ThreeMid(d) => RepairedPathOf(k) == Triple(d, 0, 0)
            case Three(d, i) => RepairedPathOf(k) == Triple(d, i, 0)
  {
    match x
    case Data(_) =>
    case One(i) => RepairedPathIsBijection(k, Single(i, 0));
    case TwoTop => RepairedPathIsBijection(k, Double(0, 0));
    case Two(i) => RepairedPathIsBijection(k, Double(i, 0));
    case ThreeTop => RepairedPathIsBijection(k, Triple(0, 0, 0));
    case ThreeMid(d) => RepairedPathIsBijection(k, Triple(d, 0, 0));
    case Three(d, i) => RepairedPathIsBijection(k, Triple(d, i, 0));
  }

  lemma NewNodesAre(k: nat, x: Node)
    requires k < MAX_BLOCKS
    ensures x in NewNodes(k) <==> x.InRange() && x.First() == k
  {
    RepairedPathIsBijection(k, Direct(0));
    if x.InRange() && x.First() == k {
      FirstIsStart(x, k);
    }
  }

  /** The blocks of a file are those whose first data block it has. */
  lemma {:induction false} NodesAre(n: nat)
    requires n <= MAX_BLOCKS
    ensures forall x :: x in Nodes(n) <==> Needed(x, n)
  {
    hide NewNodes;
    if n > 0 {
      NodesAre(n - 1);
      forall x ensures x in Nodes(n) <==> Needed(x, n) {
        NewNodesAre(n - 1, x);
      }
    }
  }

  lemma AboveFirst(x: Node)
    requires x.InRange() && !x.InInode()
    ensures x.Above().First() <= x.First()
  {
    if x.Data? {
      RepairedPathIsBijection(x.k, Direct(0));
    }
  }

  /** Two blocks whose numbers are at the same place are the same. */
  lemma PlaceDecides(x: Node, y: Node)
    requires x.InRange() && y.InRange() && !x.InInode() && !y.InInode()
    requires x.Above() == y.Above() && x.At() == y.At()
    ensures x == y
  {
    if x.Data? && y.Data? {
      RepairedPathIsBijection(x.k, Direct(0));
      RepairedPathIsBijection(y.k, Direct(0));
    }
  }

  // ---- what the pointers give when something is written ----

  /** The blocks that a file has: each below one that it has too. */
  ghost predicate Rooted(live: set<Node>) {
    forall x :: x in live ==> x.InRange() && (x.InInode() || x.Above() in live)
  }

  /** They have numbers of their own. */
  ghost predicate Separate(blocks: seq<Block>, node: Inode, live: set<Node>) {
    && Rooted(live)
    && (forall x :: x in live ==> 0 <= Number(blocks, node, x) < |blocks|)
    && (forall x, y :: x in live && y in live && x != y ==> Number(blocks, node, x) != Number(blocks, node, y))
  }

  lemma NeedsRooted(n: nat)
    requires n <= MAX_BLOCKS
    ensures Rooted(Needs(n))
  {
    forall x | x in Needs(n) ensures x.InRange() && (x.InInode() || x.Above() in Needs(n)) {
      if !x.InInode() {
        AboveFirst(x);
      }
    }
  }

  /** The inode and the blocks once block x of the file has been given the number b. */
  function Recorded(blocks: seq<Block>, node: Inode, x: Node, b: int32): (Inode, seq<Block>)
    requires x.InRange()
  {
    if x.InInode() then (WithPointer(node, x, b), blocks)
    else
      var ib := Number(blocks, node, x.Above());
      (node, if 0 <= ib < |blocks| then blocks[ib := Splice(blocks[ib], 4 * x.At(), WordBytes(b))] else blocks)
  }

  lemma WordOf(blocks: seq<Block>, ib: nat, i: nat, v: int32, c: int, w: nat)
    requires i < FANOUT && w < FANOUT && ib < |blocks|
    ensures Word(GetBlock(blocks[ib := Splice(blocks[ib], 4 * i, WordBytes(v))], c), w)
              == if c == ib && w == i then v else Word(GetBlock(blocks, c), w)
  {
    if c == ib {
      WordAfterSplice(blocks[ib], 4 * i, v, 4 * w);
    }
  }

  /** Recording one block is found where it was recorded, and moves no other. */
  lemma {:induction false} RecordedNumber(blocks: seq<Block>, node: Inode, live: set<Node>, x: Node, b: int32, y: Node)
    requires Separate(blocks, node, live) && x !in live && x.InRange() && (x.InInode() || x.Above() in live)
    requires y == x || y in live
    ensures var (node', blocks') := Recorded(blocks, node, x, b);
            Number(blocks', node', y) == if y == x then b else Number(blocks, node, y)
    decreases y.Depth()
  {
    hide Word, GetBlock;
    var (node', blocks') := Recorded(blocks, node, x, b);
    if !y.InInode() {
      var c := y.Above();
      assert c in live;
      RecordedNumber(blocks, node, live, x, b, c);
      if !x.InInode() {
        var ib := Number(blocks, node, x.Above());
        WordOf(blocks, ib, x.At(), b, Number(blocks, node, c), y.At());
        if c == x.Above() && y.At() == x.At() {
          PlaceDecides(x, y);
        }
      }
    }
  }

  /** Writing blocks that are no index blocks of the file moves none of its blocks. */
  lemma {:induction false} NumberFrame(blocks: seq<Block>, blocks': seq<Block>, node: Inode, node': Inode, live: set<Node>, x: Node)
    requires Rooted(live) && x in live
    requires forall y :: y in live && !y.Data? ==> GetBlock(blocks', Number(blocks, node, y)) == GetBlock(blocks, Number(blocks, node, y))
    requires forall y :: y in live && y.InInode() ==> Pointer(node', y) == Pointer(node, y)
    ensures Number(blocks', node', x) == Number(blocks, node, x)
    decreases x.Depth()
  {
    if !x.InInode() {
      assert x.Above() in live;
      NumberFrame(blocks, blocks', node, node', live, x.Above());
    }
  }

  // ---- the list without repetition ----

  predicate Distinct<T(==)>(xs: seq<T>) {
    forall i, j :: 0 <= i < j < |xs| ==> xs[i] != xs[j]
  }

  lemma NewNodesDistinct(k: nat)
    requires k < MAX_BLOCKS
    ensures Distinct(NewNodes(k))
  {
  }

  lemma DistinctParts<T>(a: seq<T>, b: seq<T>)
    requires Distinct(a) && Distinct(b) && forall x :: x in b ==> x !in a
    ensures Distinct(a + b)
  {
    forall i, j | 0 <= i < j < |a + b| ensures (a + b)[i] != (a + b)[j] {
      if i < |a| <= j {
        assert b[j - |a|] in b;
      }
    }
  }

  lemma {:induction false} NodesDistinct(n: nat)
    requires n <= MAX_BLOCKS
    ensures Distinct(Nodes(n))
  {
    hide NewNodes, Distinct;
    if n == 0 {
      NoneDistinct<Node>();
    } else {
      NodesDistinct(n - 1);
      NewNodesDistinct(n - 1);
      NodesAre(n - 1);
      var added, before := NewNodes(n - 1), Nodes(n - 1);
      forall x | x in added ensures x !in before {
        NewNodesAre(n - 1, x);
      }
      DistinctParts(Nodes(n - 1), NewNodes(n - 1));
    }
  }

  lemma NoneDistinct<T>()
    ensures Distinct<T>([])
  {
  }

  lemma NewOnes(k: nat)
    requires k < MAX_BLOCKS
    ensures k < N_DBLOCKS ==> NewNodes(k) == [Data(k)]
    ensures |NewNodes(k)| > 0
  {
  }

  lemma OneMore(xs: seq<Node>, ys: seq<Node>, k: nat)
    requires |ys| > 0 && (k < N_DBLOCKS ==> |xs| == k && ys == [Data(k)]) && (k >= N_DBLOCKS ==> |xs| >= N_DBLOCKS)
    requires forall j :: 0 <= j < k && j < N_DBLOCKS ==> j < |xs| && xs[j] == Data(j)
    ensures k < N_DBLOCKS ==> |xs + ys| == k + 1
    ensures k >= N_DBLOCKS ==> |xs + ys| > N_DBLOCKS
    ensures forall j :: 0 <= j < k + 1 && j < N_DBLOCKS ==> j < |xs + ys| && (xs + ys)[j] == Data(j)
  {
  }

  /** The first ten are the direct ones. */
  lemma {:induction false} DirectFirst(n: nat)
    requires n <= MAX_BLOCKS
    ensures n <= N_DBLOCKS ==> |Nodes(n)| == n
    ensures n > N_DBLOCKS ==> |Nodes(n)| > N_DBLOCKS
    ensures forall j :: 0 <= j < n && j < N_DBLOCKS ==> j < |Nodes(n)| && Nodes(n)[j] == Data(j)
  {
    hide NewNodes;
    if n > 0 {
      DirectFirst(n - 1);
      NewOnes(n - 1);
      OneMore(Nodes(n - 1), NewNodes(n - 1), n - 1);
    }
  }

  /** The blocks beyond the direct ones. */
  function Beyond(n: nat): seq<Node>
    requires n <= MAX_BLOCKS
  {
    if n <= N_DBLOCKS then [] else DirectFirst(n); Nodes(n)[N_DBLOCKS..]
  }

  lemma BeyondAre(n: nat)
    requires n <= MAX_BLOCKS
    ensures forall x :: x in Beyond(n) <==> Needed(x, n) && !(x.Data? && x.k < N_DBLOCKS)
    ensures Distinct(Beyond(n))
    ensures |Nodes(n)| == (if n < N_DBLOCKS then n else N_DBLOCKS) + |Beyond(n)|
  {
    hide Nodes, Needed;
    DirectFirst(n);
    NodesAre(n);
    NodesDistinct(n);
    forall x ensures x in Beyond(n) <==> Needed(x, n) && !(x.Data? && x.k < N_DBLOCKS) {
      if n > N_DBLOCKS {
        BehindFirst(Nodes(n), x);
      } else {
        FewAreDirect(n, x);
      }
    }
  }

  lemma BehindFirst(all: seq<Node>, x: Node)
    requires |all| >= N_DBLOCKS && Distinct(all) && forall j :: 0 <= j < N_DBLOCKS ==> all[j] == Data(j)
    ensures x in all[N_DBLOCKS..] <==> x in all && !(x.Data? && x.k < N_DBLOCKS)
  {
    if x.Data? && x.k < N_DBLOCKS {
      assert all[x.k] == x;
    }
    if x in all {
      var j :| 0 <= j < |all| && all[j] == x;
      if j < N_DBLOCKS {
        assert all[j] == Data(j);
      } else {
        assert all[N_DBLOCKS..][j - N_DBLOCKS] == x;
      }
    }
  }

  lemma FewAreDirect(n: nat, x: Node)
    requires n <= N_DBLOCKS
    ensures Needed(x, n) ==> x.Data? && x.k < N_DBLOCKS
  {
  }

  lemma BeyondInRange(n: nat)
    requires n <= MAX_BLOCKS
    ensures forall j :: 0 <= j < |Beyond(n)| ==> Beyond(n)[j].InRange()
  {
    hide Nodes, Beyond;
    BeyondAre(n);
    forall j | 0 <= j < |Beyond(n)| ensures Beyond(n)[j].InRange() {
      assert Beyond(n)[j] in Beyond(n);
    }
  }

  /** Their numbers. */
  function BeyondNumbers(blocks: seq<Block>, node: Inode, n: nat): (r: seq<int32>)
    requires n <= MAX_BLOCKS
    ensures |r| == |Beyond(n)|
    ensures forall j :: 0 <= j < |r| ==> Beyond(n)[j].InRange() && r[j] == Number(blocks, node, Beyond(n)[j])
  {
    BeyondInRange(n);
    var xs := Beyond(n);
    seq(|xs|, j requires 0 <= j < |xs| => Number(blocks, node, xs[j]))
  }

  lemma {:induction false} DistinctSize<T>(xs: seq<T>)
    requires Distinct(xs)
    ensures |set x | x in xs| == |xs|
  {
    if xs == [] {
      assert (set x | x in xs) == {};
    } else {
      DistinctSize(xs[1..]);
      assert (set x | x in xs) == (set x | x in xs[1..]) + {xs[0]};
    }
  }
}
