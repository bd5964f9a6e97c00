/** Which pointers `get_block_from_index` follows for the b-th block of a file. */
module BlockMap {

  const N_DBLOCKS := 10
  const N_IBLOCKS := 4
  /** ints in one index block */
  const FANOUT := 128
  const SINGLE_START := 10
  const DOUBLE_START := 522
  const TRIPLE_START := 16906
  const MAX_BLOCKS := 2114058
  /** the first block number whose second-level index leaves its index block */
  const TRIPLE_BROKEN := 33290

  datatype Path =
    | Direct(i: nat)
    | Single(i: nat, a: nat)
    | Double(i: nat, a: nat)
    | Triple(d: nat, i: nat, a: nat)
  {
    /** Every index addresses an existing pointer. */
    predicate InRange() {
      match this
      case Direct(i) => i < N_DBLOCKS
      case Single(i, a) => i < N_IBLOCKS && a < FANOUT
      case Double(i, a) => i < FANOUT && a < FANOUT
      case Triple(d, i, a) => d < FANOUT && i < FANOUT && a < FANOUT
    }

    /** The position of this pointer when the leaves of the inode tree are read from left to right. */
    function Position(): nat {
      match this
      case Direct(i) => i
      case Single(i, a) => SINGLE_START + FANOUT * i + a
      case Double(i, a) => DOUBLE_START + FANOUT * i + a
      case Triple(d, i, a) => TRIPLE_START + FANOUT * FANOUT * d + FANOUT * i + a
    }
  }

  /** The decomposition the code computes; line 1397 has no `% 128`. */
  function PathOf(b: nat): Path
    requires b < MAX_BLOCKS
  {
    if b < SINGLE_START then Direct(b)
    else if b < DOUBLE_START then Single((b - SINGLE_START) / FANOUT, (b - SINGLE_START) % FANOUT)
    else if b < TRIPLE_START then Double((b - DOUBLE_START) / FANOUT, (b - DOUBLE_START) % FANOUT)
    else
      var r := b - TRIPLE_START;
      Triple(r / FANOUT / FANOUT, r / FANOUT, r % FANOUT)
  }

  /** The same decomposition with line 1397 reduced modulo 128. */
  function RepairedPathOf(b: nat): Path
    requires b < MAX_BLOCKS
  {
    match PathOf(b)
    case Triple(d, i, a) => Triple(d, i % FANOUT, a)
    case p => p
  }

  lemma DivSplit(r: nat)
    ensures r == FANOUT * (r / FANOUT) + r % FANOUT
    ensures r / FANOUT == FANOUT * (r / FANOUT / FANOUT) + r / FANOUT % FANOUT
  {
  }

  /** As written, the walk stays inside its index blocks exactly below block 33290. */
  lemma PathInRangeExactly(b: nat)
    requires b < MAX_BLOCKS
    ensures PathOf(b).InRange() <==> b < TRIPLE_BROKEN
    ensures PathOf(b) == RepairedPathOf(b) <==> b < TRIPLE_BROKEN
    ensures b < TRIPLE_BROKEN ==> PathOf(b).Position() == b
  {
    if b >= TRIPLE_START {
      DivSplit(b - TRIPLE_START);
    }
  }

  /** As written, no two block numbers share a path, even out of range. */
  lemma PathInjective(b: nat, c: nat)
    requires b < MAX_BLOCKS && c < MAX_BLOCKS
    requires PathOf(b) == PathOf(c)
    ensures b == c
  {
    if b >= TRIPLE_START && c >= TRIPLE_START {
      DivSplit(b - TRIPLE_START);
      DivSplit(c - TRIPLE_START);
    }
  }

  /** Repaired, block numbers and leaves of the inode tree correspond one to one. */
  lemma RepairedPathIsBijection(b: nat, p: Path)
    ensures b < MAX_BLOCKS ==> RepairedPathOf(b).InRange() && RepairedPathOf(b).Position() == b
    ensures p.InRange() ==> p.Position() < MAX_BLOCKS && RepairedPathOf(p.Position()) == p
  {
    if TRIPLE_START <= b < MAX_BLOCKS {
      DivSplit(b - TRIPLE_START);
    }
    if p.InRange() {
      LeafPosition(p);
    }
  }

  lemma LeafPosition(p: Path)
    requires p.InRange()
    ensures p.Position() < MAX_BLOCKS && RepairedPathOf(p.Position()) == p
  {
    match p
    case Direct(_) =>
    case Single(i, a) => Digits(i, a);
    case Double(i, a) => Digits(i, a);
    case Triple(d, i, a) =>
      Digits(FANOUT * d + i, a);
      Digits(d, i);
  }

  lemma Digits(q: nat, a: nat)
    requires a < FANOUT
    ensures (FANOUT * q + a) / FANOUT == q && (FANOUT * q + a) % FANOUT == a
  {
  }

  /** Block 33290 is the first for which the second-level index (128) is past the 128 ints
      of its index block; the largest one asks for int 16383. */
  lemma TripleIndexOverflows()
    ensures PathOf(TRIPLE_BROKEN) == Triple(1, 128, 0)
    ensures PathOf(MAX_BLOCKS - 1) == Triple(127, 16383, 127)
  {
  }
}
