/** The second half of `f_remove`: the inode and the blocks of the removed file. */
module Release {
  import opened Bytes
  import opened BlockMap
  import opened Records
  import opened FileTree
  import opened Operations
  import opened Invariant
  import opened Roles
  import opened Removal

  /** The role of a block once the first n blocks of inode j are on a list that had m elements;
      any further block of j is lost. */
  function Released(o: Owner, j: int, n: nat, m: nat): Owner {
    if o.By? && o.i == j then (if o.k < n then Free(m + o.k) else Lost) else o
  }

  ghost function OwnReleased(own: seq<Owner>, j: int, n: nat, m: nat): (r: seq<Owner>)
    ensures |r| == |own| && forall b :: 0 <= b < |own| ==> r[b] == Released(own[b], j, n, m)
  {
    seq(|own|, b requires 0 <= b < |own| => Released(own[b], j, n, m))
  }

  /** The blocks that are still of inode j after its first n were returned. */
  function PartlyReleased(o: Owner, j: int, n: nat, m: nat): Owner {
    if o.By? && o.i == j && o.k < n then Free(m + o.k) else o
  }

  ghost function OwnPartly(own: seq<Owner>, j: int, n: nat, m: nat): (r: seq<Owner>)
    ensures |r| == |own| && forall b :: 0 <= b < |own| ==> r[b] == PartlyReleased(own[b], j, n, m)
  {
    seq(|own|, b requires 0 <= b < |own| => PartlyReleased(own[b], j, n, m))
  }

  ghost predicate OwnsFirst(file: Inode, own: seq<Owner>, j: nat, n: nat)
    requires n <= N_DBLOCKS
  {
    && (forall k {:trigger OwnsAt(file, own, j, k)} :: 0 <= k < n ==> OwnsAt(file, own, j, k))
    && (forall b :: 0 <= b < |own| && own[b].By? && own[b].i == j ==> own[b].k < N_DBLOCKS && file.dblocks[own[b].k] == b)
  }

  /** One turn of the loop. */
  lemma ReleaseStep(blocks: seq<Block>, own: seq<Owner>, fb: seq<int>, file: Inode, j: nat, n: nat, i: nat, x: Block, m: nat)
    requires i < n <= N_DBLOCKS && OwnsFirst(file, own, j, n) && m + i == |fb|
    requires FreeBlocks(Top(fb), blocks, OwnPartly(own, j, i, m), fb) && Link(x) == Top(fb)
    ensures 0 <= file.dblocks[i] < |blocks|
    ensures FreeBlocks(file.dblocks[i], blocks[file.dblocks[i] as int := x], OwnPartly(own, j, i + 1, m), fb + [file.dblocks[i] as int])
  {
    var b := file.dblocks[i] as int;
    assert OwnsAt(file, own, j, i);
    var own1 := OwnPartly(own, j, i, m);
    GiveBlock(blocks, own1, fb, b, x);
    assert own1[b := Free(|fb|)] == OwnPartly(own, j, i + 1, m);
  }

  lemma ReleaseOne(s: State, file: Inode, j: nat, n: nat, i: nat, own: seq<Owner>, fb: seq<int>, m: nat)
    requires i < n <= N_DBLOCKS && OwnsFirst(file, own, j, n) && m + i == |fb|
    requires FreeBlocks(s.sb.freeBlock, s.blocks, OwnPartly(own, j, i, m), fb)
    ensures 0 <= file.dblocks[i] < |s.blocks|
    ensures var t := ReturnBlock(s, file.dblocks[i]);
            FreeBlocks(t.sb.freeBlock, t.blocks, OwnPartly(own, j, i + 1, m), fb + [file.dblocks[i] as int])
  {
    var b := file.dblocks[i];
    assert OwnsAt(file, own, j, i);
    var x := Splice(s.blocks[b], 0, WordBytes(s.sb.freeBlock));
    LinkStored(s.blocks[b], s.sb.freeBlock);
    WholeBlock(s.blocks[b], x);
    ReleaseStep(s.blocks, own, fb, file, j, n, i, x, m);
  }

  lemma ReleaseUnfold(s: State, file: Inode, i: nat, n: nat, stale: Block)
    requires i < n <= N_DBLOCKS && 0 <= file.dblocks[i] < |s.blocks|
    ensures ReleaseBlocks(s, Repaired, file, i, n, stale) == ReleaseBlocks(ReturnBlock(s, file.dblocks[i]), Repaired, file, i + 1, n, stale)
  {
  }

  lemma ReleaseNothing(s: State, v: Variant, file: Inode, n: nat, stale: Block)
    requires n <= N_DBLOCKS
    ensures ReleaseBlocks(s, v, file, n, n, stale) == s
  {
  }

  /** Repaired, the loop pushes the blocks in order. */
  lemma {:induction false} ReleaseRepaired(s: State, file: Inode, j: nat, n: nat, i: nat, stale: Block, own: seq<Owner>, fb: seq<int>, m: nat)
    requires i <= n <= N_DBLOCKS && OwnsFirst(file, own, j, n) && m + i == |fb|
    requires FreeBlocks(s.sb.freeBlock, s.blocks, OwnPartly(own, j, i, m), fb)
    ensures var t := ReleaseBlocks(s, Repaired, file, i, n, stale);
            FreeBlocks(t.sb.freeBlock, t.blocks, OwnPartly(own, j, n, m), fb + file.dblocks[i..n])
    decreases n - i
  {
    hide FreeBlocks, ReturnBlock, ReleaseBlocks;
    if i == n {
      ReleaseNothing(s, Repaired, file, n, stale);
      assert fb + file.dblocks[i..n] == fb;
    } else {
      var b := file.dblocks[i];
      assert OwnsAt(file, own, j, i);
      ReleaseOne(s, file, j, n, i, own, fb, m);
      ReleaseUnfold(s, file, i, n, stale);
      ReleaseRepaired(ReturnBlock(s, b), file, j, n, i + 1, stale, own, fb + [b as int], m);
      assert fb + [b as int] + file.dblocks[i + 1..n] == fb + file.dblocks[i..n];
    }
  }

  // ---- the blocks beyond the direct ones ----

  /** The roles once a list of blocks has been put on a free list that had m elements. */
  ghost function GivenAll(own: seq<Owner>, m: nat, list: seq<int32>): (r: seq<Owner>)
    requires forall b :: b in list ==> 0 <= b < |own|
    ensures |r| == |own|
    ensures forall b :: 0 <= b < |own| ==> if b in list then r[b].Free? else r[b] == own[b]
    decreases |list|
  {
    if list == [] then own
    else
      assert list[0] in list;
      assert forall b :: b in list[1..] ==> b in list;
      assert forall b :: b in list ==> b == list[0] || b in list[1..];
      GivenAll(own[list[0] as int := Free(m)], m + 1, list[1..])
  }

  /** One more block at the head. */
  lemma ReturnOne(s: State, b: int32, own: seq<Owner>, fb: seq<int>)
    requires FreeBlocks(s.sb.freeBlock, s.blocks, own, fb) && 0 <= b < |own| && !own[b].Free?
    ensures var t := ReturnBlock(s, b);
            && FreeBlocks(t.sb.freeBlock, t.blocks, own[b as int := Free(|fb|)], fb + [b as int])
            && t == s.(sb := s.sb.(freeBlock := b), blocks := s.blocks[b as int := t.blocks[b]])
  {
    var x := Splice(s.blocks[b], 0, WordBytes(s.sb.freeBlock));
    LinkStored(s.blocks[b], s.sb.freeBlock);
    WholeBlock(s.blocks[b], x);
    GiveBlock(s.blocks, own, fb, b, x);
  }

  /** A whole list, one block after the other. */
  lemma {:induction false} ReturnsKeep(s: State, list: seq<int32>, own: seq<Owner>, fb: seq<int>)
    requires FreeBlocks(s.sb.freeBlock, s.blocks, own, fb) && Distinct(list)
    requires forall b :: b in list ==> 0 <= b < |own| && !own[b].Free?
    ensures var t := ReturnBlocks(s, list);
            && FreeBlocks(t.sb.freeBlock, t.blocks, GivenAll(own, |fb|, list), fb + list)
            && t == s.(sb := s.sb.(freeBlock := t.sb.freeBlock), blocks := t.blocks) && |t.blocks| == |s.blocks|
            && forall b :: 0 <= b < |s.blocks| && b !in list ==> t.blocks[b] == s.blocks[b]
    decreases |list|
  {
    hide FreeBlocks, ReturnBlock;
    if list == [] {
      assert fb + list == fb;
    } else {
      var b, rest := list[0], list[1..];
      assert b in list && forall c :: c in rest ==> c in list;
      SameLength(s, own, fb);
      ReturnOne(s, b, own, fb);
      RestDistinct(list);
      var own1 := own[b as int := Free(|fb|)];
      ReturnsKeep(ReturnBlock(s, b), rest, own1, fb + [b as int]);
      assert fb + [b as int] + rest == fb + list;
      assert forall c :: c in list ==> c == b || c in rest;
    }
  }

  lemma SameLength(s: State, own: seq<Owner>, fb: seq<int>)
    requires FreeBlocks(s.sb.freeBlock, s.blocks, own, fb)
    ensures |own| == |s.blocks|
  {
  }

  lemma RestDistinct(list: seq<int32>)
    requires Distinct(list) && list != []
    ensures Distinct(list[1..]) && list[0] !in list[1..]
  {
    forall i, j | 0 <= i < j < |list| - 1 ensures list[1..][i] != list[1..][j] {
      assert list[i + 1] != list[j + 1];
    }
  }

  /** What the loop leaves alone, in either variant. */
  lemma {:induction false} ReleaseFrame(s: State, v: Variant, file: Inode, i: nat, n: nat, stale: Block)
    requires i <= n <= N_DBLOCKS
    ensures var t := ReleaseBlocks(s, v, file, i, n, stale);
            && t == s.(sb := s.sb.(freeBlock := t.sb.freeBlock), blocks := t.blocks) && |t.blocks| == |s.blocks|
            && (forall b :: 0 <= b < |s.blocks| && b !in file.dblocks[i..n] ==> t.blocks[b] == s.blocks[b])
            && (i < n ==> t.sb.freeBlock == file.dblocks[n - 1])
    decreases n - i
  {
    hide Splice, WordBytes, GetBlock;
    if i < n {
      var b := file.dblocks[i];
      var content := if v.Repaired? then Splice(GetBlock(s.blocks, b), 0, WordBytes(s.sb.freeBlock)) else stale;
      var s1 := SaveBlock(s, b, content).(sb := s.sb.(freeBlock := b));
      ReleaseFrame(s1, v, file, i + 1, n, stale);
      assert file.dblocks[i..n] == [b] + file.dblocks[i + 1..n];
      assert forall c :: 0 <= c < |s.blocks| && c != b ==> s1.blocks[c] == s.blocks[c];
    }
  }

  /** As written, every returned block ends up with the stale buffer. */
  lemma {:induction false} ReleaseStale(s: State, file: Inode, i: nat, n: nat, stale: Block, k: nat)
    requires i <= k < n <= N_DBLOCKS && 0 <= file.dblocks[k] < |s.blocks|
    ensures |ReleaseBlocks(s, AsWritten, file, i, n, stale).blocks| == |s.blocks|
    ensures ReleaseBlocks(s, AsWritten, file, i, n, stale).blocks[file.dblocks[k]] == stale
    decreases n - i
  {
    var b := file.dblocks[i];
    var s1 := SaveBlock(s, b, stale).(sb := s.sb.(freeBlock := b));
    ReleaseFrame(s1, AsWritten, file, i + 1, n, stale);
    if k > i {
      ReleaseStale(s1, file, i + 1, n, stale, k);
    } else if file.dblocks[k] in file.dblocks[i + 1..n] {
      var k' :| i + 1 <= k' < n && file.dblocks[k'] == file.dblocks[k];
      ReleaseStale(s1, file, i + 1, n, stale, k');
    }
  }

  /** Whether the loop of lines 1654-1667 leaves a sound list: as written, only if there is nothing
      to return, or one block and the released buffer still begins with the old list head. */
  predicate LinksKept(v: Variant, n: nat, stale: Block, head: int) {
    v.Repaired? || n == 0 || (n == 1 && Link(stale) == head)
  }

  lemma ReleaseExactly(s: State, v: Variant, file: Inode, j: nat, n: nat, stale: Block, own: seq<Owner>, fb: seq<int>)
    requires n <= N_DBLOCKS && OwnsFirst(file, own, j, n)
    requires FreeBlocks(s.sb.freeBlock, s.blocks, own, fb)
    ensures var t := ReleaseBlocks(s, v, file, 0, n, stale);
            LinksKept(v, n, stale, s.sb.freeBlock) <==>
            FreeBlocks(t.sb.freeBlock, t.blocks, OwnPartly(own, j, n, |fb|), fb + file.dblocks[..n])
  {
    var m := |fb|;
    assert OwnPartly(own, j, 0, m) == own;
    assert file.dblocks[0..n] == file.dblocks[..n];
    var t := ReleaseBlocks(s, v, file, 0, n, stale);
    var q := fb + file.dblocks[..n];
    if v.Repaired? || n == 0 {
      ReleaseRepaired(s, file, j, n, 0, stale, own, fb, m);
    } else if n > 1 {
      SecondBlockBreaksChain(s, file, j, n, stale, own, fb);
    } else {
      assert OwnsAt(file, own, j, 0);
      if Link(stale) == s.sb.freeBlock {
        ReleaseStep(s.blocks, own, fb, file, j, n, 0, stale, m);
        WholeBlock(s.blocks[file.dblocks[0]], stale);
        assert fb + [file.dblocks[0] as int] == q;
      }
      if FreeBlocks(t.sb.freeBlock, t.blocks, OwnPartly(own, j, n, m), q) {
        OneBlockNeedsLink(s, file, j, stale, own, fb);
      }
    }
  }

  /** One returned block is on the list only if the stale buffer begins with the old head. */
  lemma OneBlockNeedsLink(s: State, file: Inode, j: nat, stale: Block, own: seq<Owner>, fb: seq<int>)
    requires OwnsFirst(file, own, j, 1) && FreeBlocks(s.sb.freeBlock, s.blocks, own, fb)
    requires var t := ReleaseBlocks(s, AsWritten, file, 0, 1, stale);
             FreeBlocks(t.sb.freeBlock, t.blocks, OwnPartly(own, j, 1, |fb|), fb + file.dblocks[..1])
    ensures Link(stale) == s.sb.freeBlock
  {
    var t := ReleaseBlocks(s, AsWritten, file, 0, 1, stale);
    assert OwnsAt(file, own, j, 0);
    ReleaseStale(s, file, 0, 1, stale, 0);
    assert FreeAt(fb + file.dblocks[..1], t.blocks, OwnPartly(own, j, 1, |fb|), |fb|);
  }

  /** Two blocks with the same link cannot both be on the list. */
  lemma SecondBlockBreaksChain(s: State, file: Inode, j: nat, n: nat, stale: Block, own: seq<Owner>, fb: seq<int>)
    requires 2 <= n <= N_DBLOCKS && OwnsFirst(file, own, j, n)
    requires FreeBlocks(s.sb.freeBlock, s.blocks, own, fb)
    ensures var t := ReleaseBlocks(s, AsWritten, file, 0, n, stale);
            !FreeBlocks(t.sb.freeBlock, t.blocks, OwnPartly(own, j, n, |fb|), fb + file.dblocks[..n])
  {
    var m := |fb|;
    var t := ReleaseBlocks(s, AsWritten, file, 0, n, stale);
    var q := fb + file.dblocks[..n];
    var own' := OwnPartly(own, j, n, m);
    assert OwnsAt(file, own, j, 0) && OwnsAt(file, own, j, 1);
    ReleaseStale(s, file, 0, n, stale, 0);
    ReleaseStale(s, file, 0, n, stale, 1);
    if m > 0 {
      assert FreeAt(fb, s.blocks, own, m - 1);
    }
    if FreeAt(q, t.blocks, own', m) && FreeAt(q, t.blocks, own', m + 1) {
      assert false;
    }
  }
}
