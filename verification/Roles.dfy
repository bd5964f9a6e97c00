/** One change of role at a time: how each conjunct of the invariant follows a single write. */
module Roles {
  import opened Bytes
  import opened BlockMap
  import opened Records
  import opened FileTree
  import opened Operations
  import opened Invariant

  // ---- the block free list ----

  /** Taking the head of the list for any other role. */
  lemma TakeBlock(blocks: seq<Block>, own: seq<Owner>, fb: seq<int>, o: Owner)
    requires FreeBlocks(Top(fb), blocks, own, fb) && fb != [] && !o.Free?
    ensures 0 <= Top(fb) < |blocks| && own[Top(fb)].Free?
    ensures FreeBlocks(Link(blocks[Top(fb)]), blocks, own[Top(fb) := o], fb[..|fb| - 1])
  {
    var m := |fb| - 1;
    var q := fb[..m];
    assert FreeAt(fb, blocks, own, m);
    var own' := own[fb[m] := o];
    forall d | 0 <= d < m ensures FreeAt(q, blocks, own', d) {
      assert FreeAt(fb, blocks, own, d);
    }
    forall b | 0 <= b < |own| ensures BlockListed(q, own'[b], b) {
      assert BlockListed(fb, own[b], b);
    }
  }

  /** Putting a block back at the head, with the old head in its first int. */
  lemma GiveBlock(blocks: seq<Block>, own: seq<Owner>, fb: seq<int>, b: int, x: Block)
    requires FreeBlocks(Top(fb), blocks, own, fb) && 0 <= b < |blocks| && !own[b].Free?
    requires Link(x) == Top(fb)
    ensures FreeBlocks(b, blocks[b := x], own[b := Free(|fb|)], fb + [b])
  {
    var blocks', own' := blocks[b := x], own[b := Free(|fb|)];
    var q := fb + [b];
    forall d | 0 <= d < |q| ensures FreeAt(q, blocks', own', d) {
      if d < |fb| {
        assert FreeAt(fb, blocks, own, d);
      }
    }
    forall c | 0 <= c < |own| ensures BlockListed(q, own'[c], c) {
      assert BlockListed(fb, own[c], c);
    }
  }

  /** Writing a block that is not free. */
  lemma WriteOwnedBlock(head: int, blocks: seq<Block>, own: seq<Owner>, fb: seq<int>, b: int, x: Block)
    requires FreeBlocks(head, blocks, own, fb) && 0 <= b < |blocks| && !own[b].Free?
    ensures FreeBlocks(head, blocks[b := x], own, fb)
  {
    var blocks' := blocks[b := x];
    forall d | 0 <= d < |fb| ensures FreeAt(fb, blocks', own, d) {
      assert FreeAt(fb, blocks, own, d);
    }
  }

  /** Changing the role of a block that is not free to another such role. */
  lemma RelabelBlock(head: int, blocks: seq<Block>, own: seq<Owner>, fb: seq<int>, b: int, o: Owner)
    requires FreeBlocks(head, blocks, own, fb) && 0 <= b < |blocks| && !own[b].Free? && !o.Free?
    ensures FreeBlocks(head, blocks, own[b := o], fb)
  {
    var own' := own[b := o];
    forall d | 0 <= d < |fb| ensures FreeAt(fb, blocks, own', d) {
      assert FreeAt(fb, blocks, own, d);
    }
    forall c | 0 <= c < |own| ensures BlockListed(fb, own'[c], c) {
      assert BlockListed(fb, own[c], c);
    }
  }

  // ---- the inode free list ----

  lemma TakeInode(inodes: seq<Inode>, role: seq<Role>, fi: seq<int>, node: Inode)
    requires FreeInodes(Top(fi), inodes, role, fi) && fi != []
    ensures 0 <= Top(fi) < |inodes| && role[Top(fi)].Idle?
    ensures FreeInodes(inodes[Top(fi)].next, inodes[Top(fi) := node], role[Top(fi) := InUse], fi[..|fi| - 1])
  {
    var m := |fi| - 1;
    var q := fi[..m];
    assert IdleAt(fi, inodes, role, m);
    var inodes', role' := inodes[fi[m] := node], role[fi[m] := InUse];
    forall d | 0 <= d < m ensures IdleAt(q, inodes', role', d) {
      assert IdleAt(fi, inodes, role, d);
    }
    forall i | 0 <= i < |inodes| ensures InodeListed(q, role'[i], i) {
      assert InodeListed(fi, role[i], i);
    }
  }

  lemma GiveInode(inodes: seq<Inode>, role: seq<Role>, fi: seq<int>, j: int, node: Inode)
    requires FreeInodes(Top(fi), inodes, role, fi) && 0 <= j < |inodes| && role[j].InUse?
    requires node.next == Top(fi)
    ensures FreeInodes(j, inodes[j := node], role[j := Idle(|fi|)], fi + [j])
  {
    var inodes', role' := inodes[j := node], role[j := Idle(|fi|)];
    var q := fi + [j];
    forall d | 0 <= d < |q| ensures IdleAt(q, inodes', role', d) {
      if d < |fi| {
        assert IdleAt(fi, inodes, role, d);
      }
    }
    forall i | 0 <= i < |inodes| ensures InodeListed(q, role'[i], i) {
      assert InodeListed(fi, role[i], i);
    }
  }

  lemma WriteUsedInode(head: int, inodes: seq<Inode>, role: seq<Role>, fi: seq<int>, i: int, node: Inode)
    requires FreeInodes(head, inodes, role, fi) && 0 <= i < |inodes| && role[i].InUse?
    ensures FreeInodes(head, inodes[i := node], role, fi)
  {
    var inodes' := inodes[i := node];
    forall d | 0 <= d < |fi| ensures IdleAt(fi, inodes', role, d) {
      assert IdleAt(fi, inodes, role, d);
    }
  }

  // ---- ownership ----

  /** Every inode but i owns what it owned, if the roles of its blocks are unchanged. */
  lemma OthersKeep(inodes: seq<Inode>, role: seq<Role>, own: seq<Owner>, i: int, own': seq<Owner>)
    requires Owners(inodes, role, own) && |own'| == |own|
    requires forall b :: 0 <= b < |own| && own[b].By? && own[b].i != i ==> own'[b] == own[b]
    ensures forall j {:trigger OwnsAll(inodes[j], own', j)} ::
              0 <= j < |inodes| && role[j].InUse? && j != i ==> OwnsAll(inodes[j], own', j)
  {
    forall j | 0 <= j < |inodes| && role[j].InUse? && j != i ensures OwnsAll(inodes[j], own', j) {
      assert OwnsAll(inodes[j], own, j);
      forall k | 0 <= k < Owned(inodes[j]) ensures OwnsAt(inodes[j], own', j, k) {
        assert OwnsAt(inodes[j], own, j, k);
      }
    }
  }

  /** A change to the pointers and blocks of inode i alone. */
  lemma OwnersStep(inodes: seq<Inode>, role: seq<Role>, own: seq<Owner>, i: int, node: Inode, own': seq<Owner>)
    requires Owners(inodes, role, own) && 0 <= i < |inodes| && role[i].InUse? && |own'| == |own|
    requires forall b :: 0 <= b < |own| && own[b].By? && own[b].i != i ==> own'[b] == own[b]
    requires OwnsAll(node, own', i)
    requires forall b :: 0 <= b < |own| && own'[b].By? ==>
               if own'[b].i == i then own'[b].k < Owned(node) && node.dblocks[own'[b].k] == b else own'[b] == own[b]
    ensures Owners(inodes[i := node], role, own')
  {
    OthersKeep(inodes, role, own, i, own');
    var inodes' := inodes[i := node];
    forall j | 0 <= j < |inodes| && role[j].InUse? ensures OwnsAll(inodes'[j], own', j) {
      if j != i {
        assert OwnsAll(inodes[j], own', j);
      }
    }
    forall b | 0 <= b < |own'| && own'[b].By? ensures OwnerOk(inodes', role, own'[b], b) {
      if own'[b].i != i {
        assert OwnerOk(inodes, role, own[b], b);
      }
    }
  }

  lemma OwnsItsBlock(inodes: seq<Inode>, role: seq<Role>, own: seq<Owner>, i: int, k: nat)
    requires Owners(inodes, role, own) && 0 <= i < |inodes| && role[i].InUse? && k < Owned(inodes[i])
    ensures k < N_DBLOCKS && OwnsAt(inodes[i], own, i, k)
  {
    assert OwnsAll(inodes[i], own, i) && OwnsAt(inodes[i], own, i, k);
  }

  /** The pointers an inode owns decide its share; writing anything else changes nothing. */
  lemma SameBlocks(inodes: seq<Inode>, role: seq<Role>, own: seq<Owner>, i: int, node: Inode)
    requires Owners(inodes, role, own) && 0 <= i < |inodes| && role[i].InUse?
    requires Owned(node) == Owned(inodes[i])
    requires forall k :: 0 <= k < Owned(node) ==> node.dblocks[k] == inodes[i].dblocks[k]
    ensures Owners(inodes[i := node], role, own)
  {
    forall k | 0 <= k < Owned(node) ensures OwnsAt(node, own, i, k) {
      OwnsItsBlock(inodes, role, own, i, k);
    }
    forall b | 0 <= b < |own| && own[b].By? ensures OwnerOk(inodes, role, own[b], b) {
    }
    OwnersStep(inodes, role, own, i, node, own);
  }

  /** One more block at the end. */
  lemma GainBlock(inodes: seq<Inode>, role: seq<Role>, own: seq<Owner>, i: int, node: Inode)
    requires Owners(inodes, role, own) && 0 <= i < |inodes| && role[i].InUse?
    requires Owned(node) == Owned(inodes[i]) + 1
    requires forall k :: 0 <= k < Owned(inodes[i]) ==> node.dblocks[k] == inodes[i].dblocks[k]
    requires var b := node.dblocks[Owned(inodes[i])]; 0 <= b < |own| && !own[b].By?
    ensures Owners(inodes[i := node], role, own[node.dblocks[Owned(inodes[i])] := By(i, Owned(inodes[i]))])
  {
    var m := Owned(inodes[i]);
    var own' := own[node.dblocks[m] := By(i, m)];
    forall k | 0 <= k < Owned(node) ensures OwnsAt(node, own', i, k) {
      if k < m {
        OwnsItsBlock(inodes, role, own, i, k);
      }
    }
    forall b | 0 <= b < |own| && own[b].By? ensures OwnerOk(inodes, role, own[b], b) {
    }
    OwnersStep(inodes, role, own, i, node, own');
  }

  /** One block fewer at the end. */
  lemma LoseLastBlock(inodes: seq<Inode>, role: seq<Role>, own: seq<Owner>, i: int, node: Inode, o: Owner)
    requires Owners(inodes, role, own) && 0 <= i < |inodes| && role[i].InUse?
    requires Owned(node) + 1 == Owned(inodes[i]) <= N_DBLOCKS && !o.By?
    requires forall k :: 0 <= k < Owned(node) ==> node.dblocks[k] == inodes[i].dblocks[k]
    ensures var b := inodes[i].dblocks[Owned(node)];
            0 <= b < |own| && own[b] == By(i, Owned(node)) && Owners(inodes[i := node], role, own[b := o])
  {
    var m := Owned(node);
    OwnsItsBlock(inodes, role, own, i, m);
    var own' := own[inodes[i].dblocks[m] := o];
    forall k | 0 <= k < m ensures OwnsAt(node, own', i, k) {
      OwnsItsBlock(inodes, role, own, i, k);
    }
    forall b | 0 <= b < |own| && own[b].By? ensures OwnerOk(inodes, role, own[b], b) {
    }
    OwnersStep(inodes, role, own, i, node, own');
  }

  /** The k-th block is replaced by one nobody owns, and is lost. */
  lemma ReplaceBlock(inodes: seq<Inode>, role: seq<Role>, own: seq<Owner>, i: int, node: Inode, k: nat)
    requires Owners(inodes, role, own) && 0 <= i < |inodes| && role[i].InUse?
    requires Owned(node) == Owned(inodes[i]) && k < Owned(node) <= N_DBLOCKS
    requires forall m :: 0 <= m < Owned(node) && m != k ==> node.dblocks[m] == inodes[i].dblocks[m]
    requires 0 <= node.dblocks[k] < |own| && !own[node.dblocks[k]].By?
    ensures 0 <= inodes[i].dblocks[k] < |own| && own[inodes[i].dblocks[k]] == By(i, k)
    ensures Owners(inodes[i := node], role, own[inodes[i].dblocks[k] := Lost][node.dblocks[k] := By(i, k)])
  {
    OwnsItsBlock(inodes, role, own, i, k);
    var own' := own[inodes[i].dblocks[k] := Lost][node.dblocks[k] := By(i, k)];
    forall m | 0 <= m < Owned(node) ensures OwnsAt(node, own', i, m) {
      OwnsItsBlock(inodes, role, own, i, m);
    }
    forall b | 0 <= b < |own| && own[b].By? ensures OwnerOk(inodes, role, own[b], b) {
    }
    OwnersStep(inodes, role, own, i, node, own');
  }

  /** A new inode with one block. */
  lemma BirthOwner(inodes: seq<Inode>, role: seq<Role>, own: seq<Owner>, ni: int, child: Inode)
    requires Owners(inodes, role, own) && 0 <= ni < |inodes| && role[ni].Idle?
    requires Owned(child) == 1
    requires 0 <= child.dblocks[0] < |own| && !own[child.dblocks[0]].By?
    ensures Owners(inodes[ni := child], role[ni := InUse], own[child.dblocks[0] := By(ni, 0)])
  {
    var inodes', role' := inodes[ni := child], role[ni := InUse];
    var own' := own[child.dblocks[0] := By(ni, 0)];
    OthersKeep(inodes, role, own, ni, own');
    forall j | 0 <= j < |inodes| && role'[j].InUse? ensures OwnsAll(inodes'[j], own', j) {
      if j != ni {
        assert OwnsAll(inodes[j], own', j);
      }
    }
    forall b | 0 <= b < |own'| && own'[b].By? ensures OwnerOk(inodes', role', own'[b], b) {
      if b != child.dblocks[0] {
        assert OwnerOk(inodes, role, own[b], b);
      }
    }
  }

  // ---- blocks beyond the direct ones ----

  /** The inode has no block beyond the direct ones, or is not in use. */
  predicate Shallow(node: Inode, r: Role) { r.InUse? ==> DataCount(node) <= N_DBLOCKS }

  /** The same blocks beyond the direct ones. */
  predicate SameDeep(node: Inode, r: Role, node': Inode, r': Role) {
    || (Shallow(node, r) && Shallow(node', r'))
    || (r.InUse? && r'.InUse? && DataCount(node) == DataCount(node')
        && node'.iblocks == node.iblocks && node'.i2block == node.i2block && node'.i3block == node.i3block)
  }

  lemma {:induction false} DeepNumberStays(blocks: seq<Block>, blocks': seq<Block>, node: Inode, node': Inode, own: seq<Owner>, i: nat, x: Node)
    requires DeepAll(node, blocks, own, i) && DeepNeeded(node, x) && |own| == |blocks| == |blocks'|
    requires forall b :: 0 <= b < |own| && own[b].Deep? && own[b].i == i ==> blocks'[b] == blocks[b]
    requires node'.iblocks == node.iblocks && node'.i2block == node.i2block && node'.i3block == node.i3block
    ensures Number(blocks', node', x) == Number(blocks, node, x)
    decreases x.Depth()
  {
    if !x.InInode() {
      AboveFirst(x);
      DeepNumberStays(blocks, blocks', node, node', own, i, x.Above());
      assert DeepAt(node, blocks, own, i, x.Above());
    }
  }

  /** Nothing that is written or changes its role is beyond the direct blocks. */
  lemma DeepsStay(inodes: seq<Inode>, blocks: seq<Block>, role: seq<Role>, own: seq<Owner>,
                  inodes': seq<Inode>, blocks': seq<Block>, role': seq<Role>, own': seq<Owner>)
    requires Deeps(inodes, blocks, role, own)
    requires |inodes'| == |inodes| == |role'| && |blocks'| == |blocks| == |own'|
    requires forall b :: 0 <= b < |own| && (own[b].Deep? || own'[b].Deep?) ==> own'[b] == own[b] && blocks'[b] == blocks[b]
    requires forall i :: 0 <= i < |inodes| ==> SameDeep(inodes[i], role[i], inodes'[i], role'[i])
    ensures Deeps(inodes', blocks', role', own')
  {
    forall i | 0 <= i < |inodes'| && role'[i].InUse? ensures DeepAll(inodes'[i], blocks', own', i) {
      assert SameDeep(inodes[i], role[i], inodes'[i], role'[i]);
      forall x | DeepNeeded(inodes'[i], x) ensures DeepAt(inodes'[i], blocks', own', i, x) {
        DeepIsFar(x);
        assert DeepAll(inodes[i], blocks, own, i) && DeepAt(inodes[i], blocks, own, i, x);
        DeepNumberStays(blocks, blocks', inodes[i], inodes'[i], own, i, x);
      }
    }
    forall b | 0 <= b < |own'| && own'[b].Deep? ensures DeepOk(inodes', blocks', role', own'[b], b) {
      assert DeepOk(inodes, blocks, role, own[b], b);
      var i, x := own[b].i, own[b].x;
      DeepIsFar(x);
      assert SameDeep(inodes[i], role[i], inodes'[i], role'[i]);
      assert DeepAll(inodes[i], blocks, own, i);
      DeepNumberStays(blocks, blocks', inodes[i], inodes'[i], own, i, x);
    }
  }

  lemma DeepIsFar(x: Node)
    requires IsDeep(x)
    ensures x.First() >= N_DBLOCKS
  {
  }

  /** One inode changes that has, before and after, direct blocks only. */
  lemma DeepsAside(inodes: seq<Inode>, blocks: seq<Block>, role: seq<Role>, own: seq<Owner>, i: int, node: Inode, r: Role,
                   blocks': seq<Block>, own': seq<Owner>)
    requires Deeps(inodes, blocks, role, own) && 0 <= i < |inodes|
    requires Shallow(inodes[i], role[i]) && Shallow(node, r)
    requires |blocks'| == |blocks| == |own'|
    requires forall b :: 0 <= b < |own| && (own[b].Deep? || own'[b].Deep?) ==> own'[b] == own[b] && blocks'[b] == blocks[b]
    ensures Deeps(inodes[i := node], blocks', role[i := r], own')
  {
    DeepsStay(inodes, blocks, role, own, inodes[i := node], blocks', role[i := r], own');
  }

  lemma SmallIsShallow(node: Inode, r: Role)
    requires SizeOk(node)
    ensures Shallow(node, r)
  {
  }

  /** The list names exactly the blocks of inode j beyond the direct ones. */
  ghost predicate DeepListed(own: seq<Owner>, j: int, list: seq<int32>) {
    && Distinct(list)
    && (forall b :: b in list ==> 0 <= b < |own|)
    && (forall b :: 0 <= b < |own| ==> (b in list <==> own[b].Deep? && own[b].i == j))
  }

  lemma DeepList(inodes: seq<Inode>, blocks: seq<Block>, role: seq<Role>, own: seq<Owner>, j: int)
    requires Deeps(inodes, blocks, role, own) && 0 <= j < |inodes| && role[j].InUse? && FileSizeOk(inodes[j])
    ensures DeepListed(own, j, DeepNumbers(blocks, inodes[j]))
  {
    var node := inodes[j];
    var n := BlocksFor(node.size);
    BeyondAre(n);
    var xs, list := Beyond(n), DeepNumbers(blocks, node);
    assert DeepAll(node, blocks, own, j);
    forall c | 0 <= c < |xs| ensures DeepNeeded(node, xs[c]) && DeepAt(node, blocks, own, j, xs[c]) {
      assert xs[c] in xs;
    }
    forall b | 0 <= b < |own| && own[b].Deep? && own[b].i == j ensures b in list {
      assert DeepOk(inodes, blocks, role, own[b], b);
      DeepIsFar(own[b].x);
      assert own[b].x in xs;
      var c :| 0 <= c < |xs| && xs[c] == own[b].x;
      assert list[c] == b;
    }
  }

  // ---- directory contents ----

  /** The block that holds entry k of a directory belongs to it. */
  lemma EntryBlockOwned(inodes: seq<Inode>, role: seq<Role>, own: seq<Owner>, i: int, k: nat)
    requires Owners(inodes, role, own) && 0 <= i < |inodes| && role[i].InUse? && inodes[i].kind == DIR
    requires DirSizeOk(inodes[i]) && SizeOk(inodes[i]) && k < Count(inodes[i])
    ensures k / ENTRIES_PER_BLOCK < Owned(inodes[i])
    ensures OwnsAt(inodes[i], own, i, k / ENTRIES_PER_BLOCK)
  {
    OwnsItsBlock(inodes, role, own, i, k / ENTRIES_PER_BLOCK);
  }

  /** Two inodes and blocks agree on everything directory i reads. */
  lemma EntriesFrame(node: Inode, blocks: seq<Block>, node': Inode, blocks': seq<Block>, es: seq<Entry>)
    requires EntriesMatch(node, blocks, es) && SizeOk(node') && Count(node') == Count(node)
    requires forall k :: 0 <= k < Count(node) ==> node'.dblocks[k / ENTRIES_PER_BLOCK] == node.dblocks[k / ENTRIES_PER_BLOCK]
    requires forall k :: 0 <= k < Count(node) ==>
               GetBlock(blocks', node.dblocks[k / ENTRIES_PER_BLOCK]) == GetBlock(blocks, node.dblocks[k / ENTRIES_PER_BLOCK])
    ensures EntriesMatch(node', blocks', es)
  {
    forall k | 0 <= k < |es| ensures DirEntry(blocks', node', k) == es[k] {
      assert DirEntry(blocks, node, k) == es[k];
    }
  }

  /** Writing a block that no directory in `keep` owns. */
  lemma EntriesUntouched(inodes: seq<Inode>, blocks: seq<Block>, role: seq<Role>, own: seq<Owner>,
                         i: int, es: seq<Entry>, b: int, x: Block)
    requires Owners(inodes, role, own) && |own| == |blocks| && UsedDir(inodes, role, i)
    requires DirSizeOk(inodes[i]) && EntriesMatch(inodes[i], blocks, es)
    requires 0 <= b < |blocks| && (own[b].By? ==> own[b].i != i)
    ensures EntriesMatch(inodes[i], blocks[b := x], es)
  {
    forall k | 0 <= k < Count(inodes[i])
      ensures GetBlock(blocks[b := x], inodes[i].dblocks[k / ENTRIES_PER_BLOCK]) == GetBlock(blocks, inodes[i].dblocks[k / ENTRIES_PER_BLOCK])
    {
      EntryBlockOwned(inodes, role, own, i, k);
    }
    EntriesFrame(inodes[i], blocks, inodes[i], blocks[b := x], es);
  }
}
