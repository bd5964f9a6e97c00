/** The calls by descriptor as wholes, with all their tests, in terms of the slot, the data and the
    bytes of the file. */
module ByDescriptor {
  import opened Bytes
  import opened BlockMap
  import opened Records
  import opened Operations
  import opened Transfer
  import opened Calls
  import opened Invariant
  import opened Guards
  import opened Runs
  import opened WriteSteps
  import opened WriteWhole
  import Spilling
  import Intended
  import Cycle

  /** What is not a regular file open for writing is left alone: a slot that is free or open for reading
      gives -1, a directory 0. */
  lemma NothingWritten(s: State, v: Variant, fd: int, data: seq<byte>)
    requires ValidFd(fd) && |s.table| == FILETABLESIZE
    requires s.table[fd].free || s.table[fd].access == READ || s.table[fd].node.kind != REG
    ensures CanDo(s, v, FWrite(fd, data)) && Step(s, v, FWrite(fd, data)) == s
    ensures Intended.WriteIn(s, v, fd, data) == (s, if s.table[fd].free || s.table[fd].access == READ then -1 else 0)
  {
  }

  lemma TableLength(s: State, g: Ghost)
    requires Inv(s, g)
    ensures |s.table| == FILETABLESIZE
  {
  }

  /** A regular file open for WRITE or READANDWRITE, as written: the call fails without changing anything
      when the data does not fit into the block of the offset and there is no free block. Otherwise it
      returns the number of bytes, does to the bytes of the file and to the roles of the blocks what
      `Written` says, changes no other slot and no other inode, and leaves the file with the data at the
      offset and everything else as it was exactly when `WriteSound` holds. */
  lemma WriteInDoes(s: State, g: Ghost, fd: nat, data: seq<byte>) returns (h: Ghost)
    requires CanWrite(s, g, fd, data)
    ensures ValidFd(fd) && CanDo(s, AsWritten, FWrite(fd, data))
    ensures var (t, r) := Intended.WriteIn(s, AsWritten, fd, data);
            var slot := s.table[fd];
            && LeadsTo(s, AsWritten, FWrite(fd, data), t)
            && if BLOCKSIZE - slot.offset % BLOCKSIZE < |data| && s.sb.freeBlock == -1 then (t, r) == (s, -1)
               else
                 && r == |data| && Written(s, g, fd, data, t, h) && Cycle.OnlyFile(s, t, fd)
                 && (Refines(s, t, fd, slot.offset, data) <==> WriteSound(s, slot, |data|))
  {
    hide Inv, Write, Written, Refines, WriteSound, Cycle.OnlyFile;
    h := g;
    OpenSlot(s, g, fd);
    if !RefusesWrite(s, s.table[fd], |data|) {
      h := WriteDoes(s, g, fd, data);
      WriteExactly(s, g, fd, data);
      Cycle.WriteOnlyFile(s, fd, data);
    } else {
      WriteRefused(s, fd, data);
    }
  }

  lemma OpenSlot(s: State, g: Ghost, fd: nat)
    requires OpenReg(s, g, fd)
    ensures |s.table| == FILETABLESIZE && fd < FILETABLESIZE && !s.table[fd].free && s.table[fd].node.kind == REG
  {
    TableLength(s, g);
  }

  /** A regular file open for APPEND, as written: the same with the end of the file for the offset. What
      happens to every byte is in `Appended`; other files are spared exactly when the block behind the
      end of the file, which the call overwrites, is none of theirs. */
  lemma AppendInDoes(s: State, g: Ghost, fd: nat, data: seq<byte>)
    requires Spilling.CanSpill(s, g, fd, data)
    ensures ValidFd(fd) && CanDo(s, AsWritten, FWrite(fd, data)) && Spilling.Turns(s.table[fd], |data|) <= N_DBLOCKS
    ensures var (t, r) := Intended.WriteIn(s, AsWritten, fd, data);
            var slot := s.table[fd];
            && LeadsTo(s, AsWritten, FWrite(fd, data), t)
            && if BLOCKSIZE - slot.node.size % BLOCKSIZE < |data| && s.sb.freeBlock == -1 then (t, r) == (s, -1)
               else
                 && r == |data| && Spilling.Appended(s, fd, data, t) && Cycle.OnlyFile(s, t, fd) && slot.node.size + |data| <= DIRECT_LIMIT
                 && (Refines(s, t, fd, slot.node.size, data) <==> Spilling.AppendSound(s, slot, data))
                 && (OthersUntouched(s, t, g, slot.node.index) <==> Spilling.TailSpared(s, g, slot, data))
  {
    hide Inv, Write, Spilling.Appended, Refines, Spilling.AppendSound, Cycle.OnlyFile, OthersUntouched, Spilling.TailSpared, Spilling.Turns;
    AppendSlot(s, g, fd, data);
    Spilling.TurnsFit(s.table[fd], |data|);
    if !RefusesWrite(s, s.table[fd], |data|) {
      Spilling.AppendDoes(s, g, fd, data);
      Spilling.AppendExactly(s, g, fd, data);
      Cycle.WriteOnlyFile(s, fd, data);
    } else {
      WriteRefused(s, fd, data);
    }
  }

  lemma AppendSlot(s: State, g: Ghost, fd: nat, data: seq<byte>)
    requires Spilling.CanSpill(s, g, fd, data)
    ensures |s.table| == FILETABLESIZE && fd < FILETABLESIZE && !s.table[fd].free && s.table[fd].node.kind == REG
    ensures s.table[fd].access == APPEND && WithinDirect(s.table[fd], |data|)
  {
    hide Inv;
    OpenSlot(s, g, fd);
  }

  lemma IntendedOnlyFile(s: State, fd: nat, data: seq<byte>)
    requires fd < |s.table| && 0 <= Place(s.table[fd]) && Place(s.table[fd]) + |data| <= MAX_SIZE && Intended.WithinTree(s.table[fd], |data|)
    ensures Cycle.OnlyFile(s, Intended.IntendedWrite(s, fd, data).0, fd)
  {
    hide Intended.PutAll;
    Cycle.PutAllOnlyFile(s, fd, Place(s.table[fd]), data);
    Cycle.OffsetOnlyFile(s, Intended.PutAll(s, fd, Place(s.table[fd]), data), fd, Place(s.table[fd]) + |data|);
  }

  /** Repaired, whatever the mode: with p the offset, or the end of the file for APPEND, the contents c
      become c[..p] + data + c[p + |data|..], the offset p + |data|; the call returns |data|, keeps the
      invariant, takes exactly the blocks by which the file grows, and changes no other file. */
  lemma RepairedWriteDoes(s: State, g: Ghost, fd: nat, data: seq<byte>) returns (h: Ghost)
    requires OpenReg(s, g, fd) && s.table[fd].access != READ && Intended.WithinTree(s.table[fd], |data|)
    requires var p := if s.table[fd].access == APPEND then s.table[fd].node.size else s.table[fd].offset;
             0 <= p && Intended.CanPutAll(s, g, fd, p, data)
    ensures ValidFd(fd) && CanDo(s, Repaired, FWrite(fd, data))
    ensures var (t, r) := Intended.WriteIn(s, Repaired, fd, data);
            var slot := s.table[fd];
            var p := if slot.access == APPEND then slot.node.size else slot.offset;
            && LeadsTo(s, Repaired, FWrite(fd, data), t)
            && r == |data| && fd < |t.table| && FileSizeOk(t.table[fd].node) && FileSizeOk(slot.node) && 0 <= p <= slot.node.size
            && Inv(t, h) && RolesKept(g, h, slot.node.index) && OthersUntouched(s, t, g, slot.node.index) && Cycle.OnlyFile(s, t, fd)
            && |h.fb| + Intended.BlocksWith(t.table[fd].node.size) == |g.fb| + Intended.BlocksWith(slot.node.size)
            && t.table[fd].offset == p + |data|
            && var c := Intended.Contents(s.blocks, slot.node);
               Intended.Contents(t.blocks, t.table[fd].node) == c[..p] + data + (if p + |data| < |c| then c[p + |data|..] else [])
  {
    hide Inv, Intended.IntendedWrite, RolesKept, OthersUntouched, Cycle.OnlyFile, Intended.BlocksWith, Intended.CanPutAll, Intended.Contents;
    OpenSlot(s, g, fd);
    h := Intended.IntendedWriteRefines(s, g, fd, data);
    IntendedOnlyFile(s, fd, data);
  }

  // ---- f_close and f_seek ----

  /** The slot is free and the head is the first free slot; nothing else differs. */
  lemma CloseDoes(s: State, v: Variant, fd: int)
    requires |s.table| == FILETABLESIZE
    ensures CanDo(s, v, FClose(fd))
    ensures var t := Step(s, v, FClose(fd));
            if 0 <= fd < FILETABLESIZE then
              && t == s.(table := s.table[fd := s.table[fd].(free := true)], freehead := t.freehead)
              && 0 <= t.freehead <= fd && t.table[t.freehead].free && forall u :: 0 <= u < t.freehead ==> !t.table[u].free
            else t == s
  {
    hide FirstFree;
    if ValidFd(fd) {
      assert Close(s, fd).table[fd].free;
    }
  }

  /** Where `f_seek` may go: to the offset, or that much further, up to the end of the file; from the end
      it goes nowhere. */
  predicate MaySeek(slot: Slot, offset: int, whence: Whence) {
    && 0 <= offset
    && (whence.SEEKSET? ==> offset <= slot.node.size)
    && (whence.SEEKCUR? ==> slot.offset + offset <= slot.node.size)
  }

  lemma SeekDoes(s: State, v: Variant, fd: int, offset: int, whence: Whence)
    requires |s.table| == FILETABLESIZE
    ensures CanDo(s, v, FSeek(fd, offset, whence))
    ensures var t := Step(s, v, FSeek(fd, offset, whence));
            if 0 <= fd < FILETABLESIZE && MaySeek(s.table[fd], offset, whence) && whence != SEEKEND then
              var at := if whence == SEEKSET then offset else s.table[fd].offset + offset;
              t == s.(table := s.table[fd := s.table[fd].(offset := at)])
            else t == s
  {
    if ValidFd(fd) {
      assert s.table[fd].(offset := s.table[fd].offset) == s.table[fd];
      assert s.table[fd := s.table[fd]] == s.table;
    }
  }
}
