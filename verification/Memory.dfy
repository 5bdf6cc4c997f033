/** Buffers over every run: none leaks, and each grows as the growth arithmetic says. */
module Memory {
  import opened Lists
  import opened Paths
  import opened Tree
  import opened FileData
  import opened Inodes
  import opened Refinement

  /** Some newest name holds the buffer. */
  ghost predicate Owned<E, B>(fs: Fs<E, B>, b: B) {
    exists i: nat {:trigger HeadRec(fs, i)} :: HeadRec(fs, i).data == Some(b)
  }

  /** Nothing has leaked: the live buffers are those of the newest names. */
  ghost predicate Tight<E, B>(fs: Fs<E, B>) {
    forall b {:trigger Owned(fs, b)} :: b in fs.bufs ==> Owned(fs, b)
  }

  lemma HeadStepTight<E, B>(fs: Fs<E, B>, fs': Fs<E, B>)
    requires Tight(fs) && HeadStep(fs, fs')
    ensures Tight(fs')
  {
    forall b {:trigger Owned(fs', b)} | b in fs'.bufs ensures Owned(fs', b) {
      assert Owned(fs, b);
      var i: nat :| HeadRec(fs, i).data == Some(b);
      assert HeadRec(fs', i) == HeadRec(fs, i);
    }
  }

  /** What a write does to the written inode's record, to its buffer, and to the set of buffers. */
  lemma WrittenRecord<E, B>(fs: Fs<E, B>, ino: nat, offset: nat, data: Bytes, mem: Option<B>, junk: Bytes)
    requires Ok(fs) && FsWrite(fs, ino, offset, data, mem, junk).1 == OK
    ensures var fs' := FsWrite(fs, ino, offset, data, mem, junk).0;
            var r, r' := HeadRec(fs, ino), HeadRec(fs', ino);
            && offset + |data| <= MAX_FILE_SIZE && r'.size == Max(r.size, offset + |data|)
            && r'.capacity == (if Grows(fs, ino, offset, data) then NewCapacity(r.capacity, offset + |data|) else r.capacity)
            && (Grows(fs, ino, offset, data) <==> r'.capacity > r.capacity)
            && (!Grows(fs, ino, offset, data) ==> r'.data == r.data)
            && (forall b :: b in fs'.bufs ==> r'.data == Some(b) || (b in fs.bufs && r.data != Some(b)))
  {
    hide WellFormed, Regrown, Overlaid, Fit;
    HeadFacts(fs, ino);
  }

  lemma WriteTight<E, B>(fs: Fs<E, B>, ino: nat, offset: nat, data: Bytes, mem: Option<B>, junk: Bytes)
    requires Ok(fs) && Tight(fs)
    ensures Tight(FsWrite(fs, ino, offset, data, mem, junk).0)
  {
    hide WellFormed, Ok, FsWrite, HeadRec;
    UnwrittenSame(fs, ino, offset, data, mem, junk);
    var (fs', err) := FsWrite(fs, ino, offset, data, mem, junk);
    if err == OK {
      WrittenRecord(fs, ino, offset, data, mem, junk);
      WrittenHeads(fs, ino, offset, data, mem, junk);
      forall b {:trigger Owned(fs', b)} | b in fs'.bufs ensures Owned(fs', b) {
        if HeadRec(fs', ino).data != Some(b) {
          assert Owned(fs, b);
          var i: nat :| HeadRec(fs, i).data == Some(b);
          assert HeadRec(fs', i) == HeadRec(fs, i);
        }
      }
    }
  }

  /** Over every guarded run the live buffers are exactly those of the newest names. */
  lemma {:induction false} RunTight<E, B>(fs: Fs<E, B>, ops: seq<FsOp<E, B>>)
    requires Ok(fs) && AlwaysGuarded(fs, ops) && Tight(fs)
    ensures var fs' := FsDoAll(fs, ops);
            Ok(fs') && forall b {:trigger b in fs'.bufs} {:trigger Owned(fs', b)} :: b in fs'.bufs ==> Owned(fs', b)
    ensures var fs' := FsDoAll(fs, ops);
            forall i {:trigger HeadRec(fs', i)} :: HeadRec(fs', i).data.Some? ==> HeadRec(fs', i).data.value in fs'.bufs
    decreases |ops|
  {
    hide WellFormed, FsStep, FsWrite, HeadRec, Owned;
    if ops != [] {
      StepRefines(fs, ops[0]);
      match ops[0] {
        case TreeOp(o) => TreeStepOk(fs, o); HeadStepTight(fs, FsStep(fs, o));
        case Write(i, o, d, m, j) => WriteTight(fs, i, o, d, m, j);
      }
      RunTight(FsDo(fs, ops[0]), ops[1..]);
    } else {
      LiveHeads(fs);
    }
  }

  lemma LiveHeads<E, B>(fs: Fs<E, B>)
    requires Ok(fs)
    ensures forall i {:trigger HeadRec(fs, i)} :: HeadRec(fs, i).data.Some? ==> HeadRec(fs, i).data.value in fs.bufs
  {
    hide WellFormed;
    forall i {:trigger HeadRec(fs, i)} | HeadRec(fs, i).data.Some? ensures HeadRec(fs, i).data.value in fs.bufs {
      assert LiveRec(fs, HeadRec(fs, i));
    }
  }

  /** The growth of one inode's buffer, operation by operation; a number that is gone starts again. */
  ghost function Record<E, B>(fs: Fs<E, B>, op: FsOp<E, B>, ino: nat, g: Growth): Growth
    requires Ok(fs)
  {
    if op.Write? && op.ino == ino && FsWrite(fs, op.ino, op.offset, op.data, op.mem, op.junk).1 == OK
    then Grow(g, op.offset, |op.data|)
    else if GetByIno(FsDo(fs, op).tree, ino).None? then Growth(0, 0, 0, 0)
    else g
  }

  ghost function RecordAll<E, B>(fs: Fs<E, B>, ops: seq<FsOp<E, B>>, ino: nat, g: Growth): Growth
    requires Ok(fs) && AlwaysGuarded(fs, ops)
    decreases |ops|
  {
    if ops == [] then g
    else
      StepRefines(fs, ops[0]);
      RecordAll(FsDo(fs, ops[0]), ops[1..], ino, Record(fs, ops[0], ino, g))
  }

  /** The counter of `FileData` describes the inode's newest name. */
  ghost predicate Follows<E, B>(fs: Fs<E, B>, ino: nat, g: Growth) {
    g.size == HeadRec(fs, ino).size && g.capacity == HeadRec(fs, ino).capacity && GrowthOk(g)
  }

  /** A successful write changes size and capacity as `Grow` says, and moves the buffer exactly when it counts a
      move. */
  lemma WriteFollows<E, B>(fs: Fs<E, B>, ino: nat, offset: nat, data: Bytes, mem: Option<B>, junk: Bytes, g: Growth)
    requires Ok(fs) && Follows(fs, ino, g) && FsWrite(fs, ino, offset, data, mem, junk).1 == OK
    ensures Follows(FsWrite(fs, ino, offset, data, mem, junk).0, ino, Grow(g, offset, |data|))
    ensures Grow(g, offset, |data|).moves == g.moves + if Grows(fs, ino, offset, data) then 1 else 0
    ensures !Grows(fs, ino, offset, data) ==>
              HeadRec(FsWrite(fs, ino, offset, data, mem, junk).0, ino).data == HeadRec(fs, ino).data
  {
    hide WellFormed, Ok, FsWrite, GrowthOk, HeadRec;
    WrittenRecord(fs, ino, offset, data, mem, junk);
    GrowOk(g, offset, |data|);
  }

  lemma StepFollows<E, B>(fs: Fs<E, B>, op: FsOp<E, B>, ino: nat, g: Growth)
    requires Ok(fs) && Guarded(fs, op) && Follows(fs, ino, g)
    ensures Follows(FsDo(fs, op), ino, Record(fs, op, ino, g))
  {
    hide WellFormed, Ok, FsWrite, GrowthOk, FsStep, GetByIno;
    match op
    case TreeOp(o) =>
      TreeStepOk(fs, o);
      assert HeadRec(FsStep(fs, o), ino) == HeadRec(fs, ino) || GetByIno(FsStep(fs, o).tree, ino).None?;
      NothingGrown();
    case Write(i, o, d, m, j) =>
      UnwrittenSame(fs, i, o, d, m, j);
      NothingGrown();
      if FsWrite(fs, i, o, d, m, j).1 == OK {
        if i == ino { WriteFollows(fs, i, o, d, m, j, g); } else { WrittenHeads(fs, i, o, d, m, j); }
      }
  }

  lemma NothingGrown()
    ensures GrowthOk(Growth(0, 0, 0, 0))
  {
  }

  /** Over every guarded run, for every inode: size within capacity, capacity within max(64, 2 * size) once
      allocated, size within 1 MiB, the copying of all its moves within the capacity, and at most 15 moves. */
  lemma {:induction false} RunFollows<E, B>(fs: Fs<E, B>, ops: seq<FsOp<E, B>>, ino: nat, g: Growth)
    requires Ok(fs) && AlwaysGuarded(fs, ops) && Follows(fs, ino, g)
    ensures Follows(FsDoAll(fs, ops), ino, RecordAll(fs, ops, ino, g))
    ensures var r := HeadRec(FsDoAll(fs, ops), ino);
            && r.size <= MAX_FILE_SIZE && r.size <= r.capacity && (r.capacity > 0 ==> r.capacity <= Max(64, 2 * r.size))
            && RecordAll(fs, ops, ino, g).moves <= 15 && RecordAll(fs, ops, ino, g).copied <= r.capacity
    decreases |ops|
  {
    hide WellFormed, Ok, FsDo, Record, HeadRec, Guarded;
    if ops != [] {
      StepRefines(fs, ops[0]);
      StepFollows(fs, ops[0], ino, g);
      RunFollows(FsDo(fs, ops[0]), ops[1..], ino, Record(fs, ops[0], ino, g));
    }
  }

  lemma FreshHead<E, B>(root: E, i: nat)
    ensures HeadRec(FreshState<E, B>(root), i) == FileRec(None, 0, 0)
  {
    assert [root][1..] == [];
  }

  /** A fresh mount: no buffers, and no inode has grown. */
  lemma FreshIsTight<E, B>(root: E, i: nat)
    ensures var fs := FreshState<E, B>(root); Ok(fs) && Tight(fs) && Follows(fs, i, Growth(0, 0, 0, 0))
  {
    FreshIsOk<E, B>(root);
    FreshHead<E, B>(root, i);
    NothingGrown();
  }
}
