/** The file system over every run: its contents refine a plain map from inode number to bytes. */
module Refinement {
  import opened Lists
  import opened Paths
  import opened Tree
  import opened FileData
  import opened Inodes
  import Undo

  /** The abstraction: inode numbers of files to their bytes. */
  ghost function Abstraction<E, B>(fs: Fs<E, B>): map<nat, Bytes> {
    map i | i in FileInos(fs.tree) :: Content(fs, i)
  }

  datatype FsOp<E, B> =
    | TreeOp(op: Op<E>)
    | Write(ino: nat, offset: nat, data: Bytes, mem: Option<B>, junk: Bytes)

  ghost function FsDo<E, B>(fs: Fs<E, B>, op: FsOp<E, B>): Fs<E, B>
    requires Ok(fs)
  {
    match op
    case TreeOp(o) => FsStep(fs, o)
    case Write(i, o, d, m, j) => FsWrite(fs, i, o, d, m, j).0
  }

  /** The plain machine: files appear empty, vanish, or get spliced. */
  datatype MapOp =
    | Files(appear: set<nat>, vanish: set<nat>)
    | SpliceAt(ino: nat, gap: Bytes, offset: nat, data: Bytes)

  function Apply(m: map<nat, Bytes>, op: MapOp): map<nat, Bytes> {
    match op
    case Files(a, v) => (m - v) + (map i | i in a :: [])
    case SpliceAt(i, g, o, d) =>
      if i in m && |g| == Max(0, o - |m[i]|) then m[i := GapSplice(m[i], g, o, d)] else m
  }

  function ApplyAll(m: map<nat, Bytes>, ops: seq<MapOp>): map<nat, Bytes>
    decreases |ops|
  {
    if ops == [] then m else ApplyAll(Apply(m, ops[0]), ops[1..])
  }

  /** A create below that directory goes through. */
  ghost predicate Creatable<E>(s: Store<E>, parentIno: nat, name: string, mem: Option<E>) {
    var d := GetByIno(s, parentIno);
    && d.Some? && d.value in s.nodes && s.nodes[d.value].dir && Lookup(s, d.value, name).None?
    && mem.Some? && mem.value !in s.nodes
  }

  ghost predicate OnlyName<E>(s: Store<E>, v: E)
    requires v in s.nodes
  {
    forall x {:trigger s.nodes[x].ino} :: x in s.nodes && s.nodes[x].ino == s.nodes[v].ino ==> x == v
  }

  /** The number of the file that an operation brings: a create that is not rolled back, or a fetched file. */
  ghost function Appears<E>(s: Store<E>, o: Op<E>): set<nat> {
    match o
    case Create(p, n, m, inodeOk) => if inodeOk && Creatable(s, p, n, m) then {s.nextIno} else {}
    case Lookup_(p, n, m, remote) => if remote == Some(false) && Creatable(s, p, n, m) then {s.nextIno} else {}
    case _ => {}
  }

  /** The number of the file that loses its only name. */
  ghost function Vanishes<E>(s: Store<E>, o: Op<E>): set<nat> {
    match o
    case Unlink(p, n) =>
      var v := Victim(s, p, n);
      if v.Some? && v.value in s.nodes && !s.nodes[v.value].dir && OnlyName(s, v.value) then {s.nodes[v.value].ino} else {}
    case _ => {}
  }

  /** What the plain map must do for an operation, decided before the operation runs. */
  ghost function Label<E, B>(fs: Fs<E, B>, op: FsOp<E, B>): MapOp
    requires Ok(fs)
  {
    match op
    case TreeOp(o) => Files(Appears(fs.tree, o), Vanishes(fs.tree, o))
    case Write(i, o, d, m, j) =>
      if i in FileInos(fs.tree) && o + |d| <= MAX_FILE_SIZE && HasMemory(fs, i, o, d, m)
      then SpliceAt(i, GapBytes(fs, i, o, |d|), o, d) else Files({}, {})
  }

  /** Unlinks keep to the guard on losing the newest of several names. */
  ghost predicate Guarded<E, B>(fs: Fs<E, B>, op: FsOp<E, B>)
    requires Ok(fs)
  {
    (op.TreeOp? ==> NamesValid(op.op)) &&
    (op.TreeOp? && op.op.Unlink? ==>
       var v := Victim(fs.tree, op.op.parentIno, op.op.name);
       v.Some? && v.value in fs.tree.nodes && v.value in fs.files ==> SafeToLose(fs, v.value))
  }

  lemma DirectoriesAreSafe<E, B>(fs: Fs<E, B>, v: E)
    requires Ok(fs) && v in fs.tree.nodes && fs.tree.nodes[v].dir && DeleteEntry(fs.tree, v).1 == OK
    ensures LastName(fs, v)
  {
    DeletedHeads(fs.tree, v);
  }

  lemma HeadOfFile<E, B>(fs: Fs<E, B>, i: nat)
    requires Ok(fs) && i in FileInos(fs.tree)
    ensures GetByIno(fs.tree, i).Some?
  {
    var x :| x in fs.tree.nodes && !fs.tree.nodes[x].dir && fs.tree.nodes[x].ino == i;
    GetByInoFacts(fs.tree, i);
  }

  lemma NotAFileNoContent<E, B>(fs: Fs<E, B>, i: nat)
    requires Ok(fs) && i !in FileInos(fs.tree)
    ensures Content(fs, i) == []
  {
    HeadFacts(fs, i);
    var h := GetByIno(fs.tree, i);
    if h.Some? { assert fs.tree.nodes[h.value].dir; }
  }

  lemma TreeStepOk<E, B>(fs: Fs<E, B>, o: Op<E>)
    requires Ok(fs) && Guarded<E, B>(fs, TreeOp(o))
    ensures var fs' := FsStep(fs, o);
            Ok(fs') && HeadStep(fs, fs') && forall i :: i in FileInos(fs'.tree) ==> Content(fs', i) == Content(fs, i)
  {
    hide WellFormed, GetByIno, DeleteEntry, Content;
    match o
    case Lookup_(_, _, _, _) => MakeOk(fs, o);
    case Create(_, _, _, _) => MakeOk(fs, o);
    case Mkdir(_, _, _, _) => MakeOk(fs, o);
    case Link(t, p, n, m) => LinkOk(fs, t, p, n, m);
    case Unlink(p, n) => DropOk(fs, p, n);
    case Rmdir(p, n) =>
      VictimDeleted(fs.tree, p, n);
      var v := Victim(fs.tree, p, n);
      if v.Some? && fs.tree.nodes[v.value].dir { DropOk(fs, p, n); }
  }

  lemma DropOk<E, B>(fs: Fs<E, B>, p: nat, n: string)
    requires Ok(fs)
    requires var v := Victim(fs.tree, p, n);
             v.Some? && v.value in fs.tree.nodes && v.value in fs.files ==>
               fs.tree.nodes[v.value].dir || SafeToLose(fs, v.value)
    ensures var fs' := FsUnlink(fs, p, n);
            Ok(fs') && HeadStep(fs, fs') && forall i :: i in FileInos(fs'.tree) ==> Content(fs', i) == Content(fs, i)
  {
    hide WellFormed, GetByIno, DeleteEntry, Content;
    VictimDeleted(fs.tree, p, n);
    var v := Victim(fs.tree, p, n);
    if v.Some? && DeleteEntry(fs.tree, v.value).1 == OK {
      if fs.tree.nodes[v.value].dir { DirectoriesAreSafe(fs, v.value); }
      DeleteOk(fs, v.value);
      var fs' := FsUnlink(fs, p, n);
      forall i | i in FileInos(fs'.tree) ensures Content(fs', i) == Content(fs, i) {
        HeadOfFile(fs', i);
      }
    }
  }

  /** One step of the file system is one step of the map. */
  lemma StepRefines<E, B>(fs: Fs<E, B>, op: FsOp<E, B>)
    requires Ok(fs) && Guarded(fs, op)
    ensures Ok(FsDo(fs, op)) && Abstraction(FsDo(fs, op)) == Apply(Abstraction(fs), Label(fs, op))
  {
    hide WellFormed, Ok;
    match op
    case TreeOp(o) => TreeStepRefines(fs, o);
    case Write(i, off, d, m, j) => WriteStepRefines(fs, i, off, d, m, j);
  }

  lemma WriteStepRefines<E, B>(fs: Fs<E, B>, i: nat, off: nat, d: Bytes, m: Option<B>, j: Bytes)
    requires Ok(fs)
    ensures var op := Write(i, off, d, m, j);
            Ok(FsDo(fs, op)) && Abstraction(FsDo(fs, op)) == Apply(Abstraction(fs), Label(fs, op))
  {
    hide WellFormed, Ok, FsWrite, GapSplice, GapBytes, HasMemory, FileInos;
    WriteSucceeds(fs, i, off, d, m, j);
    UnwrittenSame(fs, i, off, d, m, j);
    WriteOk(fs, i, off, d, m, j);
    WrittenHeads(fs, i, off, d, m, j);
    var (fs', err) := FsWrite(fs, i, off, d, m, j);
    HeadFacts(fs, i);
    MapsEqual(fs, fs', Label(fs, Write(i, off, d, m, j)));
  }

  /** Equality of the abstract maps, inode by inode. */
  lemma MapsEqual<E, B>(fs: Fs<E, B>, fs': Fs<E, B>, op: MapOp)
    requires match op
             case Files(a, v) =>
               && FileInos(fs'.tree) == (FileInos(fs.tree) - v) + a
               && forall i :: i in FileInos(fs'.tree) ==> Content(fs', i) == if i in a then [] else Content(fs, i)
             case SpliceAt(ino, g, o, d) =>
               && FileInos(fs'.tree) == FileInos(fs.tree) && ino in FileInos(fs.tree)
               && |g| == Max(0, o - |Content(fs, ino)|)
               && forall i :: i in FileInos(fs'.tree) ==>
                    Content(fs', i) == if i == ino then GapSplice(Content(fs, ino), g, o, d) else Content(fs, i)
    ensures Abstraction(fs') == Apply(Abstraction(fs), op)
  {
    hide GapSplice, FileInos, Content;
    assert Abstraction(fs').Keys == Apply(Abstraction(fs), op).Keys;
  }

  lemma TreeStepRefines<E, B>(fs: Fs<E, B>, o: Op<E>)
    requires Ok(fs) && Guarded<E, B>(fs, TreeOp(o))
    ensures Ok(FsStep(fs, o))
    ensures Abstraction(FsStep(fs, o)) == Apply(Abstraction(fs), Label<E, B>(fs, TreeOp(o)))
  {
    hide WellFormed, FsStep, Ok, Content, FileInos, Appears, Vanishes;
    var fs' := FsStep(fs, o);
    TreeStepOk(fs, o);
    TreeLabel(fs, o);
    forall i | i in FileInos(fs'.tree)
      ensures Content(fs', i) == if i in FileInos(fs.tree) then Content(fs, i) else []
    {
      if i !in FileInos(fs.tree) { NotAFileNoContent(fs, i); }
    }
    MapsEqual(fs, fs', Label<E, B>(fs, TreeOp(o)));
  }

  /** Deletes show only when a file loses its last name; links never show. */
  lemma DeleteLabel<E, B>(fs: Fs<E, B>, v: E)
    requires Ok(fs) && v in fs.tree.nodes && DeleteEntry(fs.tree, v).1 == OK
    ensures FileInos(DeleteEntry(fs.tree, v).0) ==
            FileInos(fs.tree) - (if LastName(fs, v) then {fs.tree.nodes[v].ino} else {})
  {
    hide WellFormed;
    var s, s' := fs.tree, DeleteEntry(fs.tree, v).0;
    DeletedHeads(s, v);
    var ino := s.nodes[v].ino;
    forall i ensures i in FileInos(s') <==> i in FileInos(s) && !(LastName(fs, v) && i == ino) {
      if i in FileInos(s') {
        var x :| x in s'.nodes && !s'.nodes[x].dir && s'.nodes[x].ino == i;
        assert s.nodes[x].ino == i && s.nodes[x].dir == s'.nodes[x].dir;
        assert GetByIno(s', s'.nodes[x].ino).Some?;
      }
      if i in FileInos(s) && !(LastName(fs, v) && i == ino) {
        FileHead(s, i);
        var h := GetByIno(s, i).value;
        if h == v {
          SameInoSameKind(s, v, GetByIno(s', ino).value);
          assert s'.nodes[GetByIno(s', ino).value].ino == ino;
        } else {
          assert s'.nodes[h].ino == i && !s'.nodes[h].dir;
        }
      }
    }
  }

  lemma SameInoSameKind<E>(s: Store<E>, x: E, y: E)
    requires WellFormed(s) && x in s.nodes && y in s.nodes && s.nodes[x].ino == s.nodes[y].ino
    ensures s.nodes[x].dir == s.nodes[y].dir
  {
  }

  lemma LinkLabel<E, B>(fs: Fs<E, B>, t: nat, p: nat, n: string, mem: Option<E>)
    requires Ok(fs) && IsName(n)
    ensures FileInos(LinkStep(fs.tree, t, p, n, mem).0) == FileInos(fs.tree)
  {
    hide WellFormed;
    var s := fs.tree;
    var s' := LinkStep(s, t, p, n, mem).0;
    GetByInoFacts(s, t);
    LinkHeads(s, t, p, n, mem);
    forall i ensures i in FileInos(s') <==> i in FileInos(s) {
      if i in FileInos(s') {
        var x :| x in s'.nodes && !s'.nodes[x].dir && s'.nodes[x].ino == i;
        if x in s.nodes { assert s.nodes[x].ino == i && s.nodes[x].dir == s'.nodes[x].dir; }
      }
      if i in FileInos(s) {
        var x :| x in s.nodes && !s.nodes[x].dir && s.nodes[x].ino == i;
        assert x in s'.nodes && s'.nodes[x].ino == i && s.nodes[x].dir == s'.nodes[x].dir;
      }
    }
  }

  /** A name is the last one exactly when no other entry has its number. */
  lemma LastIsOnly<E>(s: Store<E>, v: E)
    requires WellFormed(s) && v in s.nodes && DeleteEntry(s, v).1 == OK
    ensures GetByIno(DeleteEntry(s, v).0, s.nodes[v].ino).None? <==> OnlyName(s, v)
  {
    hide WellFormed, GetByIno, DeleteEntry;
    DeletedHeads(s, v);
    var s' := DeleteEntry(s, v).0;
    var ino := s.nodes[v].ino;
    GetByInoFacts(s', ino);
    if !OnlyName(s, v) {
      var x :| x in s.nodes && s.nodes[x].ino == ino && x != v;
      assert s'.nodes[x].ino == ino;
    }
  }

  /** Which file numbers an operation on the tree adds and takes. */
  lemma TreeLabel<E, B>(fs: Fs<E, B>, o: Op<E>)
    requires Ok(fs) && NamesValid(o)
    ensures FileInos(FsStep(fs, o).tree) == (FileInos(fs.tree) - Vanishes(fs.tree, o)) + Appears(fs.tree, o)
    ensures Appears(fs.tree, o) !! FileInos(fs.tree)
  {
    hide WellFormed, FileInos, Ok;
    OkParts(fs);
    NumbersUnused(fs.tree);
    match o
    case Lookup_(p, n, m, r) => LookupLabel(fs.tree, p, n, m, r);
    case Create(p, n, m, i) => CreateLabel(fs.tree, p, n, m, i);
    case Mkdir(p, n, m, i) => MkdirLabel(fs.tree, p, n, m, i);
    case Unlink(p, n) => DropLabel(fs, p, n);
    case Rmdir(p, n) => DropLabel(fs, p, n);
    case Link(t, p, n, m) => LinkLabel(fs, t, p, n, m);
  }

  lemma NumbersUnused<E>(s: Store<E>)
    requires WellFormed(s)
    ensures s.nextIno !in FileInos(s)
  {
  }

  lemma MadeInos<E>(s: Store<E>, d: E, n: string, dir: bool, mem: Option<E>)
    requires WellFormed(s) && d in s.nodes
    ensures var (s1, ok) := CreateEntry(s, d, n, dir, 0, mem);
            && ok == (s.nodes[d].dir && Lookup(s, d, n).None? && mem.Some? && mem.value !in s.nodes)
            && FileInos(s1) == FileInos(s) + (if ok && !dir then {s.nextIno} else {})
            && (ok ==> mem.value in s1.nodes && FileInos(SetNlink(s1, mem.value, 2)) == FileInos(s1))
  {
    hide WellFormed, Lookup;
    var (s1, ok) := CreateEntry(s, d, n, dir, 0, mem);
    if ok {
      assert forall x {:trigger s.nodes[x].ino} :: x in s.nodes ==>
        x in s1.nodes && s1.nodes[x].ino == s.nodes[x].ino && s1.nodes[x].dir == s.nodes[x].dir;
      var s2 := SetNlink(s1, mem.value, 2);
      assert forall x {:trigger s1.nodes[x].ino} :: x in s1.nodes ==>
        x in s2.nodes && s2.nodes[x].ino == s1.nodes[x].ino && s2.nodes[x].dir == s1.nodes[x].dir;
      forall i ensures i in FileInos(s1) <==> i in FileInos(s) || (!dir && i == s.nextIno) {
        if i in FileInos(s) {
          var x :| x in s.nodes && !s.nodes[x].dir && s.nodes[x].ino == i;
          assert s1.nodes[x].ino == i;
        }
        if !dir && i == s.nextIno { assert s1.nodes[mem.value].ino == i; }
      }
      forall i ensures i in FileInos(s2) <==> i in FileInos(s1) {
        if i in FileInos(s1) {
          var x :| x in s1.nodes && !s1.nodes[x].dir && s1.nodes[x].ino == i;
          assert s2.nodes[x].ino == i;
        }
      }
    }
  }

  lemma LookupLabel<E>(s: Store<E>, p: nat, n: string, m: Option<E>, r: Option<bool>)
    requires WellFormed(s)
    ensures FileInos(LookupStep(s, p, n, m, r)) == FileInos(s) + Appears(s, Lookup_(p, n, m, r))
  {
    hide WellFormed, FileInos, CreateEntry, Lookup, GetByIno;
    GetByInoFacts(s, p);
    if GetByIno(s, p).Some? && r.Some? { MadeInos(s, GetByIno(s, p).value, n, r.value, m); }
  }

  lemma CreateLabel<E>(s: Store<E>, p: nat, n: string, m: Option<E>, inodeOk: bool)
    requires WellFormed(s)
    ensures FileInos(CreateStep(s, p, n, m, inodeOk).0) == FileInos(s) + Appears(s, Create(p, n, m, inodeOk))
  {
    hide WellFormed, FileInos, CreateEntry, Lookup, GetByIno, DeleteEntry;
    GetByInoFacts(s, p);
    Undo.RollbackRestores(s, p, n, m);
    SameInos(s);
    if GetByIno(s, p).Some? { MadeInos(s, GetByIno(s, p).value, n, false, m); }
  }

  lemma MkdirLabel<E>(s: Store<E>, p: nat, n: string, m: Option<E>, inodeOk: bool)
    requires WellFormed(s)
    ensures FileInos(MkdirStep(s, p, n, m, inodeOk).0) == FileInos(s)
  {
    hide WellFormed, FileInos, CreateEntry, Lookup, GetByIno, DeleteEntry, SetNlink;
    GetByInoFacts(s, p);
    Undo.RollbackRestores(s, p, n, m);
    SameInos(s);
    if GetByIno(s, p).Some? { MadeInos(s, GetByIno(s, p).value, n, true, m); }
  }

  lemma SameInos<E>(s: Store<E>)
    ensures FileInos(s.(nextIno := s.nextIno + 1)) == FileInos(s)
  {
  }

  /** Unlink and rmdir: the only name of a file takes the file with it; nothing else shows. */
  lemma DropLabel<E, B>(fs: Fs<E, B>, p: nat, n: string)
    requires Ok(fs)
    ensures FileInos(FsUnlink(fs, p, n).tree) == FileInos(fs.tree) - Vanishes<E>(fs.tree, Unlink(p, n))
    ensures FileInos(FsRmdir(fs, p, n).tree) == FileInos(fs.tree)
  {
    hide WellFormed, FileInos, GetByIno, DeleteEntry, Lookup, Ok;
    OkParts(fs);
    VictimDeleted(fs.tree, p, n);
    var v := Victim(fs.tree, p, n);
    if v.Some? && DeleteEntry(fs.tree, v.value).1 == OK {
      DeleteLabel(fs, v.value);
      LastIsOnly(fs.tree, v.value);
      if fs.tree.nodes[v.value].dir { DirectoryIsNoFile(fs.tree, v.value); }
    } else if v.Some? {
      RefusedDeletes(fs.tree, v.value);
    }
  }

  lemma DirectoryIsNoFile<E>(s: Store<E>, d: E)
    requires WellFormed(s) && d in s.nodes && s.nodes[d].dir
    ensures s.nodes[d].ino !in FileInos(s)
  {
  }

  lemma RefusedDeletes<E>(s: Store<E>, v: E)
    requires v in s.nodes && v != s.root && DeleteEntry(s, v).1 != OK
    ensures s.nodes[v].dir && DeleteEntry(s, v).0 == s
  {
  }

  // ---------- Runs ----------

  ghost predicate AlwaysGuarded<E, B>(fs: Fs<E, B>, ops: seq<FsOp<E, B>>)
    requires Ok(fs)
    decreases |ops|
  {
    ops == [] || (Guarded(fs, ops[0]) && (StepRefines(fs, ops[0]); AlwaysGuarded(FsDo(fs, ops[0]), ops[1..])))
  }

  ghost function FsDoAll<E, B>(fs: Fs<E, B>, ops: seq<FsOp<E, B>>): Fs<E, B>
    requires Ok(fs) && AlwaysGuarded(fs, ops)
    decreases |ops|
  {
    if ops == [] then fs
    else
      StepRefines(fs, ops[0]);
      FsDoAll(FsDo(fs, ops[0]), ops[1..])
  }

  ghost function Labels<E, B>(fs: Fs<E, B>, ops: seq<FsOp<E, B>>): seq<MapOp>
    requires Ok(fs) && AlwaysGuarded(fs, ops)
    decreases |ops|
  {
    if ops == [] then []
    else
      StepRefines(fs, ops[0]);
      [Label(fs, ops[0])] + Labels(FsDo(fs, ops[0]), ops[1..])
  }

  /** Over every guarded run the newest names' buffers are live, distinct and large enough (`Ok`), and the
      contents are what the plain map's run gives. */
  lemma {:induction false} RunRefines<E, B>(fs: Fs<E, B>, ops: seq<FsOp<E, B>>)
    requires Ok(fs) && AlwaysGuarded(fs, ops)
    ensures Ok(FsDoAll(fs, ops))
    ensures Abstraction(FsDoAll(fs, ops)) == ApplyAll(Abstraction(fs), Labels(fs, ops))
    decreases |ops|
  {
    hide Ok, FsDo, Label, Apply, Abstraction;
    if ops != [] {
      StepRefines(fs, ops[0]);
      RunRefines(FsDo(fs, ops[0]), ops[1..]);
      assert Labels(fs, ops)[1..] == Labels(FsDo(fs, ops[0]), ops[1..]);
    }
  }
}
