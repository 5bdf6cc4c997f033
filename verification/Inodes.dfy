/** File contents behind hard links: every name carries its own copy of the buffer pointer, size and
    capacity, and only the newest name is written. */
module Inodes {
  import opened Lists
  import opened Paths
  import opened Tree
  import opened FileData
  import Server
  import Undo

  datatype FileRec<B> = FileRec(data: Option<B>, size: nat, capacity: nat)

  /** `bufs` holds the live allocations; a freed or moved buffer is no longer in it. */
  datatype Fs<E(==), B(==)> = Fs(tree: Store<E>, files: map<E, FileRec<B>>, bufs: map<B, Bytes>)

  // ---------- Operations ----------

  function FileOf<E, B>(fs: Fs<E, B>, x: E, init: FileRec<B>): FileRec<B> {
    if x in fs.files then fs.files[x] else init
  }

  /** Entries that a step of the tree adds start with the given fields. */
  function WithTree<E, B>(fs: Fs<E, B>, tree': Store<E>, init: FileRec<B>): Fs<E, B> {
    Fs(tree', map x | x in tree'.nodes :: FileOf(fs, x, init), fs.bufs)
  }

  /** `vtfs_storage_delete_entry`: the buffer goes only with the last name. */
  function FsDelete<E, B>(fs: Fs<E, B>, e: E): (Fs<E, B>, Errno)
    requires e in fs.tree.nodes && e in fs.files
  {
    var (tree', err) := DeleteEntry(fs.tree, e);
    if err != OK then (fs, err)
    else
      var d := fs.files[e].data;
      var last := GetByIno(tree', fs.tree.nodes[e].ino).None?;
      (WithTree(fs, tree', FileRec(None, 0, 0)).(bufs := if last && d.Some? then fs.bufs - {d.value} else fs.bufs), OK)
  }

  function FsUnlink<E, B>(fs: Fs<E, B>, parentIno: nat, name: string): Fs<E, B> {
    match Victim(fs.tree, parentIno, name)
    case None => fs
    case Some(v) => if v in fs.tree.nodes && v in fs.files then FsDelete(fs, v).0 else fs
  }

  function FsRmdir<E, B>(fs: Fs<E, B>, parentIno: nat, name: string): Fs<E, B> {
    match Victim(fs.tree, parentIno, name)
    case None => fs
    case Some(v) => if v in fs.tree.nodes && fs.tree.nodes[v].dir && v in fs.files then FsDelete(fs, v).0 else fs
  }

  function FsLink<E, B>(fs: Fs<E, B>, targetIno: nat, parentIno: nat, name: string, mem: Option<E>): Fs<E, B> {
    var (tree', err) := LinkStep(fs.tree, targetIno, parentIno, name, mem);
    match GetByIno(fs.tree, targetIno)
    case None => fs
    case Some(target) => WithTree(fs, tree', FileOf(fs, target, FileRec(None, 0, 0)))
  }

  function FsStep<E, B>(fs: Fs<E, B>, op: Op<E>): Fs<E, B> {
    match op
    case Unlink(p, n) => FsUnlink(fs, p, n)
    case Rmdir(p, n) => FsRmdir(fs, p, n)
    case Link(t, p, n, m) => FsLink(fs, t, p, n, m)
    case _ => WithTree(fs, Step(fs.tree, op), FileRec(None, 0, 0))
  }

  /** Uninitialised memory: whatever was there, cut or filled to length. */
  function Fit(junk: Bytes, n: nat): (r: Bytes)
    ensures |r| == n
  {
    if |junk| >= n then junk[..n] else junk + Server.Zeros(n - |junk|)
  }

  ghost function Buffer<E, B>(fs: Fs<E, B>, r: FileRec<B>): Bytes {
    match r.data case None => [] case Some(b) => if b in fs.bufs then fs.bufs[b] else []
  }

  /** `vtfs_storage_write`. `mem` is what `krealloc` returned: memory nobody else holds, or the old buffer. */
  ghost function WriteEntry<E, B>(fs: Fs<E, B>, e: E, offset: nat, data: Bytes, mem: Option<B>, junk: Bytes)
    : (Fs<E, B>, Errno)
    requires e in fs.tree.nodes && e in fs.files && LiveRec(fs, fs.files[e])
  {
    var r := fs.files[e];
    var newSize := offset + |data|;
    if fs.tree.nodes[e].dir then (fs, EINVAL)
    else if newSize > MAX_FILE_SIZE then (fs, EFBIG)
    else if newSize > r.capacity then
      if mem.None? || (mem.value in fs.bufs && mem != r.data) then (fs, ENOMEM)
      else
        var capacity' := NewCapacity(r.capacity, newSize);
        var buf := Buffer(fs, r);
        var grown := Regrown(buf, r.size, offset, capacity', Fit(junk, capacity' - |buf|));
        var rest := if r.data.Some? then fs.bufs - {r.data.value} else fs.bufs;
        (Fs(fs.tree, fs.files[e := FileRec(mem, Max(r.size, newSize), capacity')],
            rest[mem.value := Overlaid(grown, offset, data)]), OK)
    else if r.data.None? then (fs, OK)
    else
      (Fs(fs.tree, fs.files[e := r.(size := Max(r.size, newSize))],
          fs.bufs[r.data.value := Overlaid(fs.bufs[r.data.value], offset, data)]), OK)
  }

  /** A write through an inode number, as `vtfs_write` does it. */
  ghost function FsWrite<E, B>(fs: Fs<E, B>, ino: nat, offset: nat, data: Bytes, mem: Option<B>, junk: Bytes)
    : (Fs<E, B>, Errno)
    requires Ok(fs)
  {
    match GetByIno(fs.tree, ino)
    case None => (fs, ENOENT)
    case Some(e) =>
      HeadFacts(fs, ino);
      if fs.tree.nodes[e].dir then (fs, EISDIR) else WriteEntry(fs, e, offset, data, mem, junk)
  }

  /** The file system after `vtfs_storage_init`. */
  function FreshState<E, B>(root: E): Fs<E, B> {
    Fs(FreshStore(root), map[root := FileRec(None, 0, 0)], map[])
  }

  // ---------- Invariant and abstraction ----------

  ghost predicate LiveRec<E, B>(fs: Fs<E, B>, r: FileRec<B>) {
    match r.data
    case None => r.size == 0 && r.capacity == 0
    case Some(b) => b in fs.bufs && |fs.bufs[b]| == r.capacity && r.size <= r.capacity
  }

  /** The fields of the newest name of an inode. */
  ghost function HeadRec<E, B>(fs: Fs<E, B>, ino: nat): FileRec<B> {
    match GetByIno(fs.tree, ino)
    case None => FileRec(None, 0, 0)
    case Some(e) => FileOf(fs, e, FileRec(None, 0, 0))
  }

  /** Older names may be stale: never larger than the newest, and identical to it when equally large. */
  ghost predicate Trails<E, B>(fs: Fs<E, B>, x: E)
    requires x in fs.tree.nodes && x in fs.files
  {
    var h := HeadRec(fs, fs.tree.nodes[x].ino);
    fs.files[x].size <= h.size && (fs.files[x].size == h.size ==> fs.files[x] == h)
  }

  ghost predicate DirsEmpty<E, B>(fs: Fs<E, B>) {
    forall x {:trigger fs.files[x]} ::
      x in fs.tree.nodes && x in fs.files && fs.tree.nodes[x].dir ==> fs.files[x] == FileRec(None, 0, 0)
  }

  ghost predicate Ok<E, B>(fs: Fs<E, B>) {
    && WellFormed(fs.tree)
    && fs.files.Keys == fs.tree.nodes.Keys && DirsEmpty(fs)
    && (forall i {:trigger HeadRec(fs, i)} :: LiveRec(fs, HeadRec(fs, i)))
    && (forall i, j {:trigger HeadRec(fs, i), HeadRec(fs, j)} ::
          i != j && HeadRec(fs, i).data.Some? ==> HeadRec(fs, i).data != HeadRec(fs, j).data)
    && (forall x {:trigger Trails(fs, x)} :: x in fs.tree.nodes ==> Trails(fs, x))
  }

  /** What reading an inode sees. */
  ghost function Content<E, B>(fs: Fs<E, B>, ino: nat): Bytes {
    var r := HeadRec(fs, ino);
    var b := Buffer(fs, r);
    if r.size <= |b| then b[..r.size] else b
  }

  ghost function FileInos<E>(s: Store<E>): set<nat> {
    set x | x in s.nodes && !s.nodes[x].dir :: s.nodes[x].ino
  }

  lemma HeadFacts<E, B>(fs: Fs<E, B>, ino: nat)
    requires Ok(fs)
    ensures var h := GetByIno(fs.tree, ino);
            && LiveRec(fs, HeadRec(fs, ino))
            && (h.Some? ==> h.value in fs.tree.nodes && h.value in fs.files && fs.files[h.value] == HeadRec(fs, ino)
                            && fs.tree.nodes[h.value].ino == ino)
            && |Content(fs, ino)| == HeadRec(fs, ino).size
  {
    GetByInoFacts(fs.tree, ino);
  }

  // ---------- Which entry is the newest name after a step ----------

  lemma {:induction false} FindInoFrame<E>(nodes: map<E, Node<E>>, nodes': map<E, Node<E>>, l: seq<E>, ino: nat)
    requires forall i :: 0 <= i < |l| ==> l[i] in nodes && l[i] in nodes' && nodes'[l[i]].ino == nodes[l[i]].ino
    ensures FindIno(nodes', l, ino) == FindIno(nodes, l, ino)
  {
    if l != [] {
      assert l[0] in nodes;
      assert forall i :: 0 <= i < |l[1..]| ==> l[1..][i] == l[i + 1];
      FindInoFrame(nodes, nodes', l[1..], ino);
    }
  }

  lemma {:induction false} FindInoRemove<E>(nodes: map<E, Node<E>>, nodes': map<E, Node<E>>, l: seq<E>, e: E, ino: nat)
    requires NoDup(l)
    requires forall i :: 0 <= i < |l| ==> l[i] in nodes
    requires forall i :: 0 <= i < |l| && l[i] != e ==> l[i] in nodes' && nodes'[l[i]].ino == nodes[l[i]].ino
    requires FindIno(nodes, l, ino) != Some(e)
    ensures FindIno(nodes', Remove(l, e), ino) == FindIno(nodes, l, ino)
  {
    if l != [] {
      assert l[0] in nodes;
      var t := l[1..];
      assert forall i :: 0 <= i < |t| ==> t[i] == l[i + 1];
      if l[0] == e {
        FindInoFrame(nodes, nodes', t, ino);
      } else if nodes[l[0]].ino == ino {
        assert ([l[0]] + Remove(t, e))[0] == l[0];
      } else {
        FindInoRemove(nodes, nodes', t, e, ino);
        assert ([l[0]] + Remove(t, e))[1..] == Remove(t, e);
      }
    }
  }

  /** A new entry becomes the newest name of its number; all other numbers keep theirs. */
  lemma CreateHead<E>(s: Store<E>, parent: E, name: string, dir: bool, ino: nat, mem: Option<E>, i: nat)
    requires WellFormed(s) && CreateEntry(s, parent, name, dir, ino, mem).1
    ensures var s' := CreateEntry(s, parent, name, dir, ino, mem).0;
            GetByIno(s', i) == if i == (if ino == 0 then s.nextIno else ino) then mem else GetByIno(s, i)
  {
    hide WellFormed, Lookup;
    var s' := CreateEntry(s, parent, name, dir, ino, mem).0;
    var e := mem.value;
    AllLive(s);
    assert s'.all == [e] + s.all && s'.all[1..] == s.all;
    assert forall x :: x in s.nodes ==> x in s'.nodes && s'.nodes[x].ino == s.nodes[x].ino;
    FindInoFrame(s.nodes, s'.nodes, s.all, i);
  }

  lemma AllLive<E>(s: Store<E>)
    requires WellFormed(s)
    ensures forall k :: 0 <= k < |s.all| ==> s.all[k] in s.nodes
  {
    forall k | 0 <= k < |s.all| ensures s.all[k] in s.nodes {
      assert s.all[k] in s.all;
    }
  }

  /** Deleting an entry that is not the newest name of a number leaves that number's newest name alone. */
  lemma DeleteHead<E>(s: Store<E>, e: E, i: nat)
    requires WellFormed(s) && e in s.nodes && DeleteEntry(s, e).1 == OK && GetByIno(s, i) != Some(e)
    ensures GetByIno(DeleteEntry(s, e).0, i) == GetByIno(s, i)
  {
    var s' := DeleteEntry(s, e).0;
    AllLive(s);
    FindInoRemove(s.nodes, s'.nodes, s.all, e, i);
  }

  lemma SameInosHead<E>(s: Store<E>, s': Store<E>, i: nat)
    requires WellFormed(s) && s'.all == s.all && s'.nodes.Keys == s.nodes.Keys && Kept(s, s')
    ensures GetByIno(s', i) == GetByIno(s, i)
  {
    forall k | 0 <= k < |s.all| ensures s.all[k] in s.nodes && s'.nodes[s.all[k]].ino == s.nodes[s.all[k]].ino {
      assert s.all[k] in s.all;
    }
    FindInoFrame(s.nodes, s'.nodes, s.all, i);
  }

  // ---------- Every step keeps the invariant ----------

  /** If every newest name keeps its fields and its live buffer (or its inode is gone), all is well. */
  lemma HeadsKept<E, B>(fs: Fs<E, B>, fs': Fs<E, B>)
    requires Ok(fs) && WellFormed(fs'.tree) && fs'.files.Keys == fs'.tree.nodes.Keys && DirsEmpty(fs')
    requires forall i {:trigger HeadRec(fs', i)} ::
               HeadRec(fs', i) == HeadRec(fs, i) || HeadRec(fs', i) == FileRec(None, 0, 0)
    requires forall i {:trigger HeadRec(fs', i)} :: HeadRec(fs', i).data.Some? ==>
               var b := HeadRec(fs', i).data.value; b in fs.bufs && b in fs'.bufs && fs'.bufs[b] == fs.bufs[b]
    requires forall x {:trigger Trails(fs', x)} :: x in fs'.tree.nodes ==> Trails(fs', x)
    ensures Ok(fs')
    ensures forall i {:trigger Content(fs', i)} ::
              Content(fs', i) == if HeadRec(fs', i) == HeadRec(fs, i) then Content(fs, i) else []
  {
    hide WellFormed;
    forall i {:trigger HeadRec(fs', i)} ensures LiveRec(fs', HeadRec(fs', i)) {
      assert LiveRec(fs, HeadRec(fs, i));
    }
    forall i, j {:trigger HeadRec(fs', i), HeadRec(fs', j)} | i != j && HeadRec(fs', i).data.Some?
      ensures HeadRec(fs', i).data != HeadRec(fs', j).data
    {
      assert HeadRec(fs, i).data.Some?;
    }
  }

  /** What the newest names' records and the buffers go through in a step without a write: a number that is gone
      takes its buffer with it, and all else stays. */
  ghost predicate HeadStep<E, B>(fs: Fs<E, B>, fs': Fs<E, B>) {
    && (forall i {:trigger HeadRec(fs', i)} :: HeadRec(fs', i) == HeadRec(fs, i) || GetByIno(fs'.tree, i).None?)
    && (forall i {:trigger HeadRec(fs', i)} :: HeadRec(fs', i) != HeadRec(fs, i) && HeadRec(fs, i).data.Some? ==>
          HeadRec(fs, i).data.value !in fs'.bufs)
    && (forall b :: b in fs'.bufs ==> b in fs.bufs)
  }

  /** At most one new entry, under a number that nothing used. */
  ghost predicate NewHeads<E>(s: Store<E>, s': Store<E>) {
    && Kept(s, s') && s.nodes.Keys <= s'.nodes.Keys
    && (forall x {:trigger s'.nodes[x].ino} :: x in s'.nodes && x !in s.nodes ==> GetByIno(s', s'.nodes[x].ino) == Some(x))
    && (forall i {:trigger GetByIno(s', i)} ::
          GetByIno(s', i) == GetByIno(s, i) ||
          (GetByIno(s, i).None? && GetByIno(s', i).Some?
           && GetByIno(s', i).value in s'.nodes && GetByIno(s', i).value !in s.nodes))
  }

  ghost predicate SameContents<E, B>(fs: Fs<E, B>, fs': Fs<E, B>) {
    forall i {:trigger Content(fs', i)} :: Content(fs', i) == Content(fs, i)
  }

  lemma MadeOk<E, B>(fs: Fs<E, B>, tree': Store<E>)
    requires Ok(fs) && WellFormed(tree') && NewHeads(fs.tree, tree')
    ensures var fs' := WithTree(fs, tree', FileRec(None, 0, 0)); Ok(fs') && SameContents(fs, fs') && HeadStep(fs, fs')
  {
    hide WellFormed;
    var fs' := WithTree(fs, tree', FileRec(None, 0, 0));
    forall i {:trigger HeadRec(fs', i)} ensures HeadRec(fs', i) == HeadRec(fs, i) && LiveRec(fs, HeadRec(fs, i)) {
      HeadFacts(fs, i);
      assert GetByIno(tree', i) == GetByIno(fs.tree, i) || GetByIno(fs.tree, i).None?;
    }
    forall x {:trigger Trails(fs', x)} | x in fs'.tree.nodes ensures Trails(fs', x) {
      assert HeadRec(fs', tree'.nodes[x].ino) == HeadRec(fs, tree'.nodes[x].ino);
      if x in fs.tree.nodes { assert Trails(fs, x); }
    }
    HeadsKept(fs, fs');
  }

  lemma CreatedHeads<E>(s: Store<E>, parent: E, name: string, dir: bool, mem: Option<E>)
    requires WellFormed(s) && IsName(name)
    ensures NewHeads(s, CreateEntry(s, parent, name, dir, 0, mem).0)
    ensures WellFormed(CreateEntry(s, parent, name, dir, 0, mem).0)
  {
    hide WellFormed;
    var (s', ok) := CreateEntry(s, parent, name, dir, 0, mem);
    CreateWellFormed(s, parent, name, dir, 0, mem);
    if ok {
      CreateListed(s, parent, name, dir, 0, mem);
      assert GetByIno(s, s.nextIno).None? by { GetByInoFacts(s, s.nextIno); NumbersBelow(s); }
      forall i {:trigger GetByIno(s', i)} ensures GetByIno(s', i) == if i == s.nextIno then mem else GetByIno(s, i) {
        CreateHead(s, parent, name, dir, 0, mem, i);
      }
    }
  }

  lemma NumbersBelow<E>(s: Store<E>)
    requires WellFormed(s)
    ensures forall x {:trigger s.nodes[x].ino} :: x in s.nodes ==> s.nodes[x].ino < s.nextIno
  {
  }

  lemma SetNlinkHeads<E>(s: Store<E>, s1: Store<E>, e: E, k: int)
    requires WellFormed(s) && WellFormed(s1) && e in s1.nodes && NewHeads(s, s1)
    ensures NewHeads(s, SetNlink(s1, e, k)) && WellFormed(SetNlink(s1, e, k))
  {
    hide WellFormed;
    var s2 := SetNlink(s1, e, k);
    SetNlinkWellFormed(s1, e, k);
    assert Kept(s1, s2);
    forall i {:trigger GetByIno(s2, i)} ensures GetByIno(s2, i) == GetByIno(s1, i) {
      SameInosHead(s1, s2, i);
    }
    assert forall x {:trigger Up(s2, x)} :: x in s1.nodes ==> Up(s2, x) == Up(s1, x);
  }

  /** Create, mkdir (with their rollbacks) and a lookup's fetch change no content. */
  lemma MakeOk<E, B>(fs: Fs<E, B>, op: Op<E>)
    requires Ok(fs) && NamesValid(op) && (op.Lookup_? || op.Create? || op.Mkdir?)
    ensures Ok(FsStep(fs, op)) && SameContents(fs, FsStep(fs, op)) && HeadStep(fs, FsStep(fs, op))
  {
    hide WellFormed;
    StepWellFormed(fs.tree, op);
    StepHeads(fs.tree, op);
    MadeOk(fs, Step(fs.tree, op));
  }

  lemma StepHeads<E>(s: Store<E>, op: Op<E>)
    requires WellFormed(s) && NamesValid(op) && (op.Lookup_? || op.Create? || op.Mkdir?)
    ensures NewHeads(s, Step(s, op))
  {
    hide WellFormed, GetByIno, CreateEntry, DeleteEntry, SetNlink;
    SameNewHeads(s);
    Undo.RollbackRestores(s, op.parentIno, op.name, op.mem);
    if GetByIno(s, op.parentIno).Some? {
      var parent := GetByIno(s, op.parentIno).value;
      match op
      case Lookup_(p, n, m, r) => if r.Some? { CreatedHeads(s, parent, n, r.value, m); }
      case Create(p, n, m, i) => CreatedHeads(s, parent, n, false, m);
      case Mkdir(p, n, m, i) => MkdirHeads(s, parent, n, m);
    }
  }

  lemma SameNewHeads<E>(s: Store<E>)
    ensures NewHeads(s, s) && forall n: nat {:trigger s.(nextIno := n)} :: NewHeads(s, s.(nextIno := n))
  {
    forall n: nat {:trigger s.(nextIno := n)} ensures NewHeads(s, s.(nextIno := n)) {
      var s' := s.(nextIno := n);
      assert forall x {:trigger Up(s', x)} :: x in s.nodes ==> Up(s', x) == Up(s, x);
      forall i ensures GetByIno(s', i) == GetByIno(s, i) {
      }
    }
  }

  lemma MkdirHeads<E>(s: Store<E>, parent: E, n: string, m: Option<E>)
    requires WellFormed(s) && IsName(n)
    ensures var (s1, ok) := CreateEntry(s, parent, n, true, 0, m);
            NewHeads(s, if ok then SetNlink(s1, m.value, 2) else s1)
  {
    hide WellFormed;
    CreatedHeads(s, parent, n, true, m);
    var (s1, ok) := CreateEntry(s, parent, n, true, 0, m);
    if ok { SetNlinkHeads(s, s1, m.value, 2); }
  }

  /** A new name copies the newest name's fields, so the inode's content stays. */
  lemma LinkOk<E, B>(fs: Fs<E, B>, t: nat, p: nat, n: string, mem: Option<E>)
    requires Ok(fs) && IsName(n)
    ensures var fs' := FsLink(fs, t, p, n, mem); Ok(fs') && SameContents(fs, fs') && HeadStep(fs, fs')
  {
    hide WellFormed, GetByIno, LinkStep, Content;
    var fs' := FsLink(fs, t, p, n, mem);
    HeadFacts(fs, t);
    LinkStepWellFormed(fs.tree, t, p, n, mem);
    LinkHeads(fs.tree, t, p, n, mem);
    forall i {:trigger HeadRec(fs', i)} ensures HeadRec(fs', i) == HeadRec(fs, i) && LiveRec(fs, HeadRec(fs, i)) {
      HeadFacts(fs, i);
    }
    forall x {:trigger Trails(fs', x)} | x in fs'.tree.nodes ensures Trails(fs', x) {
      assert HeadRec(fs', fs'.tree.nodes[x].ino) == HeadRec(fs, fs'.tree.nodes[x].ino);
      if x in fs.tree.nodes { assert Trails(fs, x); }
    }
    HeadsKept(fs, fs');
  }

  lemma LinkHeads<E>(s: Store<E>, t: nat, p: nat, n: string, mem: Option<E>)
    requires WellFormed(s) && IsName(n)
    ensures var (s', err) := LinkStep(s, t, p, n, mem);
            && Kept(s, s')
            && (err != OK ==> s'.nodes == s.nodes)
            && (err == OK ==> mem.Some? && mem.value !in s.nodes && s'.nodes.Keys == s.nodes.Keys + {mem.value}
                              && s'.nodes[mem.value].ino == t && !s'.nodes[mem.value].dir)
            && (forall i {:trigger GetByIno(s', i)} ::
                  GetByIno(s', i) == if err == OK && i == t then mem else GetByIno(s, i))
  {
    hide WellFormed;
    GetByInoFacts(s, t);
    GetByInoFacts(s, p);
    var (s', err) := LinkStep(s, t, p, n, mem);
    assert Kept(s, s.(nextIno := s'.nextIno));
    if err == OK {
      LinkedHeads(s, GetByIno(s, t).value, GetByIno(s, p).value, n, mem);
    }
  }

  lemma LinkedHeads<E>(s: Store<E>, target: E, parent: E, n: string, mem: Option<E>)
    requires WellFormed(s) && IsName(n) && target in s.nodes && !s.nodes[target].dir
    requires CreateEntry(s, parent, n, false, s.nodes[target].ino, mem).1
    ensures var t := s.nodes[target].ino;
            var s' := AddLink(CreateEntry(s, parent, n, false, t, mem).0, target).0;
            && Kept(s, s') && s'.nodes.Keys == s.nodes.Keys + {mem.value} && s'.nodes[mem.value].ino == t
            && !s'.nodes[mem.value].dir
            && forall i {:trigger GetByIno(s', i)} :: GetByIno(s', i) == if i == t then mem else GetByIno(s, i)
  {
    hide WellFormed;
    var t := s.nodes[target].ino;
    var s1 := CreateEntry(s, parent, n, false, t, mem).0;
    var s' := AddLink(s1, target).0;
    TargetNumber(s, target);
    CreateWellFormed(s, parent, n, false, t, mem);
    CreateListed(s, parent, n, false, t, mem);
    AddLinkKept(s1, target);
    forall x {:trigger Up(s', x)} | x in s.nodes ensures Up(s', x) == Up(s, x) {
      assert Up(s', x) == Up(s1, x);
    }
    forall i {:trigger GetByIno(s', i)} ensures GetByIno(s', i) == if i == t then mem else GetByIno(s, i) {
      CreateHead(s, parent, n, false, t, mem, i);
      SameInosHead(s1, s', i);
    }
  }

  lemma TargetNumber<E>(s: Store<E>, target: E)
    requires WellFormed(s) && target in s.nodes && !s.nodes[target].dir
    ensures var i := s.nodes[target].ino;
            i != 0 && ROOT_INO <= i < s.nextIno && forall x :: x in s.nodes && s.nodes[x].ino == i ==> !s.nodes[x].dir
  {
  }

  // ---------- Deletion ----------

  lemma DeletedHeads<E>(s: Store<E>, v: E)
    requires WellFormed(s) && v in s.nodes && DeleteEntry(s, v).1 == OK
    ensures var s' := DeleteEntry(s, v).0;
            && WellFormed(s') && Kept(s, s') && s'.nodes.Keys == s.nodes.Keys - {v}
            && (forall i {:trigger GetByIno(s', i)} :: GetByIno(s, i) != Some(v) ==> GetByIno(s', i) == GetByIno(s, i))
            && (forall i {:trigger GetByIno(s', i)} :: GetByIno(s', i).Some? ==>
                  GetByIno(s', i).value in s'.nodes && s'.nodes[GetByIno(s', i).value].ino == i)
            && (forall x {:trigger s'.nodes[x].ino} :: x in s'.nodes ==> GetByIno(s', s'.nodes[x].ino).Some?)
  {
    var s' := DeleteEntry(s, v).0;
    DeleteWellFormed(s, v);
    if s.nodes[v].children != [] { ParentsAreDirectories(s, v); }
    DeleteLinked(s, v);
    hide WellFormed;
    forall i {:trigger GetByIno(s', i)}
      ensures GetByIno(s, i) != Some(v) ==> GetByIno(s', i) == GetByIno(s, i)
      ensures GetByIno(s', i).Some? ==> GetByIno(s', i).value in s'.nodes && s'.nodes[GetByIno(s', i).value].ino == i
    {
      if GetByIno(s, i) != Some(v) { DeleteHead(s, v, i); }
      GetByInoFacts(s', i);
    }
    forall x {:trigger s'.nodes[x].ino} | x in s'.nodes ensures GetByIno(s', s'.nodes[x].ino).Some? {
      GetByInoFacts(s', s'.nodes[x].ino);
    }
  }

  /** The entry whose fields speak for the inode of `v` once `v` is gone. */
  ghost function NextName<E, B>(fs: Fs<E, B>, v: E): Option<E>
    requires v in fs.tree.nodes
  {
    GetByIno(DeleteEntry(fs.tree, v).0, fs.tree.nodes[v].ino)
  }

  /** The guard on losing a name: it is not the newest, or it is the last, or no write has extended the file
      since it was linked, so that the next name still records the same size. */
  ghost predicate SafeToLose<E, B>(fs: Fs<E, B>, v: E)
    requires v in fs.tree.nodes && v in fs.files
  {
    && GetByIno(fs.tree, fs.tree.nodes[v].ino) == Some(v)
    && NextName(fs, v).Some? && NextName(fs, v).value in fs.files
    ==> fs.files[NextName(fs, v).value].size == fs.files[v].size
  }

  ghost predicate LastName<E, B>(fs: Fs<E, B>, v: E)
    requires v in fs.tree.nodes
  {
    NextName(fs, v).None?
  }

  lemma DeleteOk<E, B>(fs: Fs<E, B>, v: E)
    requires Ok(fs) && v in fs.tree.nodes && DeleteEntry(fs.tree, v).1 == OK && SafeToLose(fs, v)
    ensures var fs' := FsDelete(fs, v).0;
            && Ok(fs') && HeadStep(fs, fs')
            && forall i {:trigger Content(fs', i)} ::
                 Content(fs', i) == if LastName(fs, v) && i == fs.tree.nodes[v].ino then [] else Content(fs, i)
  {
    hide WellFormed, GetByIno, DeleteEntry, Content, NextName, LastName;
    var fs' := FsDelete(fs, v).0;
    DeletedRecs(fs, v);
    DeletedHeads(fs.tree, v);
    forall i {:trigger HeadRec(fs', i)} | HeadRec(fs', i).data.Some?
      ensures var b := HeadRec(fs', i).data.value; b in fs.bufs && b in fs'.bufs && fs'.bufs[b] == fs.bufs[b]
    {
      DeletedBuffers(fs, v, i);
    }
    forall x {:trigger Trails(fs', x)} | x in fs'.tree.nodes ensures Trails(fs', x) {
      assert Trails(fs, x);
      assert GetByIno(fs'.tree, fs'.tree.nodes[x].ino).Some?;
    }
    HeadsKept(fs, fs');
    if LastName(fs, v) && HeadRec(fs, fs.tree.nodes[v].ino) == FileRec(None, 0, 0) { HeadFacts(fs, fs.tree.nodes[v].ino); }
  }

  /** The record of the inode that loses its last name goes; all others stay. */
  lemma DeletedRecs<E, B>(fs: Fs<E, B>, v: E)
    requires Ok(fs) && v in fs.tree.nodes && DeleteEntry(fs.tree, v).1 == OK && SafeToLose(fs, v)
    ensures var fs' := FsDelete(fs, v).0;
            var ino := fs.tree.nodes[v].ino;
            && (LastName(fs, v) <==> GetByIno(fs'.tree, ino).None?)
            && (LastName(fs, v) ==> HeadRec(fs, ino) == fs.files[v])
            && (forall i {:trigger HeadRec(fs', i)} ::
                  HeadRec(fs', i) == if i == ino && LastName(fs, v) then FileRec(None, 0, 0) else HeadRec(fs, i))
            && (forall i {:trigger HeadRec(fs, i)} :: LiveRec(fs, HeadRec(fs, i)))
  {
    hide WellFormed, GetByIno, DeleteEntry;
    var fs' := FsDelete(fs, v).0;
    var ino := fs.tree.nodes[v].ino;
    DeletedHeads(fs.tree, v);
    VictimHasHead(fs.tree, v);
    HeadFacts(fs, ino);
    if GetByIno(fs.tree, ino) == Some(v) && NextName(fs, v).Some? {
      assert Trails(fs, NextName(fs, v).value);
      assert HeadRec(fs', ino) == HeadRec(fs, ino);
    }
    forall i {:trigger HeadRec(fs', i)}
      ensures HeadRec(fs', i) == if i == ino && LastName(fs, v) then FileRec(None, 0, 0) else HeadRec(fs, i)
    {
      HeadFacts(fs, i);
    }
  }

  lemma DeletedBuffers<E, B>(fs: Fs<E, B>, v: E, i: nat)
    requires Ok(fs) && v in fs.tree.nodes && DeleteEntry(fs.tree, v).1 == OK && SafeToLose(fs, v)
    requires HeadRec(FsDelete(fs, v).0, i).data.Some?
    ensures var fs' := FsDelete(fs, v).0;
            var b := HeadRec(fs', i).data.value; b in fs.bufs && b in fs'.bufs && fs'.bufs[b] == fs.bufs[b]
  {
    hide WellFormed, GetByIno, DeleteEntry;
    DeletedRecs(fs, v);
    assert LiveRec(fs, HeadRec(fs, i));
    assert LastName(fs, v) ==> HeadRec(fs, fs.tree.nodes[v].ino) == fs.files[v];
  }

  lemma VictimHasHead<E>(s: Store<E>, v: E)
    requires WellFormed(s) && v in s.nodes
    ensures GetByIno(s, s.nodes[v].ino).Some?
  {
    GetByInoFacts(s, s.nodes[v].ino);
  }

  /** Losing the newest of several names keeps the content and leaves it in live memory exactly when the next
      name records the same size, that is, when no write has extended the file since the link. */
  lemma LosingNewestName<E, B>(fs: Fs<E, B>, v: E)
    requires Ok(fs) && v in fs.tree.nodes && DeleteEntry(fs.tree, v).1 == OK
    requires GetByIno(fs.tree, fs.tree.nodes[v].ino) == Some(v) && NextName(fs, v).Some?
    ensures NextName(fs, v).value in fs.files
    ensures var fs' := FsDelete(fs, v).0;
            var ino := fs.tree.nodes[v].ino;
            LiveRec(fs', HeadRec(fs', ino)) && Content(fs', ino) == Content(fs, ino) <==>
            fs.files[NextName(fs, v).value].size == fs.files[v].size
  {
    hide WellFormed;
    var fs' := FsDelete(fs, v).0;
    var ino := fs.tree.nodes[v].ino;
    DeletedHeads(fs.tree, v);
    HeadFacts(fs, ino);
    if fs.files[NextName(fs, v).value].size == fs.files[v].size {
      DeleteOk(fs, v);
      assert LiveRec(fs', HeadRec(fs', ino));
    } else if LiveRec(fs', HeadRec(fs', ino)) {
      assert |Content(fs', ino)| == fs.files[NextName(fs, v).value].size;
    }
  }

  // ---------- Writes ----------

  /** The bytes a write leaves between the old end and its offset: zeros if the buffer grew, else whatever
      the buffer held there. */
  ghost function GapBytes<E, B>(fs: Fs<E, B>, ino: nat, offset: nat, len: nat): (gap: Bytes)
    requires Ok(fs)
    ensures offset + len <= MAX_FILE_SIZE ==> |gap| == Max(0, offset - |Content(fs, ino)|)
  {
    HeadFacts(fs, ino);
    var r := HeadRec(fs, ino);
    if offset <= r.size then []
    else if offset + len > r.capacity then Server.Zeros(offset - r.size)
    else Buffer(fs, r)[r.size..offset]
  }

  lemma WrittenHeads<E, B>(fs: Fs<E, B>, ino: nat, offset: nat, data: Bytes, mem: Option<B>, junk: Bytes)
    requires Ok(fs)
    ensures var fs' := FsWrite(fs, ino, offset, data, mem, junk).0;
            && fs'.tree == fs.tree && fs'.files.Keys == fs.files.Keys && DirsEmpty(fs')
            && forall i {:trigger HeadRec(fs', i)} :: i != ino ==> HeadRec(fs', i) == HeadRec(fs, i)
  {
    hide WellFormed, Ok, LiveRec, Regrown, Overlaid, Fit, NewCapacity;
    OkParts(fs);
    var fs' := FsWrite(fs, ino, offset, data, mem, junk).0;
    HeadFacts(fs, ino);
    forall i {:trigger HeadRec(fs', i)} | i != ino ensures HeadRec(fs', i) == HeadRec(fs, i) {
      HeadFacts(fs, i);
    }
  }

  lemma OkParts<E, B>(fs: Fs<E, B>)
    requires Ok(fs)
    ensures WellFormed(fs.tree) && fs.files.Keys == fs.tree.nodes.Keys && DirsEmpty(fs)
  {
    hide WellFormed, DirsEmpty;
  }

  /** Buffers of different inodes never overlap, so a write or a move touches one inode only. */
  lemma WrittenBuffers<E, B>(fs: Fs<E, B>, ino: nat, offset: nat, data: Bytes, mem: Option<B>, junk: Bytes, i: nat)
    requires Ok(fs) && i != ino
    ensures var fs' := FsWrite(fs, ino, offset, data, mem, junk).0;
            && HeadRec(fs', i) == HeadRec(fs, i)
            && LiveRec(fs', HeadRec(fs', i)) && Content(fs', i) == Content(fs, i)
            && (HeadRec(fs', i).data.Some? ==> HeadRec(fs', i).data != HeadRec(fs', ino).data)
  {
    hide WellFormed;
    var fs' := FsWrite(fs, ino, offset, data, mem, junk).0;
    WrittenHeads(fs, ino, offset, data, mem, junk);
    HeadFacts(fs, i);
    HeadFacts(fs, ino);
    assert HeadRec(fs', i) == HeadRec(fs, i);
    assert HeadRec(fs, i).data.Some? ==> HeadRec(fs, i).data != HeadRec(fs, ino).data;
  }

  ghost predicate Grows<E, B>(fs: Fs<E, B>, ino: nat, offset: nat, data: Bytes) {
    offset + |data| > HeadRec(fs, ino).capacity
  }

  lemma MovedContent<E, B>(fs: Fs<E, B>, ino: nat, offset: nat, data: Bytes, mem: Option<B>, junk: Bytes)
    requires Ok(fs) && FsWrite(fs, ino, offset, data, mem, junk).1 == OK && Grows(fs, ino, offset, data)
    ensures var fs' := FsWrite(fs, ino, offset, data, mem, junk).0;
            && LiveRec(fs', HeadRec(fs', ino)) && HeadRec(fs, ino).size < HeadRec(fs', ino).size
            && Content(fs', ino) == Splice(Content(fs, ino), offset, data)
  {
    hide WellFormed, Ok, GetByIno, Regrown, Overlaid, Splice, Fit;
    var fs' := FsWrite(fs, ino, offset, data, mem, junk).0;
    HeadFacts(fs, ino);
    var r := HeadRec(fs, ino);
    var buf := Buffer(fs, r);
    var capacity' := NewCapacity(r.capacity, offset + |data|);
    GrownIsSplice(buf, r.size, offset, data, Fit(junk, capacity' - |buf|));
    var grown := Regrown(buf, r.size, offset, capacity', Fit(junk, capacity' - |buf|));
    assert HeadRec(fs', ino) == FileRec(mem, offset + |data|, capacity');
    assert Buffer(fs', HeadRec(fs', ino)) == Overlaid(grown, offset, data);
  }

  lemma InPlaceContent<E, B>(fs: Fs<E, B>, ino: nat, offset: nat, data: Bytes, mem: Option<B>, junk: Bytes)
    requires Ok(fs) && FsWrite(fs, ino, offset, data, mem, junk).1 == OK && !Grows(fs, ino, offset, data)
    ensures var fs' := FsWrite(fs, ino, offset, data, mem, junk).0;
            && LiveRec(fs', HeadRec(fs', ino))
            && HeadRec(fs', ino) == HeadRec(fs, ino).(size := Max(HeadRec(fs, ino).size, offset + |data|))
            && Content(fs', ino) == GapSplice(Content(fs, ino), GapBytes(fs, ino, offset, |data|), offset, data)
  {
    hide WellFormed;
    var fs' := FsWrite(fs, ino, offset, data, mem, junk).0;
    HeadFacts(fs, ino);
    var r := HeadRec(fs, ino);
    if r.data.Some? {
      OverlaidIsGapSplice(fs.bufs[r.data.value], r.size, offset, data);
      assert Buffer(fs', HeadRec(fs', ino)) == Overlaid(fs.bufs[r.data.value], offset, data);
    }
  }

  lemma WrittenContent<E, B>(fs: Fs<E, B>, ino: nat, offset: nat, data: Bytes, mem: Option<B>, junk: Bytes)
    requires Ok(fs) && FsWrite(fs, ino, offset, data, mem, junk).1 == OK
    ensures var fs' := FsWrite(fs, ino, offset, data, mem, junk).0;
            && LiveRec(fs', HeadRec(fs', ino)) && HeadRec(fs, ino).size <= HeadRec(fs', ino).size
            && (HeadRec(fs', ino).size == HeadRec(fs, ino).size ==> HeadRec(fs', ino) == HeadRec(fs, ino))
            && Content(fs', ino) == GapSplice(Content(fs, ino), GapBytes(fs, ino, offset, |data|), offset, data)
  {
    hide WellFormed, FsWrite, GapSplice;
    if Grows(fs, ino, offset, data) {
      MovedContent(fs, ino, offset, data, mem, junk);
      HeadFacts(fs, ino);
      assert GapBytes(fs, ino, offset, |data|) == Server.Zeros(Max(0, offset - |Content(fs, ino)|));
    } else {
      InPlaceContent(fs, ino, offset, data, mem, junk);
    }
  }

  lemma WrittenTrails<E, B>(fs: Fs<E, B>, ino: nat, offset: nat, data: Bytes, mem: Option<B>, junk: Bytes, x: E)
    requires Ok(fs) && x in fs.tree.nodes && FsWrite(fs, ino, offset, data, mem, junk).1 == OK
    ensures var fs' := FsWrite(fs, ino, offset, data, mem, junk).0;
            x in fs'.files && x in fs'.tree.nodes && Trails(fs', x)
  {
    hide WellFormed;
    WrittenHeads(fs, ino, offset, data, mem, junk);
    WrittenContent(fs, ino, offset, data, mem, junk);
    assert Trails(fs, x);
    HeadFacts(fs, ino);
  }

  lemma UnwrittenSame<E, B>(fs: Fs<E, B>, ino: nat, offset: nat, data: Bytes, mem: Option<B>, junk: Bytes)
    requires Ok(fs)
    ensures FsWrite(fs, ino, offset, data, mem, junk).1 != OK ==> FsWrite(fs, ino, offset, data, mem, junk).0 == fs
    ensures FsWrite(fs, ino, offset, data, mem, junk).1 == OK ==>
              offset + |data| <= MAX_FILE_SIZE && GetByIno(fs.tree, ino).Some?
              && GetByIno(fs.tree, ino).value in fs.tree.nodes && !fs.tree.nodes[GetByIno(fs.tree, ino).value].dir
  {
    HeadFacts(fs, ino);
  }

  /** A successful write splices the inode's bytes and changes nothing else. */
  lemma WriteOk<E, B>(fs: Fs<E, B>, ino: nat, offset: nat, data: Bytes, mem: Option<B>, junk: Bytes)
    requires Ok(fs)
    ensures var (fs', err) := FsWrite(fs, ino, offset, data, mem, junk);
            && Ok(fs') && (err != OK ==> fs' == fs)
            && (forall i {:trigger Content(fs', i)} :: i != ino ==> Content(fs', i) == Content(fs, i))
            && (err == OK ==>
                  Content(fs', ino) == GapSplice(Content(fs, ino), GapBytes(fs, ino, offset, |data|), offset, data))
  {
    UnwrittenSame(fs, ino, offset, data, mem, junk);
    hide WellFormed, FsWrite, GapSplice;
    var (fs', err) := FsWrite(fs, ino, offset, data, mem, junk);
    if err == OK {
      WrittenHeads(fs, ino, offset, data, mem, junk);
      WrittenContent(fs, ino, offset, data, mem, junk);
      forall i {:trigger HeadRec(fs', i)} ensures LiveRec(fs', HeadRec(fs', i)) {
        if i != ino { WrittenBuffers(fs, ino, offset, data, mem, junk, i); }
      }
      forall i {:trigger Content(fs', i)} | i != ino ensures Content(fs', i) == Content(fs, i) {
        WrittenBuffers(fs, ino, offset, data, mem, junk, i);
      }
      forall i, j {:trigger HeadRec(fs', i), HeadRec(fs', j)} | i != j && HeadRec(fs', i).data.Some?
        ensures HeadRec(fs', i).data != HeadRec(fs', j).data
      {
        if i != ino { WrittenBuffers(fs, ino, offset, data, mem, junk, i); }
        if j != ino { WrittenBuffers(fs, ino, offset, data, mem, junk, j); }
      }
      forall x {:trigger Trails(fs', x)} | x in fs'.tree.nodes ensures Trails(fs', x) {
        WrittenTrails(fs, ino, offset, data, mem, junk, x);
      }
    }
  }

  lemma FileHead<E>(s: Store<E>, i: nat)
    requires WellFormed(s) && i in FileInos(s)
    ensures GetByIno(s, i).Some?
    ensures GetByIno(s, i).value in s.nodes && s.nodes[GetByIno(s, i).value].ino == i && !s.nodes[GetByIno(s, i).value].dir
  {
    var x :| x in s.nodes && !s.nodes[x].dir && s.nodes[x].ino == i;
    GetByInoFacts(s, i);
  }

  /** Growth, if the write needs it, finds memory. */
  ghost predicate HasMemory<E, B>(fs: Fs<E, B>, ino: nat, offset: nat, data: Bytes, mem: Option<B>) {
    Grows(fs, ino, offset, data) ==> mem.Some? && (mem.value in fs.bufs ==> mem == HeadRec(fs, ino).data)
  }

  /** A write goes through exactly when the file exists, the end is in range and growth finds memory. */
  lemma WriteSucceeds<E, B>(fs: Fs<E, B>, ino: nat, offset: nat, data: Bytes, mem: Option<B>, junk: Bytes)
    requires Ok(fs)
    ensures FsWrite(fs, ino, offset, data, mem, junk).1 == OK <==>
            ino in FileInos(fs.tree) && offset + |data| <= MAX_FILE_SIZE && HasMemory(fs, ino, offset, data, mem)
  {
    hide WellFormed;
    HeadFacts(fs, ino);
    var h := GetByIno(fs.tree, ino);
    if ino in FileInos(fs.tree) { FileHead(fs.tree, ino); }
    if h.Some? && !fs.tree.nodes[h.value].dir { assert ino in FileInos(fs.tree); }
  }

  lemma FreshIsOk<E, B>(root: E)
    ensures Ok(FreshState<E, B>(root))
  {
    FreshIsWellFormed(root);
  }
}
