/** Kernel tree and server table as one two-party machine; every sync is delivered before the call returns. */
module Sync {
  import opened Lists
  import opened Paths
  import opened Tree
  import opened TreePaths
  import FileData
  import Server
  import Undo

  datatype Sys<E> = Sys(tree: Store<E>, table: Server.Table)

  /** System calls that reach both sides. `back` is what the server decodes of the fetched content that a lookup
      pushes back, `first` and `second` what it decodes of a write's two pushes: the query parameter may cut them. */
  datatype Call<E> =
    | LookupCall(parentIno: nat, name: string, mem: Option<E>, back: Option<Bytes>)
    | CreateCall(parentIno: nat, name: string, mem: Option<E>, inodeOk: bool)
    | MkdirCall(parentIno: nat, name: string, mem: Option<E>, inodeOk: bool)
    | UnlinkCall(parentIno: nat, name: string)
    | RmdirCall(parentIno: nat, name: string)
    | WriteCall(ino: nat, offset: nat, len: nat, first: Option<Bytes>, second: Option<Bytes>)

  ghost predicate NameValid<E>(c: Call<E>) {
    (c.LookupCall? || c.CreateCall? || c.MkdirCall?) ==> IsName(c.name)
  }

  function TypeName(dir: bool): string {
    if dir then "dir" else "file"
  }

  ghost function RemoteType(t: Server.Table, path: string): Option<bool> {
    match Server.Stat(t, path)
    case Success(ty) => Some(ty == Server.DIR)
    case Error(_) => None
  }

  /** A pushed write, if anything of it can be decoded. */
  ghost function Deliver(t: Server.Table, path: string, offset: nat, data: Option<Bytes>): Server.Table {
    match data case None => t case Some(d) => Server.WriteRow(t, path, offset, d).0
  }

  /** `vtfs_lookup`: a local miss is answered by stat; a fetched file's content is written back at offset 0. */
  ghost function Look<E>(s: Sys<E>, parentIno: nat, name: string, mem: Option<E>, back: Option<Bytes>): Sys<E>
    requires WellFormed(s.tree)
  {
    match GetByIno(s.tree, parentIno)
    case None => s
    case Some(parent) =>
      if parent !in s.tree.nodes || Lookup(s.tree, parent, name).Some? then s
      else
        var path := FetchPath(s.tree, parent, name);
        var remote := RemoteType(s.table, path);
        if remote.None? then s
        else
          var (tree', ok) := CreateEntry(s.tree, parent, name, remote.value, 0, mem);
          Sys(tree', if ok && !remote.value then Deliver(s.table, path, 0, back) else s.table)
  }

  /** The tree that create and mkdir leave when the entry could be made. */
  ghost function MadeTree<E>(s: Store<E>, parent: E, n: string, dir: bool, m: Option<E>, inodeOk: bool): Store<E>
    requires CreateEntry(s, parent, n, dir, 0, m).1
  {
    var s1 := CreateEntry(s, parent, n, dir, 0, m).0;
    var s2 := if dir then SetNlink(s1, m.value, 2) else s1;
    if inodeOk || m.value !in s2.nodes then s2 else DeleteEntry(s2, m.value).0
  }

  /** `vtfs_create` and `vtfs_mkdir`, with the rollback when no VFS inode can be had. */
  ghost function Make<E>(s: Sys<E>, parentIno: nat, name: string, dir: bool, mem: Option<E>, inodeOk: bool): Sys<E>
    requires WellFormed(s.tree)
  {
    match GetByIno(s.tree, parentIno)
    case None => s
    case Some(parent) =>
      if parent !in s.tree.nodes then s
      else
        var (tree1, ok) := CreateEntry(s.tree, parent, name, dir, 0, mem);
        if !ok then s.(tree := tree1)
        else
          var path := FetchPath(s.tree, parent, name);
          var t1 := Server.CreateRow(s.table, path, TypeName(dir)).0;
          Sys(MadeTree(s.tree, parent, name, dir, mem, inodeOk),
              if inodeOk then t1 else Server.DeleteRow(t1, path).0)
  }

  /** `vtfs_unlink` and `vtfs_rmdir`: the path is built before the entry goes, the delete is sent after. */
  ghost function Drop<E>(s: Sys<E>, parentIno: nat, name: string, dirOnly: bool): Sys<E>
    requires WellFormed(s.tree)
  {
    var v := Victim(s.tree, parentIno, name);
    if v.None? || v.value !in s.tree.nodes || (dirOnly && !s.tree.nodes[v.value].dir) then s
    else
      var (tree', err) := DeleteEntry(s.tree, v.value);
      if err != OK then s
      else Sys(tree', Server.DeleteRow(s.table, BuildPath(s.tree, v.value)).0)
  }

  /** A kernel write is pushed twice: at offset 0 by the storage layer, then at its own offset. */
  ghost function Push<E>(s: Sys<E>, ino: nat, offset: nat, len: nat, first: Option<Bytes>, second: Option<Bytes>): Sys<E>
    requires WellFormed(s.tree)
  {
    match GetByIno(s.tree, ino)
    case None => s
    case Some(e) =>
      if e !in s.tree.nodes || s.tree.nodes[e].dir || offset + len > FileData.MAX_FILE_SIZE then s
      else
        var path := BuildPath(s.tree, e);
        s.(table := Deliver(Deliver(s.table, path, 0, first), path, offset, second))
  }

  ghost function Do<E>(s: Sys<E>, c: Call<E>): Sys<E>
    requires WellFormed(s.tree)
  {
    match c
    case LookupCall(p, n, m, b) => Look(s, p, n, m, b)
    case CreateCall(p, n, m, i) => Make(s, p, n, false, m, i)
    case MkdirCall(p, n, m, i) => Make(s, p, n, true, m, i)
    case UnlinkCall(p, n) => Drop(s, p, n, false)
    case RmdirCall(p, n) => Drop(s, p, n, true)
    case WriteCall(i, o, l, a, b) => Push(s, i, o, l, a, b)
  }

  // ---------- The tree half is the tree machine ----------

  ghost function TreeOp<E>(s: Sys<E>, c: Call<E>): Op<E>
    requires WellFormed(s.tree) && !c.WriteCall?
  {
    match c
    case LookupCall(p, n, m, b) =>
      var parent := GetByIno(s.tree, p);
      Lookup_(p, n, m, if parent.Some? && parent.value in s.tree.nodes
                       then RemoteType(s.table, FetchPath(s.tree, parent.value, n)) else None)
    case CreateCall(p, n, m, i) => Create(p, n, m, i)
    case MkdirCall(p, n, m, i) => Mkdir(p, n, m, i)
    case UnlinkCall(p, n) => Unlink(p, n)
    case RmdirCall(p, n) => Rmdir(p, n)
  }

  /** Whatever the server does, the kernel side of a call is one step of the tree machine. */
  lemma TreeHalf<E>(s: Sys<E>, c: Call<E>)
    requires WellFormed(s.tree) && NameValid(c) && !c.WriteCall?
    ensures Do(s, c).tree == Step(s.tree, TreeOp(s, c))
  {
    hide WellFormed, GetByIno, Lookup, CreateEntry, DeleteEntry, RemoteType, FetchPath, Server.CreateRow, Server.DeleteRow;
    GetByInoFacts(s.tree, c.parentIno);
    VictimDeleted(s.tree, c.parentIno, c.name);
    var v := Victim(s.tree, c.parentIno, c.name);
    if v.Some? { DeleteRefused(s.tree, v.value); }
    if GetByIno(s.tree, c.parentIno).Some? && (c.CreateCall? || c.MkdirCall?) {
      CreatedIsIn(s.tree, GetByIno(s.tree, c.parentIno).value, c);
    }
  }

  lemma DeleteRefused<E>(s: Store<E>, e: E)
    requires e in s.nodes
    ensures DeleteEntry(s, e).1 != OK ==> DeleteEntry(s, e).0 == s
    ensures s.nodes[e].dir && s.nodes[e].children != [] ==> DeleteEntry(s, e).1 != OK
  {
  }

  lemma CreatedIsIn<E>(s: Store<E>, parent: E, c: Call<E>)
    requires c.CreateCall? || c.MkdirCall?
    ensures var r := CreateEntry(s, parent, c.name, c.MkdirCall?, 0, c.mem);
            r.1 ==> c.mem.Some? && c.mem.value in r.0.nodes
  {
  }

  lemma DoWellFormed<E>(s: Sys<E>, c: Call<E>)
    requires WellFormed(s.tree) && NameValid(c)
    ensures WellFormed(Do(s, c).tree)
  {
    if !c.WriteCall? {
      TreeHalf(s, c);
      StepWellFormed(s.tree, TreeOp(s, c));
    }
  }

  // ---------- Cache inclusion ----------

  ghost predicate Mirrored<E>(s: Sys<E>, e: E)
    requires WellFormed(s.tree) && e in s.tree.nodes
  {
    var p := BuildPath(s.tree, e);
    p in s.table && (s.table[p].etype == Server.DIR <==> s.tree.nodes[e].dir)
  }

  /** Every local entry's path is a server row of the same type. */
  ghost predicate Included<E>(s: Sys<E>) {
    && WellFormed(s.tree) && Server.ValidTable(s.table)
    && forall e {:trigger Mirrored(s, e)} :: e in s.tree.nodes ==> Mirrored(s, e)
  }

  lemma NormalFetchPath<E>(s: Store<E>, parent: E, name: string)
    requires WellFormed(s) && parent in s.nodes && IsName(name)
    ensures var p := FetchPath(s, parent, name);
            && IsNormal(p) && NormalizePath(p) == p && p != "/" && ParentPath(p) == BuildPath(s, parent)
            && p == Render(PathOf(s, parent) + [name])
  {
    BuildPathRenders(s, parent);
    PathHasNames(s, parent);
    ParentOfChild(PathOf(s, parent), name);
    RenderInjective(PathOf(s, parent), []);
    assert AreNames(PathOf(s, parent) + [name]);
    NormalizeIsCanonical(FetchPath(s, parent, name));
  }

  lemma NormalBuildPath<E>(s: Store<E>, e: E)
    requires WellFormed(s) && e in s.nodes
    ensures IsNormal(BuildPath(s, e)) && NormalizePath(BuildPath(s, e)) == BuildPath(s, e)
    ensures BuildPath(s, e) == "/" <==> e == s.root
  {
    BuildPathRenders(s, e);
    PathHasNames(s, e);
    NormalizeIsCanonical(BuildPath(s, e));
    RenderInjective(PathOf(s, e), []);
  }

  /** The server accepts a create below a mirrored directory: afterwards the path is a row. */
  lemma CreateReachesServer<E>(s: Sys<E>, parent: E, name: string, dir: bool)
    requires Included(s) && parent in s.tree.nodes && s.tree.nodes[parent].dir && IsName(name)
    ensures var p := FetchPath(s.tree, parent, name);
            var t' := Server.CreateRow(s.table, p, TypeName(dir)).0;
            && Server.ValidTable(t') && Server.TypesKept(s.table, t') && t'.Keys == s.table.Keys + {p}
            && (p !in s.table ==> (t'[p].etype == Server.DIR <==> dir))
  {
    var p := FetchPath(s.tree, parent, name);
    NormalFetchPath(s.tree, parent, name);
    assert Mirrored(s, parent);
    Server.CreateEffect(s.table, p, dir);
  }

  /** A new local entry whose path is a row of its type keeps the inclusion. */
  lemma CreateIncluded<E>(s: Sys<E>, parent: E, name: string, dir: bool, ino: nat, mem: Option<E>, t': Server.Table)
    requires Included(s) && IsName(name) && CreateEntry(s.tree, parent, name, dir, ino, mem).1
    requires Server.ValidTable(t') && Server.TypesKept(s.table, t')
    requires WellFormed(CreateEntry(s.tree, parent, name, dir, ino, mem).0)
    ensures var s' := Sys(CreateEntry(s.tree, parent, name, dir, ino, mem).0, t');
            var p := FetchPath(s.tree, parent, name);
            Included(s') <==> p in t' && (t'[p].etype == Server.DIR <==> dir)
  {
    var s' := Sys(CreateEntry(s.tree, parent, name, dir, ino, mem).0, t');
    CreatePaths(s.tree, parent, name, dir, ino, mem);
    CreateListed(s.tree, parent, name, dir, ino, mem);
    forall e {:trigger Mirrored(s', e)} | e in s.tree.nodes ensures Mirrored(s', e) {
      assert Mirrored(s, e);
      assert s'.tree.nodes[e].dir == s.tree.nodes[e].dir;
    }
    var p := FetchPath(s.tree, parent, name);
    assert Mirrored(s', mem.value) <==> p in t' && (t'[p].etype == Server.DIR <==> dir);
  }

  lemma DeletedKinds<E>(s: Store<E>, e: E)
    requires e in s.nodes && DeleteEntry(s, e).1 == OK
    ensures var s' := DeleteEntry(s, e).0;
            && s'.nodes.Keys == s.nodes.Keys - {e}
            && forall x {:trigger s'.nodes[x].dir} :: x in s'.nodes ==> s'.nodes[x].dir == s.nodes[x].dir
  {
  }

  /** Losing an entry and at most its own row: no other entry has that path. */
  lemma DeleteIncluded<E>(s: Sys<E>, e: E, t': Server.Table)
    requires Included(s) && e in s.tree.nodes && DeleteEntry(s.tree, e).1 == OK
    requires Server.ValidTable(t') && Server.TypesKept(t', s.table)
    requires s.table.Keys - {BuildPath(s.tree, e)} <= t'.Keys
    ensures Included(Sys(DeleteEntry(s.tree, e).0, t'))
  {
    hide WellFormed, DeleteEntry, Server.ValidTable;
    var s' := Sys(DeleteEntry(s.tree, e).0, t');
    DeletePaths(s.tree, e);
    DeletedKinds(s.tree, e);
    forall x {:trigger Mirrored(s', x)} | x in s'.tree.nodes ensures Mirrored(s', x) {
      assert Mirrored(s, x);
      if BuildPath(s.tree, x) == BuildPath(s.tree, e) { PathsInjective(s.tree, x, e); }
      assert BuildPath(s'.tree, x) == BuildPath(s.tree, x) && s'.tree.nodes[x].dir == s.tree.nodes[x].dir;
    }
  }

  /** Only types matter to the inclusion, and content writes never change them. */
  lemma WriteIncluded<E>(s: Sys<E>, path: string, offset: nat, data: seq<bv8>)
    requires Included(s)
    ensures Included(s.(table := Server.WriteRow(s.table, path, offset, data).0))
    ensures Server.TypesKept(s.table, Server.WriteRow(s.table, path, offset, data).0)
    ensures Server.WriteRow(s.table, path, offset, data).0.Keys == s.table.Keys
  {
    var s' := s.(table := Server.WriteRow(s.table, path, offset, data).0);
    Server.WriteIsValid(s.table, path, offset, data);
    Server.WriteKeepsShape(s.table, path, offset, data);
    forall e {:trigger Mirrored(s', e)} | e in s'.tree.nodes ensures Mirrored(s', e) {
      assert Mirrored(s, e);
    }
  }

  lemma DeliverIncluded<E>(s: Sys<E>, path: string, offset: nat, data: Option<Bytes>)
    requires Included(s)
    ensures var t' := Deliver(s.table, path, offset, data);
            Included(s.(table := t')) && Server.TypesKept(s.table, t') && t'.Keys == s.table.Keys
  {
    if data.Some? { WriteIncluded(s, path, offset, data.value); }
  }

  lemma SameDirsIncluded<E>(s: Sys<E>, tree': Store<E>)
    requires Included(s) && WellFormed(tree') && tree'.root == s.tree.root
    requires tree'.nodes.Keys == s.tree.nodes.Keys && Kept(s.tree, tree')
    ensures Included(s.(tree := tree'))
    ensures forall e {:trigger BuildPath(tree', e)} :: e in tree'.nodes ==> BuildPath(tree', e) == BuildPath(s.tree, e)
  {
    var s' := s.(tree := tree');
    forall e {:trigger Mirrored(s', e)} {:trigger BuildPath(tree', e)} | e in tree'.nodes
      ensures Mirrored(s', e) && BuildPath(tree', e) == BuildPath(s.tree, e)
    {
      PathFrame(tree', s.tree, e);
      assert Mirrored(s, e);
    }
  }

  /** No create over a row of the other type. A lookup of the name just before guarantees it (`NegativeLookup`);
      a negative dentry that an rmdir has left behind does not (`Witnesses.CreateAfterRmdir`). */
  ghost predicate NoClash<E>(s: Sys<E>, c: Call<E>)
    requires WellFormed(s.tree)
  {
    (c.CreateCall? || c.MkdirCall?) ==>
      match GetByIno(s.tree, c.parentIno)
      case None => true
      case Some(parent) =>
        parent in s.tree.nodes && s.tree.nodes[parent].dir ==>
          var p := FetchPath(s.tree, parent, c.name);
          p in s.table ==> (s.table[p].etype == Server.DIR <==> c.MkdirCall?)
  }

  lemma LookIncluded<E>(s: Sys<E>, p: nat, n: string, m: Option<E>, back: Option<Bytes>)
    requires Included(s) && IsName(n)
    ensures Included(Look(s, p, n, m, back))
  {
    hide WellFormed, Server.ValidTable, GetByIno, Lookup, FetchPath, Server.WriteRow;
    GetByInoFacts(s.tree, p);
    var s' := Look(s, p, n, m, back);
    if s' != s {
      var parent := GetByIno(s.tree, p).value;
      var path := FetchPath(s.tree, parent, n);
      var remote := RemoteType(s.table, path);
      NormalFetchPath(s.tree, parent, n);
      CreateWellFormed(s.tree, parent, n, remote.value, 0, m);
      DeliverIncluded(s, path, 0, back);
      if CreateEntry(s.tree, parent, n, remote.value, 0, m).1 {
        CreateIncluded(s, parent, n, remote.value, 0, m, s'.table);
      } else {
        SameDirsIncluded(s, s'.tree);
      }
    }
  }

  /** The two halves of a create that went through on the kernel side. */
  lemma MakeIncluded<E>(s: Sys<E>, p: nat, n: string, dir: bool, m: Option<E>, inodeOk: bool)
    requires Included(s) && IsName(n)
    requires NoClash(s, if dir then MkdirCall(p, n, m, inodeOk) else CreateCall(p, n, m, inodeOk))
    ensures Included(Make(s, p, n, dir, m, inodeOk))
  {
    hide WellFormed, Server.ValidTable;
    GetByInoFacts(s.tree, p);
    if GetByIno(s.tree, p).Some? {
      var parent := GetByIno(s.tree, p).value;
      var (s1, ok) := CreateEntry(s.tree, parent, n, dir, 0, m);
      CreateWellFormed(s.tree, parent, n, dir, 0, m);
      if ok {
        MadeIncluded(s, parent, n, dir, m);
        var made := MadeTree(s.tree, parent, n, dir, m, true);
        var t1 := Server.CreateRow(s.table, FetchPath(s.tree, parent, n), TypeName(dir)).0;
        if !inodeOk { RollbackIncluded(Sys(made, t1), m.value); }
      } else {
        SameDirsIncluded(s, s1);
      }
    }
  }

  lemma MadeIncluded<E>(s: Sys<E>, parent: E, n: string, dir: bool, m: Option<E>)
    requires Included(s) && IsName(n) && CreateEntry(s.tree, parent, n, dir, 0, m).1
    requires var p := FetchPath(s.tree, parent, n);
             p in s.table ==> (s.table[p].etype == Server.DIR <==> dir)
    ensures var p := FetchPath(s.tree, parent, n);
            var s' := Sys(MadeTree(s.tree, parent, n, dir, m, true), Server.CreateRow(s.table, p, TypeName(dir)).0);
            Included(s') && m.value in s'.tree.nodes && BuildPath(s'.tree, m.value) == p
  {
    hide WellFormed, Server.ValidTable;
    var p := FetchPath(s.tree, parent, n);
    var t1 := Server.CreateRow(s.table, p, TypeName(dir)).0;
    var s1 := CreateEntry(s.tree, parent, n, dir, 0, m).0;
    CreateWellFormed(s.tree, parent, n, dir, 0, m);
    CreateReachesServer(s, parent, n, dir);
    CreateIncluded(s, parent, n, dir, 0, m, t1);
    CreatePaths(s.tree, parent, n, dir, 0, m);
    if dir {
      SetNlinkWellFormed(s1, m.value, 2);
      SameDirsIncluded(Sys(s1, t1), SetNlink(s1, m.value, 2));
    }
  }

  lemma RollbackIncluded<E>(s: Sys<E>, e: E)
    requires Included(s) && e in s.tree.nodes
    ensures var s' := Sys(DeleteEntry(s.tree, e).0, Server.DeleteRow(s.table, BuildPath(s.tree, e)).0);
            DeleteEntry(s.tree, e).1 == OK ==> Included(s')
  {
    if DeleteEntry(s.tree, e).1 == OK {
      NormalBuildPath(s.tree, e);
      Server.DeleteEffect(s.table, BuildPath(s.tree, e));
      DeleteIncluded(s, e, Server.DeleteRow(s.table, BuildPath(s.tree, e)).0);
    }
  }

  lemma DropIncluded<E>(s: Sys<E>, p: nat, n: string, dirOnly: bool)
    requires Included(s)
    ensures Included(Drop(s, p, n, dirOnly))
  {
    VictimDeleted(s.tree, p, n);
    var v := Victim(s.tree, p, n);
    if v.Some? { RollbackIncluded(s, v.value); }
  }

  lemma PushIncluded<E>(s: Sys<E>, ino: nat, offset: nat, len: nat, first: Option<Bytes>, second: Option<Bytes>)
    requires Included(s)
    ensures Included(Push(s, ino, offset, len, first, second))
    ensures Push(s, ino, offset, len, first, second).table.Keys == s.table.Keys
  {
    GetByInoFacts(s.tree, ino);
    var e := GetByIno(s.tree, ino);
    if e.Some? {
      var path := BuildPath(s.tree, e.value);
      DeliverIncluded(s, path, 0, first);
      DeliverIncluded(s.(table := Deliver(s.table, path, 0, first)), path, offset, second);
    }
  }

  lemma DoIncluded<E>(s: Sys<E>, c: Call<E>)
    requires Included(s) && NameValid(c) && NoClash(s, c)
    ensures Included(Do(s, c))
  {
    match c
    case LookupCall(p, n, m, b) => LookIncluded(s, p, n, m, b);
    case CreateCall(p, n, m, i) => MakeIncluded(s, p, n, false, m, i);
    case MkdirCall(p, n, m, i) => MakeIncluded(s, p, n, true, m, i);
    case UnlinkCall(p, n) => DropIncluded(s, p, n, false);
    case RmdirCall(p, n) => DropIncluded(s, p, n, true);
    case WriteCall(i, o, l, a, b) => PushIncluded(s, i, o, l, a, b);
  }

  ghost function DoAll<E>(s: Sys<E>, cs: seq<Call<E>>): Sys<E>
    requires WellFormed(s.tree) && forall i :: 0 <= i < |cs| ==> NameValid(cs[i])
    decreases |cs|
  {
    if cs == [] then s
    else
      DoWellFormed(s, cs[0]);
      DoAll(Do(s, cs[0]), cs[1..])
  }

  /** Every call of a run meets a guard in the state it finds. */
  ghost predicate NeverClashes<E>(s: Sys<E>, cs: seq<Call<E>>)
    requires WellFormed(s.tree) && forall i :: 0 <= i < |cs| ==> NameValid(cs[i])
    decreases |cs|
  {
    cs == [] || (NoClash(s, cs[0]) && (DoWellFormed(s, cs[0]); NeverClashes(Do(s, cs[0]), cs[1..])))
  }

  /** After a remount: an empty local tree against any table the server may have kept. */
  lemma RemountIncluded<E>(root: E, t: Server.Table)
    requires Server.ValidTable(t)
    ensures Included(Sys(FreshStore(root), t))
  {
    var s := Sys(FreshStore(root), t);
    FreshIsWellFormed(root);
    assert Mirrored(s, root);
  }

  /** The guard of an exact run suffices. */
  lemma {:induction false} ClearRunIncluded<E>(s: Sys<E>, cs: seq<Call<E>>)
    requires Included(s) && forall i :: 0 <= i < |cs| ==> NameValid(cs[i])
    requires NeverClashes(s, cs)
    ensures Included(DoAll(s, cs))
    decreases |cs|
  {
    if cs != [] {
      DoIncluded(s, cs[0]);
      DoWellFormed(s, cs[0]);
      ClearRunIncluded(Do(s, cs[0]), cs[1..]);
    }
  }

  // ---------- Creates that follow a negative lookup ----------

  /** The path of a lookup, create or mkdir, if its directory is there. */
  ghost function Target<E>(s: Sys<E>, c: Call<E>): set<string>
    requires WellFormed(s.tree)
  {
    if !(c.LookupCall? || c.CreateCall? || c.MkdirCall?) then {}
    else
      match GetByIno(s.tree, c.parentIno)
      case None => {}
      case Some(d) => if d in s.tree.nodes && s.tree.nodes[d].dir then {FetchPath(s.tree, d, c.name)} else {}
  }

  /** A lookup that had memory for a fetched entry and found no child. */
  ghost predicate Negative<E>(s: Sys<E>, c: Call<E>)
    requires WellFormed(s.tree)
  {
    && c.LookupCall? && c.mem.Some? && c.mem.value !in s.tree.nodes
    && (GetByIno(s.tree, c.parentIno).Some? ==>
          Lookup(Do(s, c).tree, GetByIno(s.tree, c.parentIno).value, c.name).None?)
  }

  /** What a negative lookup tells: the server has no row there either, so nothing can clash. */
  lemma NegativeLookup<E>(s: Sys<E>, c: Call<E>, m: Option<E>, inodeOk: bool)
    requires Included(s) && NameValid(c) && Negative(s, c)
    ensures Do(s, c) == s && Target(s, c) !! s.table.Keys
    ensures NoClash(Do(s, c), CreateCall(c.parentIno, c.name, m, inodeOk))
    ensures NoClash(Do(s, c), MkdirCall(c.parentIno, c.name, m, inodeOk))
  {
    hide WellFormed, Server.ValidTable, GetByIno, Lookup, FetchPath, NormalizePath;
    var d := GetByIno(s.tree, c.parentIno);
    GetByInoFacts(s.tree, c.parentIno);
    if d.Some? {
      NormalFetchPath(s.tree, d.value, c.name);
      var remote := RemoteType(s.table, FetchPath(s.tree, d.value, c.name));
      if remote.Some? { FetchFinds(s.tree, d.value, c.name, remote.value, c.mem); }
    }
  }

  /** With memory, a fetch below a directory leaves a child; below anything else it changes nothing. */
  lemma FetchFinds<E>(s: Store<E>, d: E, n: string, dir: bool, mem: Option<E>)
    requires WellFormed(s) && d in s.nodes && mem.Some? && mem.value !in s.nodes && Lookup(s, d, n).None?
    ensures var (s', ok) := CreateEntry(s, d, n, dir, 0, mem);
            if s.nodes[d].dir then Lookup(s', d, n).Some? else s' == s && !ok
  {
    if s.nodes[d].dir { Undo.CreatedIsVictim(s, d, n, dir, 0, mem); }
  }

  /** What is known absent on the server: paths looked up in vain and not created since. */
  ghost function Learn<E>(s: Sys<E>, absent: set<string>, c: Call<E>): set<string>
    requires WellFormed(s.tree)
  {
    if c.LookupCall? then (if Negative(s, c) then absent + Target(s, c) else absent) else absent - Target(s, c)
  }

  /** Every create and mkdir of a run follows a negative lookup of its path, with no create there in between. */
  ghost predicate AfterLookups<E>(s: Sys<E>, absent: set<string>, cs: seq<Call<E>>)
    requires WellFormed(s.tree) && forall i :: 0 <= i < |cs| ==> NameValid(cs[i])
    decreases |cs|
  {
    cs == [] ||
    ((cs[0].CreateCall? || cs[0].MkdirCall? ==> Target(s, cs[0]) <= absent) &&
     (DoWellFormed(s, cs[0]); AfterLookups(Do(s, cs[0]), Learn(s, absent, cs[0]), cs[1..])))
  }

  /** Only a create or mkdir adds a row, and only at its path. */
  lemma RowsAppear<E>(s: Sys<E>, c: Call<E>)
    requires Included(s) && NameValid(c)
    ensures Do(s, c).table.Keys <= s.table.Keys + (if c.CreateCall? || c.MkdirCall? then Target(s, c) else {})
  {
    match c
    case LookupCall(p, n, m, b) => LookRows(s, p, n, m, b);
    case CreateCall(p, n, m, i) => MakeRows(s, p, n, false, m, i);
    case MkdirCall(p, n, m, i) => MakeRows(s, p, n, true, m, i);
    case UnlinkCall(p, n) => DropRows(s, p, n, false);
    case RmdirCall(p, n) => DropRows(s, p, n, true);
    case WriteCall(i, o, l, a, b) => PushIncluded(s, i, o, l, a, b);
  }

  lemma LookRows<E>(s: Sys<E>, p: nat, n: string, m: Option<E>, back: Option<Bytes>)
    requires Included(s) && IsName(n)
    ensures Look(s, p, n, m, back).table.Keys == s.table.Keys
  {
    GetByInoFacts(s.tree, p);
    var d := GetByIno(s.tree, p);
    if d.Some? { DeliverIncluded(s, FetchPath(s.tree, d.value, n), 0, back); }
  }

  lemma MakeRows<E>(s: Sys<E>, p: nat, n: string, dir: bool, m: Option<E>, inodeOk: bool)
    requires Included(s) && IsName(n)
    ensures var c := if dir then MkdirCall(p, n, m, inodeOk) else CreateCall(p, n, m, inodeOk);
            Make(s, p, n, dir, m, inodeOk).table.Keys <= s.table.Keys + Target(s, c)
  {
    GetByInoFacts(s.tree, p);
    var d := GetByIno(s.tree, p);
    if d.Some? && CreateEntry(s.tree, d.value, n, dir, 0, m).1 {
      CreateReachesServer(s, d.value, n, dir);
      var path := FetchPath(s.tree, d.value, n);
      NormalFetchPath(s.tree, d.value, n);
      Server.DeleteEffect(Server.CreateRow(s.table, path, TypeName(dir)).0, path);
    }
  }

  lemma DropRows<E>(s: Sys<E>, p: nat, n: string, dirOnly: bool)
    requires Included(s)
    ensures Drop(s, p, n, dirOnly).table.Keys <= s.table.Keys
  {
    VictimDeleted(s.tree, p, n);
    var v := Victim(s.tree, p, n);
    if v.Some? {
      NormalBuildPath(s.tree, v.value);
      Server.DeleteEffect(s.table, BuildPath(s.tree, v.value));
    }
  }

  lemma {:induction false} LookupsClear<E>(s: Sys<E>, absent: set<string>, cs: seq<Call<E>>)
    requires Included(s) && forall i :: 0 <= i < |cs| ==> NameValid(cs[i])
    requires absent !! s.table.Keys && AfterLookups(s, absent, cs)
    ensures NeverClashes(s, cs)
    decreases |cs|
  {
    if cs != [] {
      var c := cs[0];
      DoWellFormed(s, c);
      TargetIsClear(s, absent, c);
      DoIncluded(s, c);
      RowsAppear(s, c);
      if Negative(s, c) { NegativeLookup(s, c, None, true); }
      LookupsClear(Do(s, c), Learn(s, absent, c), cs[1..]);
    }
  }

  lemma TargetIsClear<E>(s: Sys<E>, absent: set<string>, c: Call<E>)
    requires WellFormed(s.tree) && absent !! s.table.Keys
    requires c.CreateCall? || c.MkdirCall? ==> Target(s, c) <= absent
    ensures NoClash(s, c)
  {
    if c.CreateCall? || c.MkdirCall? {
      var d := GetByIno(s.tree, c.parentIno);
      if d.Some? && d.value in s.tree.nodes && s.tree.nodes[d.value].dir {
        assert FetchPath(s.tree, d.value, c.name) in Target(s, c);
      }
    }
  }

  /** Cache inclusion over every run in which creates and mkdirs follow negative lookups. */
  lemma RunIncluded<E>(s: Sys<E>, absent: set<string>, cs: seq<Call<E>>)
    requires Included(s) && forall i :: 0 <= i < |cs| ==> NameValid(cs[i])
    requires absent !! s.table.Keys && AfterLookups(s, absent, cs)
    ensures Included(DoAll(s, cs))
  {
    LookupsClear(s, absent, cs);
    ClearRunIncluded(s, cs);
  }
}
