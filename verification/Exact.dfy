/** Exact simulation from a joint fresh start, and exactly which calls break agreement. */
module Exact {
  import opened Lists
  import opened Paths
  import opened Tree
  import opened TreePaths
  import opened Sync
  import Server

  ghost predicate Held<E>(s: Sys<E>, p: string)
    requires WellFormed(s.tree)
  {
    exists e :: e in s.tree.nodes && BuildPath(s.tree, e) == p
  }

  /** Both sides hold the same paths with the same types. */
  ghost predicate Agreed<E>(s: Sys<E>) {
    Included(s) && forall p {:trigger Held(s, p)} :: p in s.table ==> Held(s, p)
  }

  /** The kernel's view as a map: path of each entry to "is a directory". */
  ghost function LocalTypes<E>(t: Store<E>): map<string, bool>
    requires WellFormed(t)
  {
    assert forall e, f :: e in t.nodes && f in t.nodes && BuildPath(t, e) == BuildPath(t, f) ==> e == f by {
      forall e, f | e in t.nodes && f in t.nodes && BuildPath(t, e) == BuildPath(t, f) ensures e == f {
        PathsInjective(t, e, f);
      }
    }
    map e | e in t.nodes :: BuildPath(t, e) := t.nodes[e].dir
  }

  ghost function ServerTypes(t: Server.Table): map<string, bool> {
    map p | p in t :: t[p].etype == Server.DIR
  }

  lemma LocalTypesHas<E>(t: Store<E>, p: string)
    requires WellFormed(t)
    ensures p in LocalTypes(t) <==> exists e :: e in t.nodes && BuildPath(t, e) == p
    ensures p in LocalTypes(t) ==> exists e :: e in t.nodes && BuildPath(t, e) == p && LocalTypes(t)[p] == t.nodes[e].dir
  {
    if p in LocalTypes(t) {
      assert exists e :: e in t.nodes && BuildPath(t, e) == p && LocalTypes(t)[p] == t.nodes[e].dir;
    }
  }

  /** Agreement is equality of the two maps. */
  lemma AgreedIsEquality<E>(s: Sys<E>)
    requires WellFormed(s.tree) && Server.ValidTable(s.table)
    ensures Agreed(s) <==> LocalTypes(s.tree) == ServerTypes(s.table)
  {
    hide WellFormed, Server.ValidTable, LocalTypes;
    var l, r := LocalTypes(s.tree), ServerTypes(s.table);
    if Agreed(s) {
      forall p ensures (p in l <==> p in r) && (p in l ==> l[p] == r[p]) {
        LocalTypesHas(s.tree, p);
        if p in l {
          var e :| e in s.tree.nodes && BuildPath(s.tree, e) == p && l[p] == s.tree.nodes[e].dir;
          assert Mirrored(s, e);
        }
        if p in r { assert Held(s, p); }
      }
      assert l.Keys == r.Keys;
    }
    if l == r {
      forall e {:trigger Mirrored(s, e)} | e in s.tree.nodes ensures Mirrored(s, e) {
        LocalTypesHas(s.tree, BuildPath(s.tree, e));
        var f :| f in s.tree.nodes && BuildPath(s.tree, f) == BuildPath(s.tree, e)
                 && l[BuildPath(s.tree, e)] == s.tree.nodes[f].dir;
        PathsInjective(s.tree, e, f);
      }
      forall p {:trigger Held(s, p)} | p in s.table ensures Held(s, p) {
        assert p in r;
        LocalTypesHas(s.tree, p);
      }
    }
  }

  /** Equal spellings mean the same directory and the same name. */
  lemma ChildOfPath<E>(t: Store<E>, e: E, parent: E, name: string)
    requires WellFormed(t) && e in t.nodes && parent in t.nodes && IsName(name)
    requires BuildPath(t, e) == FetchPath(t, parent, name)
    ensures e != t.root && Up(t, e) == parent && t.nodes[e].name == name
  {
    hide WellFormed;
    NormalFetchPath(t, parent, name);
    BuildPathRenders(t, e);
    PathHasNames(t, e);
    PathHasNames(t, parent);
    var cs := PathOf(t, parent) + [name];
    RenderInjective(PathOf(t, e), cs);
    ResolvePath(t, parent);
    ParentResolves(t, e);
    assert PathOf(t, e)[..|PathOf(t, parent)|] == PathOf(t, parent);
  }

  /** Dropping the last component of an entry's path resolves to its parent. */
  lemma ParentResolves<E>(t: Store<E>, e: E)
    requires WellFormed(t) && e in t.nodes && e != t.root
    ensures var cs := PathOf(t, e);
            cs != [] && cs[|cs| - 1] == t.nodes[e].name && Resolve(t, t.root, cs[..|cs| - 1]) == Some(Up(t, e))
  {
    var cs := PathOf(t, e);
    ResolvePath(t, Up(t, e));
    assert cs[..|cs| - 1] == PathOf(t, Up(t, e));
  }

  /** A row below a known directory is already a local child of that directory. */
  lemma HeldChild<E>(s: Sys<E>, parent: E, name: string)
    requires WellFormed(s.tree) && parent in s.tree.nodes && s.tree.nodes[parent].dir && IsName(name)
    requires Held(s, FetchPath(s.tree, parent, name))
    ensures Lookup(s.tree, parent, name).Some?
  {
    var e :| e in s.tree.nodes && BuildPath(s.tree, e) == FetchPath(s.tree, parent, name);
    ChildOfPath(s.tree, e, parent, name);
    LookupFacts(s.tree, parent, name);
  }

  lemma LookNothing<E>(s: Sys<E>, parent: E, n: string)
    requires Agreed(s) && IsName(n) && parent in s.tree.nodes && s.tree.nodes[parent].dir
    requires Lookup(s.tree, parent, n).None?
    ensures FetchPath(s.tree, parent, n) !in s.table
    ensures RemoteType(s.table, FetchPath(s.tree, parent, n)).None?
  {
    NormalFetchPath(s.tree, parent, n);
    if FetchPath(s.tree, parent, n) in s.table { HeldChild(s, parent, n); }
  }

  /** While both sides agree, a lookup miss fetches nothing: the server holds no more than the kernel. */
  lemma LookAgreed<E>(s: Sys<E>, p: nat, n: string, m: Option<E>, back: Option<Bytes>)
    requires Agreed(s) && IsName(n)
    ensures Look(s, p, n, m, back) == s
  {
    GetByInoFacts(s.tree, p);
    if GetByIno(s.tree, p).Some? {
      var parent := GetByIno(s.tree, p).value;
      if s.tree.nodes[parent].dir && Lookup(s.tree, parent, n).None? { LookNothing(s, parent, n); }
    }
  }

  lemma SameHeld<E>(s: Sys<E>, tree': Store<E>)
    requires Agreed(s) && WellFormed(tree') && tree'.root == s.tree.root
    requires tree'.nodes.Keys == s.tree.nodes.Keys && Kept(s.tree, tree')
    ensures Agreed(s.(tree := tree'))
  {
    hide WellFormed, Server.ValidTable;
    var s' := s.(tree := tree');
    SameDirsIncluded(s, tree');
    forall p {:trigger Held(s', p)} | p in s.table ensures Held(s', p) {
      assert Held(s, p);
      var e :| e in s.tree.nodes && BuildPath(s.tree, e) == p;
      assert BuildPath(tree', e) == p;
    }
  }

  /** Replacing entries and rows together keeps agreement when both sides gain or lose the same path. */
  lemma RowsHeld<E>(s: Sys<E>, s': Sys<E>, gained: set<string>)
    requires Agreed(s) && Included(s') && s'.table.Keys <= s.table.Keys + gained
    requires forall p {:trigger p in gained} :: p in gained ==> Held(s', p)
    requires forall e {:trigger BuildPath(s.tree, e)} :: e in s.tree.nodes && BuildPath(s.tree, e) in s'.table ==>
               e in s'.tree.nodes && BuildPath(s'.tree, e) == BuildPath(s.tree, e)
    ensures Agreed(s')
  {
    hide WellFormed, Server.ValidTable;
    forall p {:trigger Held(s', p)} | p in s'.table ensures Held(s', p) {
      if p !in gained {
        assert Held(s, p);
        var e :| e in s.tree.nodes && BuildPath(s.tree, e) == p;
      }
    }
  }

  /** An empty local directory has no rows below it. */
  lemma NoRowsUnder<E>(s: Sys<E>, v: E)
    requires Agreed(s) && v in s.tree.nodes && s.tree.nodes[v].children == []
    ensures !Server.HasChildren(s.table, BuildPath(s.tree, v))
  {
    var p := BuildPath(s.tree, v);
    forall q | q in s.table ensures s.table[q].parentPath != Some(p) {
      if s.table[q].parentPath == Some(p) {
        assert Server.HangsBelow(s.table, q);
        assert Held(s, q);
        var e :| e in s.tree.nodes && BuildPath(s.tree, e) == q;
        RootPath(s.tree);
        PathOfChild(s.tree, e);
        PathsInjective(s.tree, Up(s.tree, e), v);
        assert false;
      }
    }
  }

  lemma RootPath<E>(t: Store<E>)
    requires WellFormed(t)
    ensures BuildPath(t, t.root) == "/"
  {
  }

  /** Deleting an entry and sending the delete keeps agreement exactly when the row had one link left. */
  lemma DeleteAgreed<E>(s: Sys<E>, v: E)
    requires Agreed(s) && v in s.tree.nodes && DeleteEntry(s.tree, v).1 == OK
    ensures var p := BuildPath(s.tree, v);
            && p in s.table
            && (Agreed(Sys(DeleteEntry(s.tree, v).0, Server.DeleteRow(s.table, p).0)) <==> s.table[p].nlink == 1)
  {
    hide WellFormed, Server.ValidTable;
    var p := BuildPath(s.tree, v);
    var s' := Sys(DeleteEntry(s.tree, v).0, Server.DeleteRow(s.table, p).0);
    assert Mirrored(s, v);
    RollbackIncluded(s, v);
    assert s.tree.nodes[v].children == [] by {
      if s.tree.nodes[v].children != [] { ParentsAreDirectories(s.tree, v); }
    }
    NoRowsUnder(s, v);
    NormalBuildPath(s.tree, v);
    Server.DeleteEffect(s.table, p);
    Server.DeleteRemovesRow(s.table, p);
    DeletePaths(s.tree, v);
    if s.table[p].nlink == 1 {
      RowsHeld(s, s', {});
    } else if Held(s', p) {
      var e :| e in s'.tree.nodes && BuildPath(s'.tree, e) == p;
      PathsInjective(s.tree, e, v);
      assert false;
    }
  }

  /** A create that goes through locally is new on the server too; only a rolled-back mkdir leaves a trace. */
  lemma MakeAgreed<E>(s: Sys<E>, p: nat, n: string, dir: bool, m: Option<E>, inodeOk: bool)
    requires Agreed(s) && IsName(n)
    ensures var parent := GetByIno(s.tree, p);
            Agreed(Make(s, p, n, dir, m, inodeOk)) <==>
            (dir && parent.Some? && CreateEntry(s.tree, parent.value, n, true, 0, m).1 ==> inodeOk)
  {
    hide WellFormed, Server.ValidTable;
    assert GetByIno(s.tree, p).Some? ==> GetByIno(s.tree, p).value in s.tree.nodes by { GetByInoFacts(s.tree, p); }
    if GetByIno(s.tree, p).Some? {
      var parent := GetByIno(s.tree, p).value;
      var (s1, ok) := CreateEntry(s.tree, parent, n, dir, 0, m);
      if ok {
        LookNothing(s, parent, n);
        MadeIncluded(s, parent, n, dir, m);
        MadeAgreed(s, parent, n, dir, m);
        if !inodeOk { UnmadeAgreed(s, parent, n, dir, m); }
      } else {
        CreateWellFormed(s.tree, parent, n, dir, 0, m);
        SameHeld(s, s1);
      }
    }
  }

  lemma MadeAgreed<E>(s: Sys<E>, parent: E, n: string, dir: bool, m: Option<E>)
    requires Agreed(s) && IsName(n) && CreateEntry(s.tree, parent, n, dir, 0, m).1
    requires FetchPath(s.tree, parent, n) !in s.table
    ensures var t1 := Server.CreateRow(s.table, FetchPath(s.tree, parent, n), TypeName(dir)).0;
            Agreed(Sys(MadeTree(s.tree, parent, n, dir, m, true), t1))
  {
    hide WellFormed, Server.ValidTable, Server.CreateRow;
    var p := FetchPath(s.tree, parent, n);
    var s' := Sys(MadeTree(s.tree, parent, n, dir, m, true), Server.CreateRow(s.table, p, TypeName(dir)).0);
    MadeIncluded(s, parent, n, dir, m);
    CreateReachesServer(s, parent, n, dir);
    MadePaths(s.tree, parent, n, dir, m);
    assert Held(s', p);
    RowsHeld(s, s', {p});
  }

  lemma MadePaths<E>(s: Store<E>, parent: E, n: string, dir: bool, m: Option<E>)
    requires WellFormed(s) && IsName(n) && CreateEntry(s, parent, n, dir, 0, m).1
    ensures var s' := MadeTree(s, parent, n, dir, m, true);
            && WellFormed(s') && s'.nodes.Keys == s.nodes.Keys + {m.value} && s'.root == s.root
            && BuildPath(s', m.value) == FetchPath(s, parent, n)
            && s'.nodes[m.value].children == []
            && forall x {:trigger BuildPath(s', x)} {:trigger BuildPath(s, x)} ::
                 x in s.nodes ==> BuildPath(s', x) == BuildPath(s, x)
  {
    hide WellFormed;
    var s1 := CreateEntry(s, parent, n, dir, 0, m).0;
    CreateWellFormed(s, parent, n, dir, 0, m);
    CreatePaths(s, parent, n, dir, 0, m);
    if dir { SetNlinkPaths(s1, m.value, 2); }
  }

  lemma SetNlinkPaths<E>(s: Store<E>, e: E, k: int)
    requires WellFormed(s) && e in s.nodes
    ensures var s' := SetNlink(s, e, k);
            && WellFormed(s')
            && forall x {:trigger BuildPath(s', x)} :: x in s.nodes ==> BuildPath(s', x) == BuildPath(s, x)
  {
    var s' := SetNlink(s, e, k);
    SetNlinkWellFormed(s, e, k);
    forall x {:trigger BuildPath(s', x)} | x in s'.nodes ensures BuildPath(s', x) == BuildPath(s, x) {
      PathFrame(s', s, x);
    }
  }

  /** Rolling back: a file's row goes with it, a directory's row survives its only delete. */
  lemma UnmadeAgreed<E>(s: Sys<E>, parent: E, n: string, dir: bool, m: Option<E>)
    requires Agreed(s) && IsName(n) && CreateEntry(s.tree, parent, n, dir, 0, m).1
    requires FetchPath(s.tree, parent, n) !in s.table
    ensures var p := FetchPath(s.tree, parent, n);
            var t1 := Server.CreateRow(s.table, p, TypeName(dir)).0;
            Agreed(Sys(MadeTree(s.tree, parent, n, dir, m, false), Server.DeleteRow(t1, p).0)) <==> !dir
  {
    hide WellFormed, Server.ValidTable;
    var p := FetchPath(s.tree, parent, n);
    var s1 := Sys(MadeTree(s.tree, parent, n, dir, m, true), Server.CreateRow(s.table, p, TypeName(dir)).0);
    MadeAgreed(s, parent, n, dir, m);
    MadePaths(s.tree, parent, n, dir, m);
    DeleteAgreed(s1, m.value);
  }

  /** Unlink and rmdir keep agreement exactly when they are refused or the server row had one link left. */
  lemma DropAgreed<E>(s: Sys<E>, p: nat, n: string, dirOnly: bool)
    requires Agreed(s)
    ensures var v := Victim(s.tree, p, n);
            var s' := Drop(s, p, n, dirOnly);
            && (v.Some? ==> v.value in s.tree.nodes && BuildPath(s.tree, v.value) in s.table)
            && (Agreed(s') <==>
                  || v.None? || (dirOnly && !s.tree.nodes[v.value].dir) || s.tree.nodes[v.value].children != []
                  || s.table[BuildPath(s.tree, v.value)].nlink == 1)
  {
    VictimDeleted(s.tree, p, n);
    var v := Victim(s.tree, p, n);
    if v.Some? {
      assert Mirrored(s, v.value);
      if s.tree.nodes[v.value].children != [] { ParentsAreDirectories(s.tree, v.value); }
      if DeleteEntry(s.tree, v.value).1 == OK { DeleteAgreed(s, v.value); }
    }
  }

  /** Unlinking a file always keeps agreement: its row has one link. */
  lemma UnlinkFileAgreed<E>(s: Sys<E>, p: nat, n: string)
    requires Agreed(s) && Victim(s.tree, p, n).Some? && Victim(s.tree, p, n).value in s.tree.nodes
    requires !s.tree.nodes[Victim(s.tree, p, n).value].dir
    ensures Agreed(Drop(s, p, n, false))
  {
    var v := Victim(s.tree, p, n).value;
    var path := BuildPath(s.tree, v);
    assert Mirrored(s, v);
    assert Server.NlinkOk(s.table, path);
    DropAgreed(s, p, n, false);
  }

  lemma PushAgreed<E>(s: Sys<E>, ino: nat, offset: nat, len: nat, first: Option<Bytes>, second: Option<Bytes>)
    requires Agreed(s)
    ensures Agreed(Push(s, ino, offset, len, first, second))
  {
    var s' := Push(s, ino, offset, len, first, second);
    PushIncluded(s, ino, offset, len, first, second);
    RowsHeld(s, s', {});
  }

  /** The calls of an agreeing run: unlink is for files (the VFS sends directories to rmdir), no rmdir, and no
      mkdir that has to be rolled back. */
  ghost predicate Tracked<E>(s: Sys<E>, c: Call<E>) {
    match c
    case LookupCall(_, _, _, _) => true
    case CreateCall(_, _, _, _) => true
    case MkdirCall(_, _, _, inodeOk) => inodeOk
    case UnlinkCall(p, n) =>
      var v := Victim(s.tree, p, n);
      v.Some? && v.value in s.tree.nodes ==> !s.tree.nodes[v.value].dir
    case RmdirCall(_, _) => false
    case WriteCall(_, _, _, _, _) => true
  }

  lemma DoAgreed<E>(s: Sys<E>, c: Call<E>)
    requires Agreed(s) && NameValid(c) && Tracked(s, c)
    ensures Agreed(Do(s, c))
  {
    match c
    case LookupCall(p, n, m, b) => LookAgreed(s, p, n, m, b);
    case CreateCall(p, n, m, i) => MakeAgreed(s, p, n, false, m, i);
    case MkdirCall(p, n, m, i) => MakeAgreed(s, p, n, true, m, i);
    case UnlinkCall(p, n) =>
      VictimDeleted(s.tree, p, n);
      if Victim(s.tree, p, n).Some? { UnlinkFileAgreed(s, p, n); }
    case WriteCall(i, o, l, a, b) => PushAgreed(s, i, o, l, a, b);
  }

  ghost predicate AlwaysTracked<E>(s: Sys<E>, cs: seq<Call<E>>)
    requires WellFormed(s.tree) && forall i :: 0 <= i < |cs| ==> NameValid(cs[i])
    decreases |cs|
  {
    cs == [] || (Tracked(s, cs[0]) && (DoWellFormed(s, cs[0]); AlwaysTracked(Do(s, cs[0]), cs[1..])))
  }

  lemma JointFreshAgreed<E>(root: E)
    ensures Agreed(Sys(FreshStore(root), Server.FreshTable()))
  {
    var s := Sys(FreshStore(root), Server.FreshTable());
    Server.FreshIsValid();
    RemountIncluded(root, Server.FreshTable());
    RootPath(s.tree);
    forall p {:trigger Held(s, p)} | p in s.table ensures Held(s, p) {
      assert BuildPath(s.tree, root) == p;
    }
  }

  /** Exact simulation over every tracked run. */
  lemma {:induction false} RunAgreed<E>(s: Sys<E>, cs: seq<Call<E>>)
    requires Agreed(s) && forall i :: 0 <= i < |cs| ==> NameValid(cs[i])
    requires AlwaysTracked(s, cs)
    ensures Agreed(DoAll(s, cs))
    decreases |cs|
  {
    if cs != [] {
      DoAgreed(s, cs[0]);
      DoWellFormed(s, cs[0]);
      RunAgreed(Do(s, cs[0]), cs[1..]);
    }
  }

  /** From a joint fresh start the two path-to-type maps stay equal. */
  lemma ExactSimulation<E>(root: E, cs: seq<Call<E>>)
    requires forall i :: 0 <= i < |cs| ==> NameValid(cs[i])
    requires AlwaysTracked(Sys(FreshStore(root), Server.FreshTable()), cs)
    ensures var s := DoAll(Sys(FreshStore(root), Server.FreshTable()), cs);
            WellFormed(s.tree) && LocalTypes(s.tree) == ServerTypes(s.table)
  {
    var s0 := Sys(FreshStore(root), Server.FreshTable());
    JointFreshAgreed(root);
    RunAgreed(s0, cs);
    AgreedIsEquality(DoAll(s0, cs));
  }

  // ---------- Calls outside the guards ----------

  /** A create that goes through keeps the inclusion exactly when the server holds no row of the other type. */
  lemma ClashBreaksInclusion<E>(s: Sys<E>, p: nat, n: string, dir: bool, m: Option<E>)
    requires Included(s) && IsName(n) && GetByIno(s.tree, p).Some?
    requires CreateEntry(s.tree, GetByIno(s.tree, p).value, n, dir, 0, m).1
    ensures Included(Make(s, p, n, dir, m, true)) <==>
            NoClash(s, if dir then MkdirCall(p, n, m, true) else CreateCall(p, n, m, true))
  {
    hide WellFormed, Server.ValidTable;
    GetByInoFacts(s.tree, p);
    var parent := GetByIno(s.tree, p).value;
    var path := FetchPath(s.tree, parent, n);
    if NoClash(s, if dir then MkdirCall(p, n, m, true) else CreateCall(p, n, m, true)) {
      MakeIncluded(s, p, n, dir, m, true);
    } else {
      var s' := Make(s, p, n, dir, m, true);
      CreateReachesServer(s, parent, n, dir);
      MadePaths(s.tree, parent, n, dir, m);
      assert path in s'.table && s'.table[path].etype == s.table[path].etype;
      assert s'.tree.nodes[m.value].dir == dir;
      assert !Mirrored(s', m.value);
    }
  }

  /** `vtfs_link` tells the server nothing: it keeps the inclusion exactly when a file row was already there. */
  lemma LinkBreaksInclusion<E>(s: Sys<E>, t: nat, p: nat, n: string, m: Option<E>)
    requires Included(s) && IsName(n) && LinkStep(s.tree, t, p, n, m).1 == OK
    ensures GetByIno(s.tree, p).Some? && GetByIno(s.tree, p).value in s.tree.nodes
    ensures var path := FetchPath(s.tree, GetByIno(s.tree, p).value, n);
            Included(s.(tree := LinkStep(s.tree, t, p, n, m).0)) <==>
            path in s.table && s.table[path].etype == Server.FILE
  {
    GetByInoFacts(s.tree, p);
    GetByInoFacts(s.tree, t);
    var parent, target := GetByIno(s.tree, p).value, GetByIno(s.tree, t).value;
    LinkedIncluded(s, parent, target, n, m);
  }

  lemma LinkedIncluded<E>(s: Sys<E>, parent: E, target: E, n: string, m: Option<E>)
    requires Included(s) && IsName(n) && parent in s.tree.nodes && target in s.tree.nodes && !s.tree.nodes[target].dir
    requires CreateEntry(s.tree, parent, n, false, s.tree.nodes[target].ino, m).1
    ensures var s1 := CreateEntry(s.tree, parent, n, false, s.tree.nodes[target].ino, m).0;
            var path := FetchPath(s.tree, parent, n);
            Included(s.(tree := AddLink(s1, target).0)) <==> path in s.table && s.table[path].etype == Server.FILE
  {
    var s1 := CreateEntry(s.tree, parent, n, false, s.tree.nodes[target].ino, m).0;
    CreateWellFormed(s.tree, parent, n, false, s.tree.nodes[target].ino, m);
    CreateIncluded(s, parent, n, false, s.tree.nodes[target].ino, m, s.table);
    AddLinkWellFormed(s1, target);
    RelinkedIncluded(s.(tree := s1), target);
  }

  lemma RelinkedIncluded<E>(s: Sys<E>, target: E)
    requires WellFormed(s.tree) && Server.ValidTable(s.table) && target in s.tree.nodes
    ensures Included(s.(tree := AddLink(s.tree, target).0)) <==> Included(s)
  {
    hide WellFormed, Server.ValidTable;
    var s' := s.(tree := AddLink(s.tree, target).0);
    AddLinkWellFormed(s.tree, target);
    AddLinkKept(s.tree, target);
    if Included(s) { SameDirsIncluded(s, s'.tree); }
    if Included(s') { SameDirsIncluded(s', s.tree); }
  }
}
