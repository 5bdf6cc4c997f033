/** Reachable runs on which plain readings of the code fail. */
module Witnesses {
  import opened Ascii
  import opened Lists
  import opened Paths
  import opened Tree
  import opened TreePaths
  import opened Sync
  import opened Exact
  import opened FileData
  import opened Inodes
  import Http
  import ReadCodec
  import Server
  import Undo

  // ---------- Kernel and server from a joint fresh start ----------

  ghost function JointFresh<E>(root: E): (s: Sys<E>)
    ensures WellFormed(s.tree)
  {
    FreshIsWellFormed(root);
    Sys(FreshStore(root), Server.FreshTable())
  }

  /** The root directory is there, empty, and its children's paths are a slash and a name. */
  lemma RootFacts<E>(s: Store<E>, n: string)
    requires WellFormed(s)
    ensures s.root in s.nodes && s.nodes[s.root].dir && GetByIno(s, ROOT_INO) == Some(s.root)
    ensures FetchPath(s, s.root, n) == "/" + n
  {
    GetByInoFacts(s, ROOT_INO);
  }

  lemma TypeNames()
    ensures Server.ParseType("dir") == Some(Server.DIR) && Server.ParseType("file") == Some(Server.FILE)
  {
    assert Server.LowerCase("dir") == "dir";
    assert Server.LowerCase("file") == "file";
  }

  /** The tree after a first entry in the root. */
  function FirstTree<E>(root: E, e: E, n: string, dir: bool): Store<E> {
    Store(root, [e, root],
          map[root := Node("/", ROOT_INO, true, if dir then 3 else 2, root, [e]),
              e := Node(n, ROOT_INO + 1, dir, if dir then 2 else 1, root, [])],
          ROOT_INO + 2)
  }

  lemma FirstMade<E>(root: E, e: E, n: string, dir: bool)
    requires e != root
    ensures var s := FreshStore(root);
            && CreateEntry(s, root, n, dir, 0, Some(e)).1
            && MadeTree(s, root, n, dir, Some(e), true) == FirstTree(root, e, n, dir)
  {
    var s := FreshStore(root);
    assert Lookup(s, root, n) == None;
    assert [e] + s.all == [e, root] && [e] + s.nodes[root].children == [e];
    var s' := MadeTree(s, root, n, dir, Some(e), true);
    assert s'.nodes.Keys == {root, e};
    assert s'.nodes == FirstTree(root, e, n, dir).nodes;
  }

  lemma FirstRow(n: string, dir: bool)
    requires IsName(n)
    ensures var t := Server.FreshTable();
            var t' := Server.CreateRow(t, "/" + n, TypeName(dir)).0;
            && ("/" + n) !in t && ("/" + n) in t'
            && t'["/" + n].etype == (if dir then Server.DIR else Server.FILE) && t'["/" + n].nlink == (if dir then 2 else 1)
  {
    TypeNames();
    ParentOfChild([], n);
    assert [] + [n] == [n] && AreNames([n]);
    NormalizeIsCanonical("/" + n);
    hide NormalizePath, ParentPath, IsNormal, IsName, Render, Server.ParseType;
  }

  /** A first mkdir or create in the root goes through on both sides. */
  lemma FirstEntry<E>(root: E, e: E, n: string, dir: bool)
    requires e != root && IsName(n)
    ensures var s := JointFresh(root);
            var s' := Make(s, ROOT_INO, n, dir, Some(e), true);
            && s'.tree == FirstTree(root, e, n, dir) && Agreed(s') && BuildPath(s'.tree, e) == "/" + n
            && ("/" + n) in s'.table && s'.table["/" + n].etype == (if dir then Server.DIR else Server.FILE)
            && s'.table["/" + n].nlink == (if dir then 2 else 1)
  {
    hide WellFormed, Agreed, CreateEntry, MadeTree, GetByIno, FetchPath, Server.CreateRow, Server.FreshTable, FirstTree;
    var s := JointFresh(root);
    JointFreshAgreed(root);
    RootFacts(s.tree, n);
    FirstMade(root, e, n, dir);
    FirstRow(n, dir);
    MakeAgreed(s, ROOT_INO, n, dir, Some(e), true);
    AgreedParts(Make(s, ROOT_INO, n, dir, Some(e), true));
    FirstPath(root, e, n, dir);
  }

  lemma AgreedParts<E>(s: Sys<E>)
    requires Agreed(s)
    ensures Included(s) && WellFormed(s.tree) && Server.ValidTable(s.table)
  {
    hide WellFormed, Server.ValidTable;
  }

  lemma FirstPath<E>(root: E, e: E, n: string, dir: bool)
    requires e != root && IsName(n) && WellFormed(FirstTree(root, e, n, dir))
    ensures BuildPath(FirstTree(root, e, n, dir), e) == "/" + n
  {
  }

  ghost function AfterFirst<E>(root: E, e: E, n: string, dir: bool): (s: Sys<E>)
    requires e != root && IsName(n)
    ensures WellFormed(s.tree)
  {
    FirstEntry(root, e, n, dir);
    AgreedParts(Make(JointFresh(root), ROOT_INO, n, dir, Some(e), true));
    Do(JointFresh(root), if dir then MkdirCall(ROOT_INO, n, Some(e), true) else CreateCall(ROOT_INO, n, Some(e), true))
  }

  /** The entry is the victim of an unlink or rmdir, and deleting it restores the empty tree. */
  lemma FirstVictim<E>(root: E, e: E, n: string, dir: bool)
    requires e != root && IsName(n)
    ensures var t := FirstTree(root, e, n, dir);
            && Victim(t, ROOT_INO, n) == Some(e)
            && DeleteEntry(t, e) == (FreshStore(root).(nextIno := ROOT_INO + 2), OK)
  {
    FreshIsWellFormed(root);
    FirstMade(root, e, n, dir);
    Undo.DeleteUndoesCreate(FreshStore(root), root, n, dir, Some(e), 2);
    var t := FirstTree(root, e, n, dir);
    assert t.all[1..] == [root] && t.nodes[root].children == [e];
    assert FindIno(t.nodes, t.all, ROOT_INO) == FindIno(t.nodes, t.all[1..], ROOT_INO);
  }

  /** mkdir n, rmdir n: the entry is gone, the server keeps the directory row, and agreement is lost. */
  lemma RmdirLeavesRow<E>(root: E, e: E, n: string)
    requires e != root && IsName(n)
    ensures var s := Do(AfterFirst(root, e, n, true), RmdirCall(ROOT_INO, n));
            && s.tree == FreshStore(root).(nextIno := ROOT_INO + 2)
            && ("/" + n) in s.table && s.table["/" + n].etype == Server.DIR
            && Included(s) && !Agreed(s)
  {
    hide WellFormed, Agreed, Included, Server.ValidTable, FirstTree, FreshStore, Victim, DeleteEntry, NormalizePath,
         Server.CreateRow, Server.DeleteRow, Make, FetchPath;
    FirstEntry(root, e, n, true);
    FirstVictim(root, e, n, true);
    var s1 := AfterFirst(root, e, n, true);
    AgreedParts(s1);
    VictimIsDirectory(root, e, n);
    NormalBuildPath(s1.tree, e);
    RowSurvives(s1.table, "/" + n);
    DropAgreed(s1, ROOT_INO, n, true);
    DropIncluded(s1, ROOT_INO, n, true);
  }

  lemma RowSurvives(t: Server.Table, p: string)
    requires NormalizePath(p) == p && p in t && t[p].nlink == 2
    ensures var t' := Server.DeleteRow(t, p).0; p in t' && t'[p].etype == t[p].etype
  {
    hide NormalizePath;
  }

  lemma VictimIsDirectory<E>(root: E, e: E, n: string)
    requires e != root
    ensures var t := FirstTree(root, e, n, true); e in t.nodes && e != t.root && t.nodes[e].dir && t.nodes[e].children == []
  {
  }

  /** mkdir n, rmdir n, create n without a new lookup: a local file over a server directory. */
  lemma CreateAfterRmdir<E>(root: E, e: E, f: E, n: string)
    requires e != root && f != root && IsName(n)
    ensures var s := Do(AfterFirst(root, e, n, true), RmdirCall(ROOT_INO, n));
            && WellFormed(s.tree)
            && !Included(Do(s, CreateCall(ROOT_INO, n, Some(f), true)))
  {
    RmdirLeavesRow(root, e, n);
    hide WellFormed, Server.ValidTable;
    var s := Do(AfterFirst(root, e, n, true), RmdirCall(ROOT_INO, n));
    FreshIsWellFormed(root);
    EmptyRoot(root, f, n, ROOT_INO + 2);
    RootFacts(s.tree, n);
    ClashBreaksInclusion(s, ROOT_INO, n, false, Some(f));
  }

  lemma EmptyRoot<E>(root: E, f: E, n: string, next: nat)
    requires f != root
    ensures CreateEntry(FreshStore(root).(nextIno := next), root, n, false, 0, Some(f)).1
  {
  }

  /** create a, link b: the server never hears of b. */
  lemma LinkStaysLocal<E>(root: E, e: E, f: E, a: string, b: string)
    requires e != root && f != root && f != e && IsName(a) && IsName(b) && a != b
    ensures var s := AfterFirst(root, e, a, false);
            && LinkStep(s.tree, ROOT_INO + 1, ROOT_INO, b, Some(f)).1 == OK
            && !Included(s.(tree := LinkStep(s.tree, ROOT_INO + 1, ROOT_INO, b, Some(f)).0))
  {
    FirstEntry(root, e, a, false);
    hide WellFormed, Server.ValidTable;
    var s := AfterFirst(root, e, a, false);
    AgreedParts(s);
    FirstLink(root, e, f, a, b);
    RootFacts(s.tree, b);
    LinkBreaksInclusion(s, ROOT_INO + 1, ROOT_INO, b, Some(f));
    if ("/" + b) in s.table {
      assert Held(s, "/" + b);
      NotHeld(root, e, a, b);
    }
  }

  lemma FirstLink<E>(root: E, e: E, f: E, a: string, b: string)
    requires e != root && f != root && f != e && a != b
    ensures LinkStep(FirstTree(root, e, a, false), ROOT_INO + 1, ROOT_INO, b, Some(f)).1 == OK
  {
    var t := FirstTree(root, e, a, false);
    assert t.all[1..] == [root] && t.nodes[root].children == [e] && [e][1..] == [];
    assert FindIno(t.nodes, t.all, ROOT_INO) == FindIno(t.nodes, t.all[1..], ROOT_INO);
    assert GetByIno(t, ROOT_INO) == Some(root) && GetByIno(t, ROOT_INO + 1) == Some(e);
    assert Lookup(t, root, b) == FindName(t.nodes, [e][1..], b);
  }

  lemma NotHeld<E>(root: E, e: E, a: string, b: string)
    requires e != root && IsName(a) && IsName(b) && a != b && WellFormed(FirstTree(root, e, a, false))
    ensures forall x :: x in FirstTree(root, e, a, false).nodes ==> BuildPath(FirstTree(root, e, a, false), x) != "/" + b
  {
    FirstPath(root, e, a, false);
    var p, q := "/" + a, "/" + b;
    assert p[1..] == a && q[1..] == b;
    assert b != "" && q != "/" by { assert |q| > 1; }
  }

  // ---------- File contents from a fresh mount ----------

  const INO: nat := ROOT_INO + 1

  /** create n. */
  ghost function OneFile<E, B>(root: E, a: E, n: string): (fs: Fs<E, B>)
    requires a != root && IsName(n)
    ensures Ok(fs)
  {
    hide Ok;
    FreshIsOk<E, B>(root);
    MakeOk(FreshState<E, B>(root), Create(ROOT_INO, n, Some(a), true));
    FsStep(FreshState<E, B>(root), Create(ROOT_INO, n, Some(a), true))
  }

  lemma OneFileIs<E, B>(root: E, a: E, n: string)
    requires a != root && IsName(n)
    ensures var fs := OneFile<E, B>(root, a, n);
            && fs.tree == FirstTree(root, a, n, false) && fs.bufs == map[]
            && fs.files == map[root := FileRec(None, 0, 0), a := FileRec(None, 0, 0)]
  {
    hide Ok;
    FirstMade(root, a, n, false);
    var fs := OneFile<E, B>(root, a, n);
    assert Step(FreshStore(root), Create(ROOT_INO, n, Some(a), true)) == FirstTree(root, a, n, false);
    assert fs.files.Keys == {root, a};
  }

  /** create n, then write one byte into memory that holds some junk. */
  ghost function OneByte<E, B>(root: E, a: E, n: string, x: bv8, buf: B, junk: Bytes): (fs: Fs<E, B>)
    requires a != root && IsName(n)
    ensures Ok(fs)
  {
    hide Ok, FsWrite;
    WriteOk(OneFile<E, B>(root, a, n), INO, 0, [x], Some(buf), junk);
    FsWrite(OneFile<E, B>(root, a, n), INO, 0, [x], Some(buf), junk).0
  }

  /** The first buffer: the byte, then what the memory held. */
  function FirstBuffer(x: bv8, junk: Bytes): (b: Bytes)
    ensures |b| == 64 && b[0] == x && forall k :: 1 <= k < 64 && k < |junk| ==> b[k] == junk[k]
  {
    [x] + Fit(junk, 64)[1..]
  }

  lemma GrownFirst(x: bv8, junk: Bytes)
    ensures NewCapacity(0, 1) == 64
    ensures Overlaid(Regrown([], 0, 0, 64, Fit(junk, 64)), 0, [x]) == FirstBuffer(x, junk)
  {
    hide Fit;
    var w := Fit(junk, 64);
    assert [] + w == w;
  }

  lemma FirstWrite<E, B>(fs: Fs<E, B>, a: E, x: bv8, buf: B, junk: Bytes)
    requires a in fs.tree.nodes && !fs.tree.nodes[a].dir && a in fs.files && fs.files[a] == FileRec(None, 0, 0)
    requires fs.bufs == map[]
    ensures WriteEntry(fs, a, 0, [x], Some(buf), junk) ==
            (Fs(fs.tree, fs.files[a := FileRec(Some(buf), 1, 64)], map[buf := FirstBuffer(x, junk)]), OK)
  {
    hide Fit, Regrown, Overlaid, FirstBuffer, NewCapacity;
    GrownFirst(x, junk);
  }

  lemma OneByteIs<E, B>(root: E, a: E, n: string, x: bv8, buf: B, junk: Bytes)
    requires a != root && IsName(n)
    ensures var fs := OneByte(root, a, n, x, buf, junk);
            && fs.tree == FirstTree(root, a, n, false) && fs.bufs == map[buf := FirstBuffer(x, junk)]
            && fs.files == map[root := FileRec(None, 0, 0), a := FileRec(Some(buf), 1, 64)]
  {
    hide Ok, OneFile, WriteEntry, GetByIno, FirstBuffer;
    OneFileIs<E, B>(root, a, n);
    var fs := OneFile<E, B>(root, a, n);
    FirstInode(fs.tree, root, a, n);
    FirstWrite(fs, a, x, buf, junk);
  }

  lemma FirstInode<E>(t: Store<E>, root: E, a: E, n: string)
    requires a != root && t == FirstTree(root, a, n, false)
    ensures GetByIno(t, INO) == Some(a) && INO in FileInos(t) && a in t.nodes && !t.nodes[a].dir
  {
    assert t.nodes[a].ino == INO && !t.nodes[a].dir;
  }

  lemma OneByteFacts<E, B>(root: E, a: E, n: string, x: bv8, buf: B, junk: Bytes)
    requires a != root && IsName(n)
    ensures var fs := OneByte(root, a, n, x, buf, junk);
            && GetByIno(fs.tree, INO) == Some(a) && HeadRec(fs, INO) == FileRec(Some(buf), 1, 64)
            && INO in FileInos(fs.tree) && Content(fs, INO) == [x] && Buffer(fs, HeadRec(fs, INO)) == FirstBuffer(x, junk)
  {
    hide Ok, OneByte, GetByIno;
    OneByteIs(root, a, n, x, buf, junk);
    FirstInode(OneByte(root, a, n, x, buf, junk).tree, root, a, n);
  }

  /** A write past the end that stays within the buffer shows what the memory held before. */
  lemma StaleGap<E, B>(root: E, a: E, n: string, buf: B)
    requires a != root && IsName(n)
    ensures var fs := OneByte(root, a, n, 1, buf, [9, 9]);
            var (fs', err) := FsWrite(fs, INO, 2, [3], None, []);
            && err == OK && Content(fs', INO) == [1, 9, 3] && Splice(Content(fs, INO), 2, [3]) == [1, 0, 3]
  {
    hide Ok, FsWrite, OneByte, HeadRec, Content, FirstBuffer, FileInos;
    var fs := OneByte(root, a, n, 1, buf, [9, 9]);
    OneByteFacts(root, a, n, 1, buf, [9, 9]);
    WriteSucceeds(fs, INO, 2, [3], None, []);
    WriteOk(fs, INO, 2, [3], None, []);
    assert GapBytes(fs, INO, 2, 1) == [9];
    assert GapSplice([1], [9], 2, [3]) == [1, 9, 3];
    assert Server.Zeros(1) == [0];
    assert Splice([1], 2, [3]) == [1, 0, 3];
  }

  /** The tree after create n and link m. */
  function LinkedTree<E>(root: E, a: E, b: E, n: string, m: string): Store<E> {
    Store(root, [b, a, root],
          map[root := Node("/", ROOT_INO, true, 2, root, [b, a]),
              a := Node(n, INO, false, 2, root, []),
              b := Node(m, INO, false, 2, root, [])],
          ROOT_INO + 2)
  }

  lemma LinkMakes<E>(root: E, a: E, b: E, n: string, m: string)
    requires a != root && b != root && a != b && n != m
    ensures LinkStep(FirstTree(root, a, n, false), INO, ROOT_INO, m, Some(b)) == (LinkedTree(root, a, b, n, m), OK)
  {
    var t := FirstTree(root, a, n, false);
    FirstLink(root, a, b, n, m);
    assert t.all[1..] == [root] && FindIno(t.nodes, t.all, ROOT_INO) == FindIno(t.nodes, t.all[1..], ROOT_INO);
    assert GetByIno(t, ROOT_INO) == Some(root) && GetByIno(t, INO) == Some(a);
    assert [b] + t.all == [b, a, root] && [b] + t.nodes[root].children == [b, a];
    assert LinkStep(t, INO, ROOT_INO, m, Some(b)).0.nodes == LinkedTree(root, a, b, n, m).nodes;
  }

  lemma LinkedNames<E>(root: E, a: E, b: E, n: string, m: string)
    requires a != root && b != root && a != b && WellFormed(LinkedTree(root, a, b, n, m))
    ensures var t := LinkedTree(root, a, b, n, m);
            && GetByIno(t, INO) == Some(b) && Victim(t, ROOT_INO, m) == Some(b)
            && DeleteEntry(t, b).1 == OK && GetByIno(DeleteEntry(t, b).0, INO) == Some(a)
  {
    var t := LinkedTree(root, a, b, n, m);
    GetByInoFacts(t, ROOT_INO);
    LookupFacts(t, root, m);
    DeletedHeads(t, b);
    hide WellFormed;
    var t' := DeleteEntry(t, b).0;
    assert t'.nodes[a].ino == INO && t'.nodes[root].ino == ROOT_INO;
  }

  function TwoNames<E, B>(root: E, a: E, b: E, n: string, m: string, buf: B, size: nat, bytes: Bytes): Fs<E, B> {
    var r: FileRec<B> := FileRec(Some(buf), 1, 64);
    Fs(LinkedTree(root, a, b, n, m), map[root := FileRec(None, 0, 0), a := r, b := r.(size := size)], map[buf := bytes])
  }

  /** create n, write a byte, link m. */
  lemma LinkedState<E, B>(root: E, a: E, b: E, n: string, m: string, buf: B)
    requires a != root && b != root && a != b && IsName(n) && IsName(m) && n != m
    ensures FsLink(OneByte(root, a, n, 1, buf, []), INO, ROOT_INO, m, Some(b)) ==
            TwoNames(root, a, b, n, m, buf, 1, FirstBuffer(1, []))
  {
    hide Ok, WellFormed, OneByte, FirstBuffer, LinkStep, GetByIno;
    var fs := OneByte(root, a, n, 1, buf, []);
    OneByteIs(root, a, n, 1, buf, []);
    FirstInode(fs.tree, root, a, n);
    LinkMakes(root, a, b, n, m);
    assert FsLink(fs, INO, ROOT_INO, m, Some(b)).files == TwoNames(root, a, b, n, m, buf, 1, FirstBuffer(1, [])).files;
  }

  /** Another byte, through the inode: only the newest name records it. */
  lemma ExtendedState<E, B>(root: E, a: E, b: E, n: string, m: string, buf: B, bytes: Bytes)
    requires a != root && b != root && a != b && |bytes| == 64
    requires var fs := TwoNames(root, a, b, n, m, buf, 1, bytes); Ok(fs) && GetByIno(fs.tree, INO) == Some(b)
    ensures var fs := TwoNames(root, a, b, n, m, buf, 1, bytes);
            FsWrite(fs, INO, 1, [2], None, []) == (TwoNames(root, a, b, n, m, buf, 2, Overlaid(bytes, 1, [2])), OK)
  {
    hide Ok, WellFormed, GetByIno, Overlaid;
    var fs := TwoNames(root, a, b, n, m, buf, 1, bytes);
    var fs' := TwoNames(root, a, b, n, m, buf, 2, Overlaid(bytes, 1, [2]));
    assert fs.files[b := FileRec(Some(buf), 2, 64)] == fs'.files;
    assert fs.bufs[buf := Overlaid(bytes, 1, [2])] == fs'.bufs;
  }

  /** Unlinking the newest name leaves the older name's record, which never learned of the second byte. */
  lemma ShrunkState<E, B>(root: E, a: E, b: E, n: string, m: string, buf: B, bytes: Bytes)
    requires a != root && b != root && a != b && |bytes| == 64 && WellFormed(LinkedTree(root, a, b, n, m))
    ensures var fs := TwoNames(root, a, b, n, m, buf, 2, bytes);
            var fs' := FsUnlink(fs, ROOT_INO, m);
            && Content(fs, INO) == bytes[..2] && Content(fs', INO) == bytes[..1] && INO in FileInos(fs'.tree)
  {
    hide WellFormed, GetByIno, Victim;
    LinkedNames(root, a, b, n, m);
    var fs := TwoNames(root, a, b, n, m, buf, 2, bytes);
    var fs' := FsUnlink(fs, ROOT_INO, m);
    assert HeadRec(fs', INO) == FileRec(Some(buf), 1, 64) && fs'.bufs == fs.bufs;
    assert fs'.tree.nodes[a].ino == INO && !fs'.tree.nodes[a].dir;
  }

  /** create n, write a byte, link m, write another byte, unlink m: the file has lost the second byte. */
  lemma UnlinkLosesBytes<E, B>(root: E, a: E, b: E, n: string, m: string, buf: B)
    requires a != root && b != root && a != b && IsName(n) && IsName(m) && n != m
    ensures var fs2 := FsLink(OneByte(root, a, n, 1, buf, []), INO, ROOT_INO, m, Some(b));
            Ok(fs2)
            && var (fs3, err) := FsWrite(fs2, INO, 1, [2], None, []);
               var fs4 := FsUnlink(fs3, ROOT_INO, m);
               && err == OK && Content(fs3, INO) == [1, 2]
               && INO in FileInos(fs4.tree) && Content(fs4, INO) == [1]
  {
    hide Ok, FsWrite, WellFormed, OneByte, TwoNames, LinkedTree, FsLink, FsUnlink;
    LinkOk(OneByte(root, a, n, 1, buf, []), INO, ROOT_INO, m, Some(b));
    LinkedState(root, a, b, n, m, buf);
    OkTree(root, a, b, n, m, buf, FirstBuffer(1, []));
    LinkedNames(root, a, b, n, m);
    ExtendedState(root, a, b, n, m, buf, FirstBuffer(1, []));
    var bytes := Overlaid(FirstBuffer(1, []), 1, [2]);
    ShrunkState(root, a, b, n, m, buf, bytes);
    assert bytes[..2] == [1, 2] && bytes[..1] == [1];
  }

  lemma OkTree<E, B>(root: E, a: E, b: E, n: string, m: string, buf: B, bytes: Bytes)
    requires Ok(TwoNames(root, a, b, n, m, buf, 1, bytes))
    ensures WellFormed(LinkedTree(root, a, b, n, m))
    ensures TwoNames(root, a, b, n, m, buf, 1, bytes).tree == LinkedTree(root, a, b, n, m)
  {
  }

  // ---------- The server's table and the wire ----------

  /** create, write two bytes, write one byte at offset 0: the server forgets the second byte. */
  lemma ShortWrite(n: string)
    requires IsName(n)
    ensures var t1 := Server.CreateRow(Server.FreshTable(), "/" + n, "file").0;
            var t2 := Server.WriteRow(t1, "/" + n, 0, [1, 2]).0;
            var t3 := Server.WriteRow(t2, "/" + n, 0, [3]).0;
            && Server.ReadRow(t2, "/" + n, 0, None) == Server.Success([1, 2])
            && Server.ReadRow(t3, "/" + n, 0, None) == Server.Success([3, 0])
            && Splice([1, 2], 0, [3]) == [3, 2]
  {
    hide NormalizePath, Server.CreateRow, IsName, Server.Patched;
    FirstRow(n, false);
    NoDataYet(n);
    var p := "/" + n;
    var t1 := Server.CreateRow(Server.FreshTable(), p, "file").0;
    ShortPatches();
    OverwrittenRow(t1, p, 0, [1, 2], [1, 2]);
    OverwrittenRow(Server.WriteRow(t1, p, 0, [1, 2]).0, p, 0, [3], [3, 0]);
  }

  /** create, write two bytes, write the second one again: the first push of the last write replaces the first byte. */
  lemma SecondByte(n: string)
    requires IsName(n)
    ensures var t1 := Server.CreateRow(Server.FreshTable(), "/" + n, "file").0;
            var t2 := Deliver(Deliver(t1, "/" + n, 0, Some([1, 2])), "/" + n, 0, Some([1, 2]));
            var t3 := Deliver(Deliver(t2, "/" + n, 0, Some([3])), "/" + n, 1, Some([3]));
            && Server.ReadRow(t2, "/" + n, 0, None) == Server.Success([1, 2])
            && Server.ReadRow(t3, "/" + n, 0, None) == Server.Success([3, 3])
            && Splice([1, 2], 1, [3]) == [1, 3]
  {
    hide NormalizePath, Server.CreateRow, IsName, Server.Patched, Server.WriteRow, Server.ReadRow;
    FirstRow(n, false);
    NoDataYet(n);
    var p := "/" + n;
    var t1 := Server.CreateRow(Server.FreshTable(), p, "file").0;
    ShortPatches();
    OverwrittenRow(t1, p, 0, [1, 2], [1, 2]);
    var u := Server.WriteRow(t1, p, 0, [1, 2]).0;
    OverwrittenRow(u, p, 0, [1, 2], [1, 2]);
    var t2 := Server.WriteRow(u, p, 0, [1, 2]).0;
    OverwrittenRow(t2, p, 0, [3], [3, 0]);
    OverwrittenRow(Server.WriteRow(t2, p, 0, [3]).0, p, 1, [3], [3, 3]);
  }

  lemma ShortPatches()
    ensures Server.Patched([], 0, [1, 2]) == [1, 2] && Server.Patched([1, 2], 0, [3]) == [3, 0]
    ensures Server.Patched([1, 2], 0, [1, 2]) == [1, 2] && Server.Patched([3, 0], 1, [3]) == [3, 3]
    ensures Splice([1, 2], 0, [3]) == [3, 2] && Splice([1, 2], 1, [3]) == [1, 3]
  {
  }

  lemma OverwrittenRow(t: Server.Table, p: string, offset: nat, data: Bytes, all: Bytes)
    requires NormalizePath(p) == p && p in t && t[p].etype == Server.FILE
    requires Server.Patched(Server.DataOf(t[p].data), offset, data) == all
    ensures var t' := Server.WriteRow(t, p, offset, data).0;
            p in t' && t'[p] == t[p].(data := Some(all)) && Server.ReadRow(t', p, 0, None) == Server.Success(all)
  {
    hide NormalizePath, Server.Patched;
    assert all[0..|all|] == all;
  }

  lemma NoDataYet(n: string)
    requires IsName(n)
    ensures var t := Server.CreateRow(Server.FreshTable(), "/" + n, "file").0; ("/" + n) in t && t["/" + n].data == None
    ensures NormalizePath("/" + n) == "/" + n
  {
    FirstRow(n, false);
    ParentOfChild([], n);
    assert Render([] + [n]) == "/" + n;
    NormalizeIsCanonical("/" + n);
  }

  /** Good heads exist: a status line and the header that announces chunks. */
  lemma HeadIsTaken()
    ensures ReadCodec.IsHead("HTTP/1.1 200 \r\n" + ReadCodec.CHUNKED)
  {
    var line := "HTTP/1.1 200 \r\n";
    var head := line + ReadCodec.CHUNKED;
    var h := head + "\r\n\r\n";
    ReadCodec.MarkerChars();
    hide ReadCodec.CHUNKED;
    forall k | 0 <= k < 41 ensures !Http.Matches(h, k, "\r\n\r\n") {
      assert k == 13 ==> h[k + 2] == ReadCodec.CHUNKED[0];
      assert k < 15 ==> h[k] == line[k];
      assert k >= 15 ==> h[k] == ReadCodec.CHUNKED[k - 15];
      ReadCodec.Mismatch(h, k, "\r\n\r\n", if k == 13 then 2 else 0);
    }
    Http.StrStrIs(h, 0, "\r\n\r\n", 41);
    assert Http.Matches(head, 15, ReadCodec.CHUNKED);
    assert DIGITS[2] == '2' && DIGITS[0] == '0';
    assert ReadCodec.StatusLine(2, 0, 0) == line[..13] == head[..13];
  }

  /** A chunk that is one newline: the decoder takes it for the line end. */
  lemma NewlineChunk(room: nat)
    requires room > 0
    ensures var cs := [Http.Chunk("1", "\n")];
            && Http.AreChunks(cs) && Http.Frame(cs) == "1\r\n\n\r\n0\r\n\r\n" && Http.Payload(cs) == "\n"
            && Http.Unchunk(Http.Frame(cs), 0, room) != "\n"
  {
    var cs := [Http.Chunk("1", "\n")];
    NewlineFrame();
    hide Http.Unchunk, Http.Frame, Http.AreChunks, Http.Payload;
    var f := Http.Frame(cs);
    assert f[0..|f|] == f;
    Http.UnchunkFrame(f, 0, cs, room);
  }

  lemma NewlineFrame()
    ensures var cs := [Http.Chunk("1", "\n")];
            && Http.AreChunks(cs) && Http.Frame(cs) == "1\r\n\n\r\n0\r\n\r\n" && Http.Payload(cs) == "\n"
            && forall room: nat | room > 0 :: !Http.NoneSwallowed(cs, room)
  {
    var cs := [Http.Chunk("1", "\n")];
    assert cs[1..] == [];
    assert Http.HexDigit('1') == Some(1);
    assert "1"[..0] == "";
    assert Http.HexValue("1") == 1;
    assert Http.Payload(cs) == "\n" + "";
  }
}
