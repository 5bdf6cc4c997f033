/** The server's flat, path-keyed table (FileSystemService.kt): operations and table invariant. */
module Server {
  import opened Lists
  import opened Paths

  const ROOT_INO: int := 1000

  datatype EntryType = FILE | DIR

  datatype Row = Row(ino: int, etype: EntryType, nlink: int, data: Option<seq<bv8>>, parentPath: Option<string>)

  type Table = map<string, Row>

  datatype Result<+T> = Success(data: T) | Error(code: string)

  // ---------- Operations ----------

  function FreshTable(): Table {
    map["/" := Row(ROOT_INO, DIR, 2, None, None)]
  }

  ghost predicate IsTopIno(t: Table, m: int) {
    (exists p :: p in t && t[p].ino == m) && (forall p :: p in t ==> t[p].ino <= m)
  }

  lemma {:induction false} TopInoExists(t: Table)
    requires t != map[]
    ensures exists m :: IsTopIno(t, m)
  {
    var p :| p in t;
    var rest := t - {p};
    if rest == map[] {
      assert forall q :: q in t ==> q == p || q in rest;
      assert IsTopIno(t, t[p].ino);
    } else {
      TopInoExists(rest);
      var m :| IsTopIno(rest, m);
      assert t.Keys == rest.Keys + {p};
      var q :| q in rest && rest[q].ino == m;
      assert t[q].ino == m;
      assert IsTopIno(t, if m < t[p].ino then t[p].ino else m);
    }
  }

  /** `getNextIno`: one above the largest number in the table; a deleted maximum is handed out again. */
  ghost function NextIno(t: Table): int {
    if t == map[] then ROOT_INO + 1
    else
      TopInoExists(t);
      var m :| IsTopIno(t, m);
      m + 1
  }

  function Lower(c: char): char {
    if 'A' <= c <= 'Z' then c - 'A' + 'a' else c
  }

  function LowerCase(s: string): string {
    seq(|s|, i requires 0 <= i < |s| => Lower(s[i]))
  }

  function ParseType(s: string): Option<EntryType> {
    if LowerCase(s) == "file" then Some(FILE) else if LowerCase(s) == "dir" then Some(DIR) else None
  }

  ghost function CreateRow(t: Table, path: string, entryType: string): (Table, Result<int>) {
    var p := NormalizePath(path);
    var parent := ParentPath(p);
    if p in t then (t, Error("EEXIST"))
    else if parent !in t then (t, Error("ENOENT"))
    else if t[parent].etype != DIR then (t, Error("ENOTDIR"))
    else
      match ParseType(entryType)
      case None => (t, Error("EINVAL"))
      case Some(ty) =>
        var row := Row(NextIno(t), ty, if ty == DIR then 2 else 1, None, Some(parent));
        var up := if ty == DIR then t[parent].(nlink := t[parent].nlink + 1) else t[parent];
        (t[parent := up][p := row], Success(row.ino))
  }

  ghost predicate HasChildren(t: Table, p: string) {
    exists q :: q in t && t[q].parentPath == Some(p)
  }

  ghost function DeleteRow(t: Table, path: string): (Table, Result<string>) {
    var p := NormalizePath(path);
    if p == "/" then (t, Error("EBUSY"))
    else if p !in t then (t, Error("ENOENT"))
    else if t[p].etype == DIR && HasChildren(t, p) then (t, Error("ENOTEMPTY"))
    else if t[p].nlink - 1 != 0 then (t[p := t[p].(nlink := t[p].nlink - 1)], Success(p))
    else
      var up := match t[p].parentPath case None => "/" case Some(q) => q;
      var t1 := if up in t && t[p].etype == DIR then t[up := t[up].(nlink := t[up].nlink - 1)] else t;
      (t1 - {p}, Success(p))
  }

  function Stat(t: Table, path: string): Result<EntryType> {
    var p := NormalizePath(path);
    if p in t then Success(t[p].etype) else Error("ENOENT")
  }

  function DataOf(data: Option<seq<bv8>>): seq<bv8> {
    match data case None => [] case Some(b) => b
  }

  function Zeros(n: nat): seq<bv8> {
    seq(n, i => 0)
  }

  /** The array that `write` assembles from the old content and the new bytes. */
  function Patched(cur: seq<bv8>, offset: nat, data: seq<bv8>): seq<bv8> {
    var size := if offset + |data| > |cur| then offset + |data| else |cur|;
    if offset == 0 then data + Zeros(size - |data|)
    else
      var head := if |cur| < offset then cur + Zeros(offset - |cur|) else cur[..offset];
      var tail := if offset + |data| < |cur| then cur[offset + |data|..] else [];
      head + data + tail
  }

  function WriteRow(t: Table, path: string, offset: nat, data: seq<bv8>): (Table, Result<nat>) {
    var p := NormalizePath(path);
    if p !in t then (t, Error("ENOENT"))
    else if t[p].etype != FILE then (t, Error("EISDIR"))
    else (t[p := t[p].(data := Some(Patched(DataOf(t[p].data), offset, data)))], Success(|data|))
  }

  function ReadRow(t: Table, path: string, offset: nat, size: Option<nat>): Result<seq<bv8>> {
    var p := NormalizePath(path);
    if p !in t then Error("ENOENT")
    else if t[p].etype != FILE then Error("EISDIR")
    else
      var data := DataOf(t[p].data);
      if offset >= |data| then Success([])
      else
        var end := if size.Some? && offset + size.value < |data| then offset + size.value else |data|;
        Success(data[offset..end])
  }

  // ---------- The table invariant ----------

  ghost function SubdirRows(t: Table, p: string): set<string> {
    set q | q in t && t[q].parentPath == Some(p) && t[q].etype == DIR
  }

  ghost predicate HangsBelow(t: Table, p: string)
    requires p in t
  {
    && IsNormal(p) && t[p].parentPath == Some(ParentPath(p))
    && ParentPath(p) in t && t[ParentPath(p)].etype == DIR
  }

  /** Every non-root row is canonical and hangs below a present directory row. */
  ghost predicate Rooted(t: Table) {
    && "/" in t && t["/"].etype == DIR && t["/"].parentPath == None
    && forall p {:trigger HangsBelow(t, p)} :: p in t && p != "/" ==> HangsBelow(t, p)
  }

  ghost predicate Numbered(t: Table) {
    forall p, q {:trigger t[p].ino, t[q].ino} :: p in t && q in t && t[p].ino == t[q].ino ==> p == q
  }

  /** Files have one link; the root 2 plus its subdirectories; any other directory may lag by one, since a
      first delete of an empty directory only takes one of its two links. */
  ghost predicate NlinkOk(t: Table, p: string)
    requires p in t
  {
    var subs := |SubdirRows(t, p)|;
    if t[p].etype == FILE then t[p].nlink == 1
    else if p == "/" then t[p].nlink == 2 + subs
    else 1 + subs <= t[p].nlink <= 2 + subs
  }

  ghost predicate Counted(t: Table) {
    forall p {:trigger NlinkOk(t, p)} :: p in t ==> NlinkOk(t, p)
  }

  ghost predicate ValidTable(t: Table) {
    Rooted(t) && Numbered(t) && Counted(t)
  }

  lemma FreshIsValid()
    ensures ValidTable(FreshTable())
    ensures FreshTable().Keys == {"/"} && FreshTable()["/"].ino == 1000
  {
    var t := FreshTable();
    assert SubdirRows(t, "/") == {};
  }

  /** The next number is one above the largest in the table, or above the root's when there is none. */
  lemma NextInoIsNew(t: Table)
    ensures forall p {:trigger t[p].ino} :: p in t ==> t[p].ino < NextIno(t)
    ensures if t == map[] then NextIno(t) == 1001 else exists p :: p in t && t[p].ino == NextIno(t) - 1
  {
    if t != map[] { TopInoExists(t); }
  }

  lemma CreateShape(t: Table, path: string, entryType: string)
    requires ValidTable(t) && CreateRow(t, path, entryType).1.Success?
    ensures Rooted(CreateRow(t, path, entryType).0) && Numbered(CreateRow(t, path, entryType).0)
  {
    var p := NormalizePath(path);
    NormalizeIsCanonical(path);
    NextInoIsNew(t);
    var t' := CreateRow(t, path, entryType).0;
    assert forall q {:trigger t'[q].ino} :: q in t && q != p ==> t'[q].ino == t[q].ino;
    forall q {:trigger HangsBelow(t', q)} | q in t' && q != "/" ensures HangsBelow(t', q) {
      if q != p { assert HangsBelow(t, q); }
    }
  }

  lemma NoRowsBelow(t: Table, p: string)
    requires Rooted(t) && p !in t
    ensures SubdirRows(t, p) == {}
  {
    forall q | q in t ensures t[q].parentPath != Some(p) {
      if q != "/" { assert HangsBelow(t, q); }
    }
  }

  lemma CreateSubdirs(t: Table, path: string, entryType: string, q: string)
    requires Rooted(t) && CreateRow(t, path, entryType).1.Success?
    ensures var t' := CreateRow(t, path, entryType).0;
            var p := NormalizePath(path);
            SubdirRows(t', q) == SubdirRows(t, q) + (if t'[p].etype == DIR && q == ParentPath(p) then {p} else {})
  {
  }

  lemma CreateCounted(t: Table, path: string, entryType: string)
    requires ValidTable(t) && CreateRow(t, path, entryType).1.Success?
    ensures Counted(CreateRow(t, path, entryType).0)
  {
    var p := NormalizePath(path);
    var t' := CreateRow(t, path, entryType).0;
    NoRowsBelow(t, p);
    forall q {:trigger NlinkOk(t', q)} | q in t' ensures NlinkOk(t', q) {
      CreateSubdirs(t, path, entryType, q);
      if q != p { assert NlinkOk(t, q); }
    }
  }

  lemma DeleteShape(t: Table, path: string)
    requires ValidTable(t)
    ensures Rooted(DeleteRow(t, path).0) && Numbered(DeleteRow(t, path).0)
  {
    var p := NormalizePath(path);
    var t' := DeleteRow(t, path).0;
    if p != "/" && p in t { assert NlinkOk(t, p); }
    assert forall q {:trigger t'[q].ino} :: q in t' ==> t'[q].ino == t[q].ino;
    forall q {:trigger HangsBelow(t', q)} | q in t' && q != "/" ensures HangsBelow(t', q) {
      assert HangsBelow(t, q);
      assert t[q].parentPath == Some(p) ==> HasChildren(t, p);
    }
  }

  lemma DeleteSubdirs(t: Table, path: string, q: string)
    requires Rooted(t)
    ensures var t' := DeleteRow(t, path).0;
            var p := NormalizePath(path);
            SubdirRows(t', q) == SubdirRows(t, q) - (if p in t' then {} else {p})
  {
  }

  lemma DeleteCounted(t: Table, path: string)
    requires ValidTable(t)
    ensures Counted(DeleteRow(t, path).0)
  {
    hide DeleteRow, NormalizePath, NlinkOk;
    var t' := DeleteRow(t, path).0;
    forall q {:trigger NlinkOk(t', q)} | q in t' ensures NlinkOk(t', q) {
      DeleteNlink(t, path, q);
    }
  }

  lemma DeleteNlink(t: Table, path: string, q: string)
    requires ValidTable(t) && q in DeleteRow(t, path).0
    ensures NlinkOk(DeleteRow(t, path).0, q)
  {
    var p := NormalizePath(path);
    DeleteSubdirs(t, path, q);
    assert q in t && NlinkOk(t, q);
    if p in t && p != "/" {
      assert NlinkOk(t, p) && HangsBelow(t, p);
      if t[p].etype == DIR && !HasChildren(t, p) { assert SubdirRows(t, p) == {}; }
    }
    hide NormalizePath, ParentPath, IsNormal, SubdirRows, Rooted, Numbered, Counted;
  }

  lemma WriteKeepsShape(t: Table, path: string, offset: nat, data: seq<bv8>)
    ensures var t' := WriteRow(t, path, offset, data).0;
            t'.Keys == t.Keys && forall q {:trigger t'[q]} :: q in t ==> t'[q] == t[q].(data := t'[q].data)
  {
  }

  lemma WriteIsValid(t: Table, path: string, offset: nat, data: seq<bv8>)
    requires ValidTable(t)
    ensures ValidTable(WriteRow(t, path, offset, data).0)
  {
    var t' := WriteRow(t, path, offset, data).0;
    WriteKeepsShape(t, path, offset, data);
    forall q {:trigger HangsBelow(t', q)} | q in t' && q != "/" ensures HangsBelow(t', q) {
      assert HangsBelow(t, q);
    }
    forall q {:trigger NlinkOk(t', q)} | q in t' ensures NlinkOk(t', q) {
      assert SubdirRows(t', q) == SubdirRows(t, q);
      assert NlinkOk(t, q);
    }
  }

  /** What was written is read back, and nothing else changes for readers of other paths. */
  lemma WrittenIsRead(t: Table, path: string, offset: nat, data: seq<bv8>, q: string, o: nat, n: Option<nat>)
    requires WriteRow(t, path, offset, data).1.Success?
    ensures var t' := WriteRow(t, path, offset, data).0;
            && ReadRow(t', path, offset, Some(|data|)) == Success(data)
            && (NormalizePath(q) != NormalizePath(path) ==> ReadRow(t', q, o, n) == ReadRow(t, q, o, n))
  {
    hide NormalizePath;
    PatchedHolds(DataOf(t[NormalizePath(path)].data), offset, data);
  }

  lemma PatchedHolds(cur: seq<bv8>, offset: nat, data: seq<bv8>)
    ensures |Patched(cur, offset, data)| >= offset + |data|
    ensures Patched(cur, offset, data)[offset..offset + |data|] == data
  {
  }

  // ---------- Effects on the set of rows ----------

  /** Rows keep their types; new rows may appear. */
  ghost predicate TypesKept(t: Table, t': Table) {
    forall p {:trigger t'[p].etype} {:trigger p in t'} :: p in t ==> p in t' && t'[p].etype == t[p].etype
  }

  /** Every row of the first table is in the second as it was, but for the counter of one directory. */
  ghost predicate RowsKept(t: Table, t': Table, up: string) {
    forall q {:trigger t'[q]} {:trigger q in t'} :: q in t ==>
      q in t' && t'[q] == if q == up then t[q].(nlink := t'[q].nlink) else t[q]
  }

  /** Creating below a directory row makes exactly that row appear, unless it was there. */
  lemma CreateEffect(t: Table, p: string, dir: bool)
    requires ValidTable(t) && IsNormal(p) && p != "/" && ParentPath(p) in t && t[ParentPath(p)].etype == DIR
    ensures var t' := CreateRow(t, p, if dir then "dir" else "file").0;
            && ValidTable(t') && TypesKept(t, t') && t'.Keys == t.Keys + {p} && RowsKept(t, t', ParentPath(p))
            && (p !in t ==> (t'[p].etype == DIR <==> dir) && t'[p].nlink == if dir then 2 else 1)
            && (p in t ==> t' == t)
  {
    NormalizeIsCanonical(p);
    NormalIsAbsolute(p);
    ServeIsValid(t, CreateReq(p, if dir then "dir" else "file"));
    CreatedRow(t, p, dir);
    hide ValidTable, CreateRow, IsNormal, NormalizePath, ParentPath, RowsKept, TypesKept;
  }

  lemma CreatedRow(t: Table, p: string, dir: bool)
    requires NormalizePath(p) == p && ParentPath(p) in t && t[ParentPath(p)].etype == DIR
    ensures var t' := CreateRow(t, p, if dir then "dir" else "file").0;
            && TypesKept(t, t') && t'.Keys == t.Keys + {p} && RowsKept(t, t', ParentPath(p))
            && (p !in t ==> (t'[p].etype == DIR <==> dir) && t'[p].nlink == if dir then 2 else 1)
            && (p in t ==> t' == t)
  {
    assert LowerCase("file") == "file" && LowerCase("dir") == "dir";
    hide NormalizePath, ParentPath;
  }

  /** A delete can only take its own row, and keeps every type. */
  lemma DeleteEffect(t: Table, p: string)
    requires ValidTable(t) && IsNormal(p)
    ensures var t' := DeleteRow(t, p).0;
            && ValidTable(t') && t'.Keys <= t.Keys && t.Keys - {p} <= t'.Keys && TypesKept(t', t)
            && (p in t && t[p].etype == FILE ==> p !in t')
  {
    hide ValidTable, NormalizePath, DeleteRow, TypesKept;
    NormalizeIsCanonical(p);
    NormalIsAbsolute(p);
    ServeIsValid(t, DeleteReq(p));
    DeleteKeys(t, p);
    FileLinks(t, p);
  }

  lemma DeleteKeys(t: Table, p: string)
    requires NormalizePath(p) == p
    ensures var t' := DeleteRow(t, p).0;
            && t'.Keys <= t.Keys && t.Keys - {p} <= t'.Keys && TypesKept(t', t)
            && (p != "/" && p in t && t[p].etype == FILE && t[p].nlink == 1 ==> p !in t')
  {
    hide NormalizePath;
  }

  lemma FileLinks(t: Table, p: string)
    requires ValidTable(t)
    ensures p in t && t[p].etype == FILE ==> t[p].nlink == 1 && p != "/"
  {
    if p in t { assert NlinkOk(t, p); }
  }

  // ---------- What readers see of creates and deletes ----------

  /** A create leaves every other row as it was but for its directory's counter, which counts a new directory; the
      contents of other paths read as before, and a new file reads as empty. */
  lemma CreateKeepsRows(t: Table, path: string, entryType: string, q: string, o: nat, n: Option<nat>)
    requires CreateRow(t, path, entryType).1.Success?
    ensures var t' := CreateRow(t, path, entryType).0;
            var p := NormalizePath(path);
            var up := ParentPath(p);
            && RowsKept(t, t', up) && t'.Keys == t.Keys + {p} && p !in t && up in t
            && t'[up].nlink == t[up].nlink + (if t'[p].etype == DIR then 1 else 0)
            && (NormalizePath(q) != p ==> ReadRow(t', q, o, n) == ReadRow(t, q, o, n))
            && (t'[p].etype == FILE ==> ReadRow(t', path, o, n) == Success([]))
  {
    hide NormalizePath, ParentPath;
  }

  /** A delete leaves every row that stays as it was, but for the counters of its own row and its directory's, and
      the contents of other paths read as before. */
  lemma DeleteKeepsRows(t: Table, path: string, q: string, o: nat, n: Option<nat>)
    requires ValidTable(t) && IsNormal(path)
    ensures var t' := DeleteRow(t, path).0;
            && DeletedRows(t, t', path)
            && (NormalizePath(q) != path ==> ReadRow(t', q, o, n) == ReadRow(t, q, o, n))
  {
    NormalizeIsCanonical(path);
    if path in t && path != "/" { assert HangsBelow(t, path); }
    DeletedRowsAre(t, path);
    hide NormalizePath, ParentPath, IsNormal, ValidTable, DeleteRow;
  }

  /** At most a path's own row is gone, its counter and its directory's may be lower, and all else is as it was. */
  ghost predicate DeletedRows(t: Table, t': Table, path: string) {
    && t'.Keys <= t.Keys && t.Keys <= t'.Keys + {path}
    && (path in t' ==> path in t && t'[path] == t[path].(nlink := t'[path].nlink))
    && forall q {:trigger t'[q]} :: q in t' && q != path ==>
         t'[q] == if q == ParentPath(path) then t[q].(nlink := t'[q].nlink) else t[q]
  }

  lemma DeletedRowsAre(t: Table, path: string)
    requires NormalizePath(path) == path
    requires path != "/" && path in t ==> t[path].parentPath == Some(ParentPath(path))
    ensures DeletedRows(t, DeleteRow(t, path).0, path)
  {
    hide NormalizePath, ParentPath, HasChildren;
  }

  // ---------- What the server answers ----------

  /** The type is spelled in any case. */
  lemma TypeSpelling(s: string)
    ensures ParseType(s) == Some(FILE) <==> |s| == 4 && s[0] in "fF" && s[1] in "iI" && s[2] in "lL" && s[3] in "eE"
    ensures ParseType(s) == Some(DIR) <==> |s| == 3 && s[0] in "dD" && s[1] in "iI" && s[2] in "rR"
  {
    var l := LowerCase(s);
    if |s| == 4 {
      assert l == "file" <==> l[0] == 'f' && l[1] == 'i' && l[2] == 'l' && l[3] == 'e';
    }
    if |s| == 3 {
      assert l == "dir" <==> l[0] == 'd' && l[1] == 'i' && l[2] == 'r';
    }
  }

  /** Every answer to a create of a name in a directory, said of the rows of the two. */
  lemma CreateAnswer(t: Table, cs: seq<string>, n: string, entryType: string)
    requires AreNames(cs) && IsName(n)
    ensures var p, up := Render(cs + [n]), Render(cs);
            CreateRow(t, p, entryType).1 ==
            if p in t then Error("EEXIST")
            else if up !in t then Error("ENOENT")
            else if t[up].etype == FILE then Error("ENOTDIR")
            else if ParseType(entryType) == None then Error("EINVAL")
            else Success(NextIno(t))
  {
    ParentOfChild(cs, n);
    assert IsNormal(Render(cs + [n]));
    NormalizeIsCanonical(Render(cs + [n]));
    hide NormalizePath, ParentPath, IsNormal;
  }

  /** Every answer to a delete: the root is refused, and so is a path that is no row or has a row just below it. */
  lemma DeleteAnswer(t: Table, cs: seq<string>)
    requires ValidTable(t) && AreNames(cs)
    ensures var p := Render(cs);
            DeleteRow(t, p).1 ==
            if cs == [] then Error("EBUSY")
            else if p !in t then Error("ENOENT")
            else if exists n :: IsName(n) && Render(cs + [n]) in t then Error("ENOTEMPTY")
            else Success(p)
  {
    var p := Render(cs);
    assert IsNormal(p);
    NormalizeIsCanonical(p);
    RenderInjective(cs, []);
    if p in t { ChildrenAreNamed(t, cs); }
    hide NormalizePath, IsNormal, Render, ValidTable;
  }

  lemma ChildrenAreNamed(t: Table, cs: seq<string>)
    requires ValidTable(t) && AreNames(cs) && Render(cs) in t
    ensures (exists n :: IsName(n) && Render(cs + [n]) in t) <==> HasChildren(t, Render(cs))
    ensures HasChildren(t, Render(cs)) ==> t[Render(cs)].etype == DIR
  {
    hide IsName, Render, Components, ParentPath, IsNormal, NlinkOk, Counted, Numbered;
    if n :| IsName(n) && Render(cs + [n]) in t {
      ParentOfChild(cs, n);
      assert HangsBelow(t, Render(cs + [n]));
    }
    if q :| q in t && t[q].parentPath == Some(Render(cs)) {
      assert q != "/" && HangsBelow(t, q);
      LastName(q, cs);
    }
  }

  lemma LastName(q: string, cs: seq<string>)
    requires IsNormal(q) && q != "/" && AreNames(cs) && ParentPath(q) == Render(cs)
    ensures exists n :: IsName(n) && Render(cs + [n]) == q
  {
    NormalHasParent(q);
    hide IsNormal, Render, Components, ParentPath;
    var ds := Components(q);
    var k := |ds| - 1;
    assert ds == ds[..k] + [ds[k]];
    RenderInjective(ds[..k], cs);
    assert IsName(ds[k]);
  }

  /** What a read returns: of a file's content, the bytes from the offset on that are there and asked for. */
  lemma ReadAnswer(t: Table, path: string, offset: nat, size: Option<nat>)
    ensures var p := NormalizePath(path);
            var r := ReadRow(t, path, offset, size);
            if p !in t then r == Error("ENOENT")
            else if t[p].etype == DIR then r == Error("EISDIR")
            else
              var d := DataOf(t[p].data);
              var rest := if offset >= |d| then 0 else |d| - offset;
              && r.Success?
              && |r.data| == (if size.Some? && size.value < rest then size.value else rest)
              && forall i :: 0 <= i < |r.data| ==> offset + i < |d| && r.data[i] == d[offset + i]
  {
    hide NormalizePath;
  }

  /** What a write answers, and the row's content after it, byte by byte: a write at offset 0 clears what it does not
      cover. */
  lemma WriteAnswer(t: Table, path: string, offset: nat, data: seq<bv8>)
    ensures var p := NormalizePath(path);
            var (t', r) := WriteRow(t, path, offset, data);
            if p !in t then t' == t && r == Error("ENOENT")
            else if t[p].etype == DIR then t' == t && r == Error("EISDIR")
            else
              var was, now := DataOf(t[p].data), DataOf(t'[p].data);
              && r == Success(|data|) && t' == t[p := t[p].(data := Some(now))]
              && |now| == (if offset + |data| > |was| then offset + |data| else |was|)
              && forall i :: 0 <= i < |now| ==>
                   now[i] == if offset <= i < offset + |data| then data[i - offset]
                              else if offset > 0 && i < |was| then was[i] else 0
  {
    hide NormalizePath;
  }

  // ---------- Runs ----------

  datatype Request =
    | CreateReq(path: string, entryType: string)
    | DeleteReq(path: string)
    | WriteReq(path: string, offset: nat, data: seq<bv8>)

  ghost function Serve(t: Table, r: Request): Table {
    match r
    case CreateReq(p, ty) => CreateRow(t, p, ty).0
    case DeleteReq(p) => DeleteRow(t, p).0
    case WriteReq(p, o, d) => WriteRow(t, p, o, d).0
  }

  ghost function ServeAll(t: Table, rs: seq<Request>): Table
    decreases |rs|
  {
    if rs == [] then t else ServeAll(Serve(t, rs[0]), rs[1..])
  }

  lemma ServeIsValid(t: Table, r: Request)
    requires ValidTable(t) && IsAbsolute(r.path)
    ensures ValidTable(Serve(t, r))
  {
    match r
    case CreateReq(p, ty) =>
      if CreateRow(t, p, ty).1.Success? { CreateShape(t, p, ty); CreateCounted(t, p, ty); }
    case DeleteReq(p) => DeleteShape(t, p); DeleteCounted(t, p);
    case WriteReq(p, o, d) => WriteIsValid(t, p, o, d);
  }

  /** Every table reached by requests on absolute paths is prefix-closed, uniquely numbered and counted. */
  lemma {:induction false} ReachableTables(t: Table, rs: seq<Request>)
    requires ValidTable(t) && forall i :: 0 <= i < |rs| ==> IsAbsolute(rs[i].path)
    ensures ValidTable(ServeAll(t, rs))
    decreases |rs|
  {
    if rs != [] {
      ServeIsValid(t, rs[0]);
      ReachableTables(Serve(t, rs[0]), rs[1..]);
    }
  }

  /** Prefix closure spelled out: every proper prefix of a row's components is itself a directory row. */
  lemma {:induction false} PrefixClosed(t: Table, cs: seq<string>, k: nat)
    requires Rooted(t) && AreNames(cs) && Render(cs) in t && k <= |cs|
    ensures Render(cs[..k]) in t
    ensures k < |cs| ==> t[Render(cs[..k])].etype == DIR
    decreases |cs| - k
  {
    if k == |cs| {
      assert cs[..k] == cs;
    } else {
      PrefixClosed(t, cs, k + 1);
      assert cs[..k + 1] == cs[..k] + [cs[k]];
      ParentOfChild(cs[..k], cs[k]);
      var p := Render(cs[..k + 1]);
      assert HangsBelow(t, p);
    }
  }

  /** A first delete of an empty directory keeps its row, exactly when it still has both links. */
  lemma DeleteRemovesRow(t: Table, p: string)
    requires ValidTable(t) && IsNormal(p) && p != "/" && p in t && (t[p].etype == DIR ==> !HasChildren(t, p))
    ensures p !in DeleteRow(t, p).0 <==> t[p].nlink == 1
    ensures t[p].etype == FILE ==> p !in DeleteRow(t, p).0
    ensures t[p].nlink == 2 ==> p !in DeleteRow(DeleteRow(t, p).0, p).0
  {
    NormalizeIsCanonical(p);
    assert NlinkOk(t, p);
  }
}
