/** FileSystemService.kt as a class over its repository, proved against the table functions. */
module Service {
  import opened Lists
  import opened Paths
  import opened Server

  function FileName(p: string): string {
    var i := LastSlash(p);
    if i == |p| then p else p[i + 1..]
  }

  datatype Child = Child(name: string, ino: int, etype: EntryType, size: nat)

  /** The rows below a directory, as `listDir` describes them. */
  function ChildrenOf(t: Table, p: string): set<Child> {
    set q | q in t && t[q].parentPath == Some(p) :: Child(FileName(q), t[q].ino, t[q].etype, |DataOf(t[q].data)|)
  }

  /** One entry for every name whose path is a row, with that row's number, type and size, and no other entry. */
  ghost predicate ListsExactly(t: Table, cs: seq<string>, l: set<Child>) {
    && (forall n {:trigger Render(cs + [n])} :: IsName(n) && Render(cs + [n]) in t ==>
          var row := t[Render(cs + [n])]; Child(n, row.ino, row.etype, |DataOf(row.data)|) in l)
    && (forall c :: c in l ==> IsName(c.name) && Render(cs + [c.name]) in t)
    && (forall c, d :: c in l && d in l && c.name == d.name ==> c == d)
  }

  lemma ListingIsExact(t: Table, cs: seq<string>)
    requires ValidTable(t) && AreNames(cs)
    ensures ListsExactly(t, cs, ChildrenOf(t, Render(cs)))
  {
    hide ValidTable, IsName, ChildrenOf;
    var l := ChildrenOf(t, Render(cs));
    forall n {:trigger Render(cs + [n])} | IsName(n) && Render(cs + [n]) in t
      ensures var row := t[Render(cs + [n])]; Child(n, row.ino, row.etype, |DataOf(row.data)|) in l
    {
      ChildIsListed(t, cs, n);
    }
    forall c | c in l
      ensures IsName(c.name) && Render(cs + [c.name]) in t
      ensures var row := t[Render(cs + [c.name])]; c == Child(c.name, row.ino, row.etype, |DataOf(row.data)|)
    {
      ListedIsRow(t, cs, c);
    }
  }

  lemma ListedIsRow(t: Table, cs: seq<string>, c: Child)
    requires ValidTable(t) && AreNames(cs) && c in ChildrenOf(t, Render(cs))
    ensures IsName(c.name) && Render(cs + [c.name]) in t
    ensures var row := t[Render(cs + [c.name])]; c == Child(c.name, row.ino, row.etype, |DataOf(row.data)|)
  {
    var q :| q in t && t[q].parentPath == Some(Render(cs))
             && c == Child(FileName(q), t[q].ino, t[q].etype, |DataOf(t[q].data)|);
    RowParts(t, q, Render(cs));
    NameIsRest(q, cs);
  }

  lemma ChildIsListed(t: Table, cs: seq<string>, n: string)
    requires ValidTable(t) && AreNames(cs) && IsName(n) && Render(cs + [n]) in t
    ensures var row := t[Render(cs + [n])];
            Child(n, row.ino, row.etype, |DataOf(row.data)|) in ChildrenOf(t, Render(cs))
  {
    var q := Render(cs + [n]);
    ParentOfChild(cs, n);
    NameOfChild(cs, n);
    assert HangsBelow(t, q);
    var c := Child(FileName(q), t[q].ino, t[q].etype, |DataOf(t[q].data)|);
    assert c in ChildrenOf(t, Render(cs));
  }

  lemma NameIsRest(q: string, cs: seq<string>)
    requires IsNormal(q) && q != "/" && AreNames(cs) && Render(cs) == ParentPath(q)
    ensures IsName(FileName(q)) && q == Render(cs + [FileName(q)])
  {
    hide *;
    NormalHasParent(q);
    var ds := Components(q);
    LastOfNames(ds);
    var up, m := ds[..|ds| - 1], ds[|ds| - 1];
    assert ds == up + [m];
    RenderInjective(up, cs);
    NameOfChild(cs, m);
  }

  lemma RowParts(t: Table, q: string, p: string)
    requires ValidTable(t) && q in t && t[q].parentPath == Some(p)
    ensures IsNormal(q) && q != "/" && p == ParentPath(q)
  {
    assert q != "/" ==> HangsBelow(t, q);
  }

  lemma LastOfNames(cs: seq<string>)
    requires AreNames(cs) && cs != []
    ensures AreNames(cs[..|cs| - 1]) && IsName(cs[|cs| - 1])
  {
  }

  lemma NameOfChild(cs: seq<string>, n: string)
    requires AreNames(cs) && IsName(n)
    ensures FileName(Render(cs + [n])) == n
  {
    var all := cs + [n];
    assert all[..|all| - 1] == cs;
    var p := Joined(cs) + "/" + n;
    LastSlashOfAppend(Joined(cs), n);
    assert p[|Joined(cs)| + 1..] == n;
  }

  class FileSystemService {
    /** The repository: one row per path. */
    var table: Table

    /** The init block: a fresh repository gets its root row, an old one is kept. */
    constructor (stored: Table)
      ensures table == if "/" in stored then stored else stored["/" := FreshTable()["/"]]
    {
      table := if "/" in stored then stored else stored["/" := Row(ROOT_INO, DIR, 2, None, None)];
    }

    /** `getNextIno`, with the query for the largest number. */
    method GetNextIno() returns (ino: int)
      requires table != map[]
      ensures ino == NextIno(table)
    {
      TopInoExists(table);
      var inos := set p | p in table :: table[p].ino;
      assert exists m :: m in inos && forall i :: i in inos ==> i <= m by {
        var m :| IsTopIno(table, m);
        assert m in inos;
      }
      var top :| top in inos && forall i :: i in inos ==> i <= top;
      assert IsTopIno(table, top) by {
        forall p | p in table ensures table[p].ino <= top { assert table[p].ino in inos; }
      }
      TopInoUnique(table, top);
      ino := top + 1;
    }

    method Create(path: string, entryType: string) returns (r: Result<int>)
      modifies this
      ensures (table, r) == CreateRow(old(table), path, entryType)
    {
      var p := NormalizePath(path);
      if p in table {
        return Error("EEXIST");
      }
      var parentPath := ParentPath(p);
      if parentPath !in table {
        return Error("ENOENT");
      }
      var parent := table[parentPath];
      if parent.etype != DIR {
        return Error("ENOTDIR");
      }
      var ty := ParseType(entryType);
      if ty.None? {
        return Error("EINVAL");
      }
      var ino := GetNextIno();
      table := table[p := Row(ino, ty.value, if ty.value == DIR then 2 else 1, None, Some(parentPath))];
      if ty.value == DIR {
        table := table[parentPath := parent.(nlink := parent.nlink + 1)];
      }
      assert table == CreateRow(old(table), path, entryType).0;
      r := Success(ino);
    }

    method Delete(path: string) returns (r: Result<string>)
      modifies this
      ensures (table, r) == DeleteRow(old(table), path)
    {
      var p := NormalizePath(path);
      if p == "/" {
        return Error("EBUSY");
      }
      if p !in table {
        return Error("ENOENT");
      }
      var entry := table[p];
      if entry.etype == DIR && (exists q | q in table :: table[q].parentPath == Some(p)) {
        return Error("ENOTEMPTY");
      }
      entry := entry.(nlink := entry.nlink - 1);
      if entry.nlink == 0 {
        var up := match entry.parentPath case None => "/" case Some(q) => q;
        if up in table && entry.etype == DIR {
          table := table[up := table[up].(nlink := table[up].nlink - 1)];
        }
        table := table - {p};
      } else {
        table := table[p := entry];
      }
      r := Success(p);
    }

    method Stat(path: string) returns (r: Result<EntryType>)
      ensures r == Server.Stat(table, path)
    {
      var p := NormalizePath(path);
      if p !in table {
        return Error("ENOENT");
      }
      r := Success(table[p].etype);
    }

    method Read(path: string, offset: nat, size: Option<nat>) returns (r: Result<seq<bv8>>)
      ensures r == ReadRow(table, path, offset, size)
    {
      var p := NormalizePath(path);
      if p !in table {
        return Error("ENOENT");
      }
      if table[p].etype != FILE {
        return Error("EISDIR");
      }
      if table[p].data.None? {
        return Success([]);
      }
      var data := table[p].data.value;
      if offset >= |data| {
        return Success([]);
      }
      var end := |data|;
      if size.Some? && offset + size.value < end {
        end := offset + size.value;
      }
      r := Success(data[offset..end]);
    }

    /** The three copies of `write` into a zeroed array. */
    method Patch(cur: seq<bv8>, offset: nat, data: seq<bv8>) returns (newData: array<bv8>)
      ensures newData[..] == Patched(cur, offset, data)
    {
      var newSize := if offset + |data| > |cur| then offset + |data| else |cur|;
      newData := new bv8[newSize](_ => 0);
      if offset == 0 {
        forall i | 0 <= i < |data| { newData[i] := data[i]; }
      } else {
        var end := if |cur| < offset then |cur| else offset;
        forall i | 0 <= i < end { newData[i] := cur[i]; }
        forall i | 0 <= i < |data| { newData[offset + i] := data[i]; }
        if offset < |cur| {
          var remainingStart := offset + |data|;
          if remainingStart < |cur| {
            forall i | remainingStart <= i < |cur| { newData[i] := cur[i]; }
          }
        }
      }
    }

    method Write(path: string, offset: nat, data: seq<bv8>) returns (r: Result<nat>)
      modifies this
      ensures (table, r) == WriteRow(old(table), path, offset, data)
    {
      var p := NormalizePath(path);
      if p !in table {
        return Error("ENOENT");
      }
      if table[p].etype != FILE {
        return Error("EISDIR");
      }
      var newData := Patch(DataOf(table[p].data), offset, data);
      table := table[p := table[p].(data := Some(newData[..]))];
      r := Success(|data|);
    }

    method ListDir(path: string) returns (r: Result<set<Child>>)
      ensures r == Error("ENOENT") <==> NormalizePath(path) !in table
      ensures r == Error("ENOTDIR") <==> NormalizePath(path) in table && table[NormalizePath(path)].etype != DIR
      ensures r.Error? ==> r.code in {"ENOENT", "ENOTDIR"}
      ensures r.Success? ==> r.data == ChildrenOf(table, NormalizePath(path))
      ensures r.Success? && ValidTable(table) ==> ListsExactly(table, Components(path), r.data)
    {
      var p := NormalizePath(path);
      if p !in table {
        return Error("ENOENT");
      }
      if table[p].etype != DIR {
        return Error("ENOTDIR");
      }
      r := Success(ChildrenOf(table, p));
      if ValidTable(table) {
        SegmentsAreSlashFree(path);
        StackGivesNames(Segments(path));
        ListingIsExact(table, Components(path));
      }
    }
  }

  lemma TopInoUnique(t: Table, m: int)
    requires t != map[] && IsTopIno(t, m)
    ensures NextIno(t) == m + 1
  {
    TopInoExists(t);
  }
}
