/** What a kernel write does to the server's copy of the file: it is pushed twice, at offset 0 and at its own offset. */
module Contents {
  import opened Lists
  import opened Paths
  import opened Tree
  import opened TreePaths
  import opened FileData
  import opened Inodes
  import opened Sync
  import Server

  /** The server's bytes after both pushes. */
  function Twice(cur: Bytes, offset: nat, data: Bytes): Bytes {
    Server.Patched(Server.Patched(cur, 0, data), offset, data)
  }

  /** A byte of the server's copy that the write itself does not cover: the first push put the data's own beginning
      there, or a zero. */
  function Stray(data: Bytes, k: nat): bv8 {
    if k < |data| then data[k] else 0
  }

  /** The copy byte by byte: nothing of the old content is left, only its length. */
  lemma TwiceAt(cur: Bytes, offset: nat, data: Bytes, k: nat)
    requires k < |Twice(cur, offset, data)|
    ensures |Twice(cur, offset, data)| == Max(|cur|, offset + |data|)
    ensures Twice(cur, offset, data)[k] == if offset <= k < offset + |data| then data[k - offset] else Stray(data, k)
  {
    PatchedAt(cur, 0, data);
    PatchedAt(Server.Patched(cur, 0, data), offset, data);
    hide Server.Patched;
  }

  lemma PatchedAt(cur: Bytes, offset: nat, data: Bytes)
    ensures var p := Server.Patched(cur, offset, data);
            && |p| == Max(|cur|, offset + |data|)
            && forall k :: 0 <= k < |p| ==>
                 p[k] == if offset <= k < offset + |data| then data[k - offset]
                         else if offset > 0 && k < |cur| then cur[k] else 0
  {
  }

  /** What the write leaves alone, gap included, is what the first push happens to put there. */
  ghost predicate Undisturbed(before: Bytes, offset: nat, data: Bytes) {
    forall k :: 0 <= k < |before| && !(offset <= k < offset + |data|) ==> before[k] == Stray(data, k)
  }

  lemma TwiceIsSplice(cur: Bytes, gap: Bytes, offset: nat, data: Bytes)
    requires |gap| == Max(0, offset - |cur|)
    ensures Twice(cur, offset, data) == GapSplice(cur, gap, offset, data) <==> Undisturbed(cur + gap, offset, data)
  {
    var l, r := Twice(cur, offset, data), GapSplice(cur, gap, offset, data);
    var n := Max(|cur|, offset + |data|);
    LengthsAgree(cur, gap, offset, data);
    hide Twice, GapSplice, Stray;
    forall k | 0 <= k < n
      ensures l[k] == if offset <= k < offset + |data| then data[k - offset] else Stray(data, k)
      ensures r[k] == if offset <= k < offset + |data| then data[k - offset] else (cur + gap)[k]
    {
      TwiceAt(cur, offset, data, k);
      GapSpliceAt(cur, gap, offset, data, k);
    }
    if l == r {
      forall k | 0 <= k < |cur + gap| && !(offset <= k < offset + |data|) ensures (cur + gap)[k] == Stray(data, k) {
        assert k < n && l[k] == r[k];
      }
    }
    if Undisturbed(cur + gap, offset, data) {
      assert forall k :: 0 <= k < n ==> l[k] == r[k];
    }
  }

  lemma LengthsAgree(cur: Bytes, gap: Bytes, offset: nat, data: Bytes)
    requires |gap| == Max(0, offset - |cur|)
    ensures |Twice(cur, offset, data)| == |GapSplice(cur, gap, offset, data)| == Max(|cur|, offset + |data|)
  {
    PatchedAt(cur, 0, data);
    PatchedAt(Server.Patched(cur, 0, data), offset, data);
    hide Server.Patched;
  }

  lemma GapSpliceAt(cur: Bytes, gap: Bytes, offset: nat, data: Bytes, k: nat)
    requires |gap| == Max(0, offset - |cur|) && k < Max(|cur|, offset + |data|)
    ensures k < |GapSplice(cur, gap, offset, data)|
    ensures !(offset <= k < offset + |data|) ==> k < |cur + gap|
    ensures GapSplice(cur, gap, offset, data)[k] ==
            if offset <= k < offset + |data| then data[k - offset] else (cur + gap)[k]
  {
  }

  // ---------- The two-party machine ----------

  /** A write whose pushes both arrive whole rewrites exactly the row at the newest name's path. */
  lemma PushedContent<E>(s: Sys<E>, ino: nat, offset: nat, data: Bytes, q: string, o: nat, n: Option<nat>)
    requires Included(s) && GetByIno(s.tree, ino).Some? && offset + |data| <= MAX_FILE_SIZE
    ensures GetByIno(s.tree, ino).value in s.tree.nodes
    ensures var e := GetByIno(s.tree, ino).value;
            var p := BuildPath(s.tree, e);
            var t' := Do(s, WriteCall(ino, offset, |data|, Some(data), Some(data))).table;
            && p in s.table && p in t' && t'.Keys == s.table.Keys
            && (NormalizePath(q) != p || s.tree.nodes[e].dir ==>
                  Server.ReadRow(t', q, o, n) == Server.ReadRow(s.table, q, o, n))
            && (!s.tree.nodes[e].dir ==>
                  Server.DataOf(t'[p].data) == Twice(Server.DataOf(s.table[p].data), offset, data))
  {
    hide *;
    PushTarget(s, ino, offset, data);
    var e := GetByIno(s.tree, ino).value;
    var p := BuildPath(s.tree, e);
    if !s.tree.nodes[e].dir { BothDelivered(s.table, p, offset, data, q, o, n); }
  }

  /** Where the pushes of a write go, and that they are all it does. */
  lemma PushTarget<E>(s: Sys<E>, ino: nat, offset: nat, data: Bytes)
    requires Included(s) && GetByIno(s.tree, ino).Some? && offset + |data| <= MAX_FILE_SIZE
    ensures WellFormed(s.tree) && GetByIno(s.tree, ino).value in s.tree.nodes
    ensures var e := GetByIno(s.tree, ino).value;
            var p := BuildPath(s.tree, e);
            && NormalizePath(p) == p && p in s.table && (s.table[p].etype == Server.FILE <==> !s.tree.nodes[e].dir)
            && Do(s, WriteCall(ino, offset, |data|, Some(data), Some(data))).table ==
               if s.tree.nodes[e].dir then s.table
               else Deliver(Deliver(s.table, p, 0, Some(data)), p, offset, Some(data))
  {
    hide WellFormed, Server.ValidTable, BuildPath, NormalizePath, IsNormal, GetByIno, Deliver;
    GetByInoFacts(s.tree, ino);
    var e := GetByIno(s.tree, ino).value;
    NormalBuildPath(s.tree, e);
    assert Mirrored(s, e);
  }

  lemma BothDelivered(t: Server.Table, p: string, offset: nat, data: Bytes, q: string, o: nat, n: Option<nat>)
    requires NormalizePath(p) == p && p in t && t[p].etype == Server.FILE
    ensures var t' := Deliver(Deliver(t, p, 0, Some(data)), p, offset, Some(data));
            && t'.Keys == t.Keys
            && Server.DataOf(t'[p].data) == Twice(Server.DataOf(t[p].data), offset, data)
            && (NormalizePath(q) != p ==> Server.ReadRow(t', q, o, n) == Server.ReadRow(t, q, o, n))
  {
    RowWritten(t, p, 0, data, q, o, n);
    RowWritten(Server.WriteRow(t, p, 0, data).0, p, offset, data, q, o, n);
    hide NormalizePath, Server.Patched, Server.WriteRow, Server.ReadRow;
  }

  lemma RowWritten(t: Server.Table, p: string, offset: nat, data: Bytes, q: string, o: nat, n: Option<nat>)
    requires NormalizePath(p) == p && p in t && t[p].etype == Server.FILE
    ensures var t' := Server.WriteRow(t, p, offset, data).0;
            && t'.Keys == t.Keys && t'[p].etype == Server.FILE
            && Server.DataOf(t'[p].data) == Server.Patched(Server.DataOf(t[p].data), offset, data)
            && (NormalizePath(q) != p ==> Server.ReadRow(t', q, o, n) == Server.ReadRow(t, q, o, n))
  {
    hide NormalizePath, Server.Patched;
  }

  /** What the file holds before a write, with whatever its buffer has in the gap. */
  ghost function Before<E, B>(fs: Fs<E, B>, ino: nat, offset: nat, len: nat): Bytes
    requires Ok(fs)
  {
    Content(fs, ino) + GapBytes(fs, ino, offset, len)
  }

  /** Both sides hold the same bytes after a write of a file they agreed on, exactly when the first push disturbs
      nothing. */
  lemma WriteKeepsAgreement<E, B>(fs: Fs<E, B>, t: Server.Table, ino: nat, offset: nat, data: Bytes, mem: Option<B>,
                                  junk: Bytes)
    requires Ok(fs) && Included(Sys(fs.tree, t)) && FsWrite(fs, ino, offset, data, mem, junk).1 == OK
    ensures GetByIno(fs.tree, ino).Some? && GetByIno(fs.tree, ino).value in fs.tree.nodes
    ensures var p := BuildPath(fs.tree, GetByIno(fs.tree, ino).value);
            var fs' := FsWrite(fs, ino, offset, data, mem, junk).0;
            var t' := Do(Sys(fs.tree, t), WriteCall(ino, offset, |data|, Some(data), Some(data))).table;
            && p in t && p in t'
            && (Server.DataOf(t[p].data) == Content(fs, ino) ==>
                  (Server.DataOf(t'[p].data) == Content(fs', ino) <==>
                   Undisturbed(Before(fs, ino, offset, |data|), offset, data)))
  {
    UnwrittenSame(fs, ino, offset, data, mem, junk);
    WriteOk(fs, ino, offset, data, mem, junk);
    PushedContent(Sys(fs.tree, t), ino, offset, data, "", 0, None);
    hide WellFormed, Ok, Included, FsWrite, Content, GapBytes, GapSplice, Twice, Undisturbed, BuildPath, GetByIno, Do;
    TwiceIsSplice(Content(fs, ino), GapBytes(fs, ino, offset, |data|), offset, data);
  }

  lemma PushedBack(t: Server.Table, p: string, q: string, o: nat, n: Option<nat>)
    requires NormalizePath(p) == p && p in t && t[p].etype == Server.FILE
    ensures Server.ReadRow(Deliver(t, p, 0, Some(Server.DataOf(t[p].data))), q, o, n) == Server.ReadRow(t, q, o, n)
  {
    var d := Server.DataOf(t[p].data);
    PatchedAt(d, 0, d);
    assert Server.Patched(d, 0, d) == d;
    RowWritten(t, p, 0, d, q, o, n);
    hide Server.Patched, NormalizePath;
  }

  /** A lookup that pushes back the whole content it has fetched, or none, leaves every read of the server as it was. */
  lemma FetchKeepsReads<E>(s: Sys<E>, c: Call<E>, q: string, o: nat, n: Option<nat>)
    requires Included(s) && c.LookupCall? && IsName(c.name)
    requires c.back.Some? ==>
               forall p :: p in Target(s, c) && p in s.table ==> c.back.value == Server.DataOf(s.table[p].data)
    ensures Server.ReadRow(Do(s, c).table, q, o, n) == Server.ReadRow(s.table, q, o, n)
  {
    hide WellFormed, Server.ValidTable, GetByIno, FetchPath, NormalizePath, IsNormal, Server.ReadRow, Lookup, Deliver;
    GetByInoFacts(s.tree, c.parentIno);
    var d := GetByIno(s.tree, c.parentIno);
    if d.Some? && Do(s, c).table != s.table {
      var p := FetchPath(s.tree, d.value, c.name);
      NormalFetchPath(s.tree, d.value, c.name);
      assert s.tree.nodes[d.value].dir && p in Target(s, c);
      NothingDelivered(s.table, p);
      PushedBack(s.table, p, q, o, n);
    }
  }

  lemma NothingDelivered(t: Server.Table, p: string)
    ensures Deliver(t, p, 0, None) == t
  {
  }
}
