/** `vtfs_read` and `vtfs_write` with the server off: how a file is cut into calls does not matter. */
module FileOps {
  import opened Lists
  import opened Tree
  import opened FileData
  import opened Inodes
  import Codes

  datatype Chunk<B> = Chunk(data: Bytes, append: bool, mem: Option<B>, junk: Bytes)

  /** `vtfs_write`: the size check sees the position before O_APPEND moves it. */
  ghost function VfsWrite<E, B>(fs: Fs<E, B>, ino: nat, pos: nat, c: Chunk<B>): (Fs<E, B>, nat, Errno)
    requires Ok(fs)
  {
    match GetByIno(fs.tree, ino)
    case None => (fs, pos, ENOENT)
    case Some(e) =>
      HeadFacts(fs, ino);
      if fs.tree.nodes[e].dir then (fs, pos, EISDIR)
      else if pos + |c.data| > MAX_FILE_SIZE then (fs, pos, EFBIG)
      else
        var at := if c.append then fs.files[e].size else pos;
        var (fs', err) := FsWrite(fs, ino, at, c.data, c.mem, c.junk);
        (fs', if err == OK then at + |c.data| else at, err)
  }

  /** `vtfs_read`: at most `len` bytes from the position, none at or past the end. */
  ghost function VfsRead<E, B>(fs: Fs<E, B>, ino: nat, pos: nat, len: nat): Bytes {
    ReadAt(Content(fs, ino), pos, len)
  }

  /** A read returns, of a file's bytes, those from the position on that are there and asked for. */
  lemma ReadIs<E, B>(fs: Fs<E, B>, ino: nat, pos: nat, len: nat)
    ensures var c, got := Content(fs, ino), VfsRead(fs, ino, pos, len);
            var rest := if pos >= |c| then 0 else |c| - pos;
            && |got| == (if len < rest then len else rest)
            && forall i :: 0 <= i < |got| ==> pos + i < |c| && got[i] == c[pos + i]
  {
    hide Content;
  }

  ghost function WriteChunks<E, B>(fs: Fs<E, B>, ino: nat, pos: nat, cs: seq<Chunk<B>>): (Fs<E, B>, nat, bool)
    requires Ok(fs)
    decreases |cs|
  {
    if cs == [] then (fs, pos, true)
    else
      var (fs', pos', err) := VfsWrite(fs, ino, pos, cs[0]);
      if err != OK then (fs', pos', false)
      else
        VfsWriteOk(fs, ino, pos, cs[0]);
        WriteChunks(fs', ino, pos', cs[1..])
  }

  /** Read with the given lengths until a call returns nothing; the flag says that one did. */
  ghost function ReadChunks<E, B>(fs: Fs<E, B>, ino: nat, pos: nat, lens: seq<nat>): (Bytes, bool)
    decreases |lens|
  {
    if lens == [] then ([], false)
    else
      var got := VfsRead(fs, ino, pos, lens[0]);
      if got == [] then ([], true)
      else
        var (rest, done) := ReadChunks(fs, ino, pos + |got|, lens[1..]);
        (got + rest, done)
  }

  function Flatten<B>(cs: seq<Chunk<B>>): Bytes
    decreases |cs|
  {
    if cs == [] then [] else cs[0].data + Flatten(cs[1..])
  }

  lemma VfsWriteOk<E, B>(fs: Fs<E, B>, ino: nat, pos: nat, c: Chunk<B>)
    requires Ok(fs)
    ensures Ok(VfsWrite(fs, ino, pos, c).0)
  {
    hide WellFormed;
    HeadFacts(fs, ino);
    if GetByIno(fs.tree, ino).Some? {
      var at := if c.append then fs.files[GetByIno(fs.tree, ino).value].size else pos;
      WriteOk(fs, ino, at, c.data, c.mem, c.junk);
    }
  }

  lemma FsWriteCode<E, B>(fs: Fs<E, B>, ino: nat, offset: nat, data: Bytes, mem: Option<B>, junk: Bytes)
    requires Ok(fs)
    ensures var h := GetByIno(fs.tree, ino);
            var (fs', err) := FsWrite(fs, ino, offset, data, mem, junk);
            && (err != OK ==> fs' == fs)
            && (h.Some? && h.value in fs.tree.nodes && !fs.tree.nodes[h.value].dir ==>
                  err == if offset + |data| > MAX_FILE_SIZE then EFBIG
                         else if !HasMemory(fs, ino, offset, data, mem) then ENOMEM else OK)
  {
    HeadFacts(fs, ino);
    hide WellFormed, GetByIno, Content, Ok;
  }

  /** Every code of a write and what happens to the position: O_APPEND moves it even when the write then fails, and
      the size is checked on both sides of that move. A write that fails changes no file. */
  lemma WriteCode<E, B>(fs: Fs<E, B>, ino: nat, pos: nat, c: Chunk<B>)
    requires Ok(fs)
    ensures var (fs', pos', err) := VfsWrite(fs, ino, pos, c);
            var at := if c.append then |Content(fs, ino)| else pos;
            var n := |c.data|;
            && (err != OK ==> fs' == fs)
            && if !Codes.InUse(fs.tree, ino) then err == ENOENT && pos' == pos
               else if Codes.IsDirectory(fs.tree, ino) then err == EISDIR && pos' == pos
               else if pos + n > 1048576 then err == EFBIG && pos' == pos
               else if at + n > 1048576 then err == EFBIG && pos' == at
               else if !HasMemory(fs, ino, at, c.data, c.mem) then err == ENOMEM && pos' == at
               else err == OK && pos' == at + n
  {
    HeadFacts(fs, ino);
    Codes.DirectoryFound(fs.tree, ino);
    FsWriteCode(fs, ino, if c.append then |Content(fs, ino)| else pos, c.data, c.mem, c.junk);
    hide WellFormed, Ok, FsWrite, GetByIno, Content, HasMemory, Codes.InUse, Codes.IsDirectory;
  }

  /** A write at the end of the file appends, whether the position or O_APPEND put it there. */
  lemma WriteAtEnd<E, B>(fs: Fs<E, B>, ino: nat, c: Chunk<B>)
    requires Ok(fs) && VfsWrite(fs, ino, |Content(fs, ino)|, c).2 == OK
    ensures var (fs', pos', _) := VfsWrite(fs, ino, |Content(fs, ino)|, c);
            && Ok(fs') && Content(fs', ino) == Content(fs, ino) + c.data && pos' == |Content(fs', ino)|
            && forall i {:trigger Content(fs', i)} :: i != ino ==> Content(fs', i) == Content(fs, i)
  {
    hide WellFormed, Ok, FsWrite;
    var cur := Content(fs, ino);
    HeadFacts(fs, ino);
    WriteOk(fs, ino, |cur|, c.data, c.mem, c.junk);
    UnwrittenSame(fs, ino, |cur|, c.data, c.mem, c.junk);
    assert GapBytes(fs, ino, |cur|, |c.data|) == [];
    assert GapSplice(cur, [], |cur|, c.data) == cur + c.data;
  }

  lemma {:induction false} WritesAppend<E, B>(fs: Fs<E, B>, ino: nat, cs: seq<Chunk<B>>)
    requires Ok(fs) && WriteChunks(fs, ino, |Content(fs, ino)|, cs).2
    ensures var (fs', pos', _) := WriteChunks(fs, ino, |Content(fs, ino)|, cs);
            && Ok(fs') && Content(fs', ino) == Content(fs, ino) + Flatten(cs) && pos' == |Content(fs', ino)|
            && forall i {:trigger Content(fs', i)} :: i != ino ==> Content(fs', i) == Content(fs, i)
    decreases |cs|
  {
    hide WellFormed, Ok, FsWrite, Content;
    if cs == [] {
      assert Content(fs, ino) + Flatten(cs) == Content(fs, ino);
    } else {
      var (fs1, pos1, _) := VfsWrite(fs, ino, |Content(fs, ino)|, cs[0]);
      WriteAtEnd(fs, ino, cs[0]);
      WritesAppend(fs1, ino, cs[1..]);
      assert Content(fs, ino) + cs[0].data + Flatten(cs[1..]) == Content(fs, ino) + Flatten(cs);
    }
  }

  lemma {:induction false} ReadsCollect<E, B>(fs: Fs<E, B>, ino: nat, pos: nat, lens: seq<nat>)
    requires pos <= |Content(fs, ino)| && forall k :: 0 <= k < |lens| ==> lens[k] > 0
    ensures var (out, done) := ReadChunks(fs, ino, pos, lens);
            && (done ==> out == Content(fs, ino)[pos..])
            && (|lens| > |Content(fs, ino)| - pos ==> done)
    decreases |lens|
  {
    hide Content, ReadAt;
    if lens != [] {
      var got := VfsRead(fs, ino, pos, lens[0]);
      ReadSplits(Content(fs, ino), pos, lens[0]);
      if got != [] { ReadsCollect(fs, ino, pos + |got|, lens[1..]); }
    }
  }

  lemma ReadSplits(c: Bytes, pos: nat, len: nat)
    requires pos <= |c| && len > 0
    ensures var got := ReadAt(c, pos, len);
            && pos + |got| <= |c| && c[pos..] == got + c[pos + |got|..] && (got == [] <==> pos == |c|)
  {
  }

  /** For every pair of chunkings: what consecutive writes put into an empty file, plain or appending, is what
      consecutive reads of any positive lengths bring back, and enough reads always reach the end. */
  lemma ChunkingIndependence<E, B>(fs: Fs<E, B>, ino: nat, cs: seq<Chunk<B>>, lens: seq<nat>)
    requires Ok(fs) && Content(fs, ino) == [] && WriteChunks(fs, ino, 0, cs).2
    requires forall k :: 0 <= k < |lens| ==> lens[k] > 0
    ensures var fs' := WriteChunks(fs, ino, 0, cs).0;
            var (out, done) := ReadChunks(fs', ino, 0, lens);
            && (done ==> out == Flatten(cs))
            && (|lens| > |Flatten(cs)| ==> done)
  {
    WritesAppend(fs, ino, cs);
    var fs' := WriteChunks(fs, ino, 0, cs).0;
    ReadsCollect(fs', ino, 0, lens);
    assert [] + Flatten(cs) == Flatten(cs);
    assert Content(fs', ino)[0..] == Content(fs', ino);
  }
}
