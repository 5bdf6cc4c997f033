/** inode_ops.c and file_ops.c over the entry objects and the server object: every call is one step of the
    models that the properties are proved about. */
module Kernel {
  import opened Lists
  import opened Paths
  import opened Tree
  import opened TreePaths
  import opened FileData
  import opened Inodes
  import opened FileOps
  import opened Listings
  import opened Storage
  import Base64
  import Codes
  import Http
  import ReadCodec
  import Readdir
  import Server
  import Service
  import Sync
  import Undo
  import WriteCodec

  /** A mounted file system; `remote` is `use_remote_server`. */
  class Mount {
    const storage: VtfsStorage
    const server: Service.FileSystemService
    const remote: bool

    /** A remount: an empty tree before a server that may already hold rows. */
    constructor (server: Service.FileSystemService, remote: bool)
      ensures this.server == server && this.remote == remote && fresh(storage) && fresh(storage.all)
      ensures storage.Valid() && storage.root != null && storage.state == FreshState<Entry, array<bv8>>(storage.root)
    {
      this.server, this.remote := server, remote;
      storage := new VtfsStorage();
    }

    /** `build_path`. */
    method BuildPath(e: Entry) returns (path: string)
      requires storage.Valid() && e in storage.all
      ensures e in storage.state.tree.nodes && path == TreePaths.BuildPath(storage.state.tree, e)
      decreases Rank(storage.state.tree.all, e)
    {
      storage.InStep(e);
      if e == storage.root {
        return "/";
      }
      VictimFacts(storage.state.tree, e);
      UpIsOlder(storage.state.tree, e);
      if e.parent != storage.root {
        path := BuildPath(e.parent);
        path := path + "/" + e.name;
      } else {
        path := "/" + e.name;
      }
    }

    /** `vtfs_storage_create_entry`: the entry, and its path pushed to the server. */
    method CreateEntry(parent: Entry, name: string, dir: bool, memory: bool) returns (r: Entry?)
      requires storage.Valid() && parent in storage.all && IsName(name)
      modifies storage, storage.all, server
      ensures storage.Valid() && storage.live == old(storage.live)
      ensures r != null ==> fresh(r) && storage.all == [r] + old(storage.all)
      ensures r == null ==> storage.all == old(storage.all)
      ensures parent in old(storage.state.tree.nodes) && WellFormed(old(storage.state.tree))
      ensures r != null <==> memory && HasRoom(old(storage.state.tree), parent, name)
      ensures var (tree', ok) := Tree.CreateEntry(old(storage.state.tree), parent, name, dir, 0, Opt(r));
              && ok == (r != null) && storage.state == WithTree(old(storage.state), tree', FileRec(None, 0, 0))
      ensures server.table ==
              if r != null && remote
              then Server.CreateRow(old(server.table), FetchPath(old(storage.state.tree), parent, name), Sync.TypeName(dir)).0
              else old(server.table)
    {
      hide WellFormed;
      storage.InStep(parent);
      ghost var was := storage.state.tree;
      r := storage.CreateEntry(parent, name, dir, 0, memory);
      if r != null && remote {
        var path := BuildPath(r);
        CreatePaths(was, parent, name, dir, 0, Opt(r));
        var answer := server.Create(path, Sync.TypeName(dir));
      }
    }

    /** `vtfs_storage_delete_entry`: the path is built before the entry goes, the delete is sent after. */
    method DeleteEntry(e: Entry) returns (err: Errno)
      requires storage.Valid() && e in storage.all
      modifies storage, storage.all, server
      ensures storage.Valid() && storage.live <= old(storage.live)
      ensures e in old(storage.state.tree.nodes) && e in old(storage.state.files) && WellFormed(old(storage.state.tree))
      ensures (storage.state, err) == FsDelete(old(storage.state), e)
      ensures server.table ==
              if err == OK && remote
              then Server.DeleteRow(old(server.table), TreePaths.BuildPath(old(storage.state.tree), e)).0
              else old(server.table)
    {
      hide WellFormed;
      storage.InStep(e);
      var path := BuildPath(e);
      err := storage.DeleteEntry(e);
      if err == OK && remote {
        var answer := server.Delete(path);
      }
    }

    /** `vtfs_create`; `inodeOk` says whether a VFS inode could be had. `mem` is the entry's address. */
    method VtfsCreate(parentIno: nat, name: string, memory: bool, inodeOk: bool)
      returns (err: Errno, ghost mem: Option<Entry>)
      requires storage.Valid() && IsName(name)
      modifies storage, storage.all, server
      ensures storage.Valid() && WellFormed(old(storage.state.tree))
      ensures var m := Making(parentIno, name, false, mem, inodeOk);
              && Makes(old(storage.state), m, storage.state, err)
              && Codes.MakeAnswers(old(storage.state.tree), parentIno, name, mem, inodeOk, err)
              && server.table == Pushed(old(storage.state.tree), old(server.table), m.AsCall(), remote)
      ensures mem.Some? ==> fresh(mem.value)
      ensures mem.Some? <==> memory && RoomBelow(old(storage.state.tree), parentIno, name)
    {
      hide WellFormed, Makes, Codes.MakeAnswers, Pushed, FsDelete, WithTree, Tree.CreateEntry, Tree.GetByIno,
           MadeWith, CreateSent;
      ghost var was, table := storage.state, server.table;
      var parent := storage.GetByIno(parentIno);
      if parent == null {
        mem := None;
        MakesNothing(was, table, Making(parentIno, name, false, mem, inodeOk), remote);
        MakeCode(was, Making(parentIno, name, false, mem, inodeOk), was, ENOENT);
        return ENOENT, mem;
      }
      var entry := CreateEntry(parent, name, false, memory);
      mem := Opt(entry);
      ghost var m := Making(parentIno, name, false, mem, inodeOk);
      if entry == null {
        MakeFails(was, table, m, remote, parent);
        MakeCode(was, m, storage.state, EEXIST);
        return EEXIST, mem;
      }
      MadeParts(was, table, m, remote, parent);
      if inodeOk {
        MakeSucceeds(was, table, m, remote, parent);
        MakeCode(was, m, storage.state, OK);
        return OK, mem;
      }
      MakeRollsBack(was, table, m, remote, parent);
      err := DeleteEntry(entry);
      err := ENOMEM;
      MakeCode(was, m, storage.state, err);
    }

    /** `vtfs_mkdir`. */
    method VtfsMkdir(parentIno: nat, name: string, memory: bool, inodeOk: bool)
      returns (err: Errno, ghost mem: Option<Entry>)
      requires storage.Valid() && IsName(name)
      modifies storage, storage.all, server
      ensures storage.Valid() && WellFormed(old(storage.state.tree))
      ensures var m := Making(parentIno, name, true, mem, inodeOk);
              && Makes(old(storage.state), m, storage.state, err)
              && Codes.MakeAnswers(old(storage.state.tree), parentIno, name, mem, inodeOk, err)
              && server.table == Pushed(old(storage.state.tree), old(server.table), m.AsCall(), remote)
      ensures mem.Some? ==> fresh(mem.value)
      ensures mem.Some? <==> memory && RoomBelow(old(storage.state.tree), parentIno, name)
    {
      hide WellFormed, Makes, Codes.MakeAnswers, Pushed, FsDelete, WithTree, Tree.CreateEntry, Tree.GetByIno,
           MadeWith, CreateSent, SetNlink, HasRoom, Server.CreateRow, FetchPath, TreePaths.BuildPath;
      ghost var was, table := storage.state, server.table;
      var parent := storage.GetByIno(parentIno);
      if parent == null {
        mem := None;
        MakesNothing(was, table, Making(parentIno, name, true, mem, inodeOk), remote);
        MakeCode(was, Making(parentIno, name, true, mem, inodeOk), was, ENOENT);
        return ENOENT, mem;
      }
      var entry := CreateEntry(parent, name, true, memory);
      mem := Opt(entry);
      ghost var m := Making(parentIno, name, true, mem, inodeOk);
      if entry == null {
        MakeFails(was, table, m, remote, parent);
        MakeCode(was, m, storage.state, EEXIST);
        return EEXIST, mem;
      }
      MadeParts(was, table, m, remote, parent);
      storage.AssignNlink(entry, 2);
      if inodeOk {
        MakeSucceeds(was, table, m, remote, parent);
        MakeCode(was, m, storage.state, OK);
        return OK, mem;
      }
      MakeRollsBack(was, table, m, remote, parent);
      err := DeleteEntry(entry);
      err := ENOMEM;
      MakeCode(was, m, storage.state, err);
    }

    /** `vtfs_unlink`. */
    method VtfsUnlink(parentIno: nat, name: string) returns (err: Errno)
      requires storage.Valid()
      modifies storage, storage.all, server
      ensures storage.Valid() && WellFormed(old(storage.state.tree))
      ensures storage.state == FsUnlink(old(storage.state), parentIno, name)
      ensures err == UnlinkStep(old(storage.state.tree), parentIno, name).1
      ensures Codes.UnlinkAnswers(old(storage.state.tree), parentIno, name, err)
      ensures server.table ==
              Pushed(old(storage.state.tree), old(server.table), Sync.UnlinkCall(parentIno, name), remote)
    {
      hide WellFormed, FsDelete, Tree.DeleteEntry, Tree.GetByIno, Tree.Lookup, Server.DeleteRow, Codes.UnlinkAnswers;
      ghost var was := storage.state;
      Codes.UnlinkCode(was.tree, parentIno, name);
      var parent := storage.GetByIno(parentIno);
      if parent == null {
        return ENOENT;
      }
      var child := storage.Lookup(parent, name);
      if child == null {
        return ENOENT;
      }
      storage.InStep(child);
      DeleteParts(was, child);
      err := DeleteEntry(child);
    }

    /** `vtfs_rmdir`. */
    method VtfsRmdir(parentIno: nat, name: string) returns (err: Errno)
      requires storage.Valid()
      modifies storage, storage.all, server
      ensures storage.Valid() && WellFormed(old(storage.state.tree))
      ensures storage.state == FsRmdir(old(storage.state), parentIno, name)
      ensures err == RmdirStep(old(storage.state.tree), parentIno, name).1
      ensures Codes.RmdirAnswers(old(storage.state.tree), parentIno, name, err)
      ensures server.table ==
              Pushed(old(storage.state.tree), old(server.table), Sync.RmdirCall(parentIno, name), remote)
    {
      hide WellFormed, FsDelete, Tree.DeleteEntry, Tree.GetByIno, Tree.Lookup, Server.DeleteRow, Codes.RmdirAnswers;
      ghost var was := storage.state;
      Codes.RmdirCode(was.tree, parentIno, name);
      var parent := storage.GetByIno(parentIno);
      if parent == null {
        return ENOENT;
      }
      var child := storage.Lookup(parent, name);
      if child == null {
        return ENOENT;
      }
      storage.InStep(child);
      DeleteParts(was, child);
      if !child.dir {
        return ENOTDIR;
      }
      if child.children != [] {
        return ENOTEMPTY;
      }
      err := DeleteEntry(child);
    }

    /** `vtfs_link`, which the server is not told about. */
    method VtfsLink(targetIno: nat, parentIno: nat, name: string, memory: bool)
      returns (err: Errno, ghost mem: Option<Entry>)
      requires storage.Valid() && IsName(name)
      modifies storage, storage.all
      ensures storage.Valid()
      ensures storage.state == FsLink(old(storage.state), targetIno, parentIno, name, mem)
      ensures err == LinkStep(old(storage.state.tree), targetIno, parentIno, name, mem).1
      ensures WellFormed(old(storage.state.tree))
      ensures Codes.LinkAnswers(old(storage.state.tree), targetIno, parentIno, name, mem, err)
      ensures mem.Some? ==> fresh(mem.value)
      ensures var s := old(storage.state.tree);
              var target := Tree.GetByIno(s, targetIno);
              mem.Some? <==> memory && target.Some? && target.value in s.nodes && !s.nodes[target.value].dir
                             && RoomBelow(s, parentIno, name)
    {
      hide WellFormed, FsLink, LinkStep, WithTree, Tree.CreateEntry, Tree.AddLink, Tree.GetByIno, Codes.LinkAnswers;
      ghost var was := storage.state;
      mem := None;
      Codes.LinkCode(was.tree, targetIno, parentIno, name, None);
      var target := storage.GetByIno(targetIno);
      LinkRefused(was, targetIno, parentIno, name, None);
      if target == null {
        return ENOENT, None;
      }
      storage.InStep(target);
      if target.dir {
        return EPERM, None;
      }
      var parent := storage.GetByIno(parentIno);
      if parent == null {
        return ENOENT, None;
      }
      TargetNumber(was.tree, target);
      var link := storage.CreateEntry(parent, name, false, target.ino, memory);
      mem := Opt(link);
      Linking(was, targetIno, parentIno, name, mem, target, parent);
      Codes.LinkCode(was.tree, targetIno, parentIno, name, mem);
      if link == null {
        return EEXIST, mem;
      }
      err := ShareName(link, target);
    }

    /** The fields of the new name, and the counters of all names. */
    method ShareName(link: Entry, target: Entry) returns (err: Errno)
      requires storage.Valid() && link in storage.all && target in storage.all && link != target
      modifies storage, storage.all
      ensures storage.Valid() && target in old(storage.state.tree.nodes)
      ensures target in old(storage.state.files) && link in old(storage.state.files)
      ensures var was := old(storage.state);
              && err == Tree.AddLink(was.tree, target).1
              && storage.state == was.(files := was.files[link := was.files[target]], tree := Tree.AddLink(was.tree, target).0)
    {
      hide WellFormed, Tree.AddLink;
      storage.InStep(target);
      storage.ShareFile(link, target);
      err := storage.AddLink(target);
    }

    /** The last part of `fetch_from_remote`: content goes into the new entry, and back to the server, whose
        decoder answers `cut` to a push that did not fit. */
    method StoreBody(e: Entry, body: array<bv8>, room: bool, cut: Option<Bytes>)
      returns (got: Bytes, ghost mem: Option<array<bv8>>, ghost junk: Bytes)
      requires storage.Valid() && e in storage.all && body !in storage.live && body.Length > 0
      requires e in storage.state.files && LiveRec(storage.state, storage.state.files[e])
      modifies storage, e, storage.live, server
      ensures storage.Valid() && storage.all == old(storage.all)
      ensures Stored(old(storage.state), Some(e), got, mem, junk, storage.state) && |got| <= MAX_FILE_SIZE
      ensures e in old(storage.state.tree.nodes) && WellFormed(old(storage.state.tree))
      ensures room && body.Length <= MAX_FILE_SIZE && !old(e.dir) ==> got == old(body[..])
      ensures server.table ==
              if remote && got != []
              then Sync.Deliver(old(server.table), TreePaths.BuildPath(old(storage.state.tree), e), 0,
                                WriteCodec.Heard(got, cut))
              else old(server.table)
    {
      hide WellFormed, WriteEntry, WriteCodec.Heard;
      storage.InStep(e);
      ghost var made := storage.state;
      var err;
      err, mem, junk := storage.Write(e, body, 0, room);
      WriteKeepsTree(made, e, 0, old(body[..]), mem, junk);
      got := [];
      if err == OK {
        got := body[..];
        if remote {
          var path := BuildPath(e);
          Push(path, 0, got, cut);
        }
      }
    }

    /** `fetch_from_remote`. `body` is what `vtfs_http_read` delivered and `room` whether memory for it can be had;
        `got` is what has been stored. */
    method FetchFromRemote(parent: Entry, name: string, memory: bool, body: array<bv8>, room: bool, cut: Option<Bytes>)
      returns (r: Entry?, got: Bytes, ghost mem: Option<array<bv8>>, ghost junk: Bytes)
      requires storage.Valid() && parent in storage.all && IsName(name) && body !in storage.live
      modifies storage, storage.all, storage.live, server
      ensures storage.Valid() && (r != null ==> fresh(r) && r in storage.all)
      ensures parent in old(storage.state.tree.nodes) && WellFormed(old(storage.state.tree))
      ensures var kind := RemoteKind(old(storage.state.tree), old(server.table), parent, name, remote);
              if kind.None? then r == null && got == [] && storage.state == old(storage.state)
              else
                var (tree', ok) := Tree.CreateEntry(old(storage.state.tree), parent, name, kind.value, 0, Opt(r));
                && ok == (r != null)
                && (got != [] ==> r != null && !kind.value && |got| <= MAX_FILE_SIZE)
                && Stored(WithTree(old(storage.state), tree', NoFile()), Opt(r), got, mem, junk, storage.state)
      ensures server.table == if got == [] then old(server.table)
                              else Sync.Deliver(old(server.table), FetchPath(old(storage.state.tree), parent, name), 0,
                                                WriteCodec.Heard(got, cut))
      ensures var kind := RemoteKind(old(storage.state.tree), old(server.table), parent, name, remote);
              && (r != null <==> memory && kind.Some? && HasRoom(old(storage.state.tree), parent, name))
              && (r != null && !kind.value && room && body.Length <= MAX_FILE_SIZE ==> got == old(body[..]))
    {
      hide WellFormed, WithTree, Tree.CreateEntry, Stored, TreePaths.BuildPath, Sync.Deliver, Tree.Lookup,
           WriteCodec.Heard;
      r, got, mem, junk := null, [], None, [];
      storage.InStep(parent);
      if !remote {
        return;
      }
      ghost var was := storage.state;
      var path := BuildPath(parent);
      if path != "/" {
        path := path + "/";
      }
      path := path + name;
      assert path == FetchPath(was.tree, parent, name);
      var answer := server.Stat(path);
      if answer.Error? {
        return;
      }
      var dir := answer.data == Server.DIR;
      r := storage.CreateEntry(parent, name, dir, 0, memory);
      NothingStored(storage.state, Opt(r));
      if r == null {
        return;
      }
      FetchedEntry(was, parent, name, dir, r);
      storage.InStep(r);
      assert body.Length == 0 ==> body[..] == [];
      if !dir && body.Length > 0 {
        got, mem, junk := StoreBody(r, body, room, cut);
      }
    }

    /** `vtfs_lookup`; `inodeOk` says whether a VFS inode could be had for the child. */
    method VtfsLookup(parentIno: nat, name: string, memory: bool, body: array<bv8>, room: bool, cut: Option<Bytes>,
                      inodeOk: bool)
      returns (child: Entry?, err: Errno, got: Bytes,
               ghost mem: Option<Entry>, ghost bufMem: Option<array<bv8>>, ghost junk: Bytes)
      requires storage.Valid() && IsName(name) && body !in storage.live
      modifies storage, storage.all, storage.live, server
      ensures storage.Valid() && WellFormed(old(storage.state.tree))
      ensures var tree, table := old(storage.state.tree), old(server.table);
              var parent := Tree.GetByIno(tree, parentIno);
              var back := if got == [] then None else WriteCodec.Heard(got, cut);
              && err == (if parent.None? then ENOENT else if child != null && !inodeOk then ENOMEM else OK)
              && Opt(child) == (if parent.None? then None else Tree.Lookup(storage.state.tree, parent.value, name))
              && Stored(FsStep(old(storage.state), Lookup_(parentIno, name, mem, Answer(tree, table, parent, name, remote))),
                        mem, got, bufMem, junk, storage.state)
              && server.table == Pushed(tree, table, Sync.LookupCall(parentIno, name, mem, back), remote)
      ensures mem.Some? ==> fresh(mem.value)
      ensures var tree, table := old(storage.state.tree), old(server.table);
              var answer := Answer(tree, table, Tree.GetByIno(tree, parentIno), name, remote);
              && (mem.Some? <==> memory && answer.Some? && RoomBelow(tree, parentIno, name))
              && (mem.Some? && !answer.value && room && body.Length <= MAX_FILE_SIZE ==> got == old(body[..]))
    {
      hide WellFormed, Pushed, Answer, Stored, FsStep, Tree.GetByIno, Tree.Lookup, WithTree, Tree.CreateEntry, RemoteKind,
           Server.WriteRow;
      ghost var was, table := storage.state, server.table;
      child, got, mem, bufMem, junk := null, [], None, None, [];
      var parent := storage.GetByIno(parentIno);
      NothingStored(was, None);
      if parent == null {
        LookedLocally(was, table, parentIno, name, remote);
        err := ENOENT;
        return;
      }
      storage.InStep(parent);
      child := storage.Lookup(parent, name);
      if child == null {
        child, got, bufMem, junk := FetchFromRemote(parent, name, memory, body, room, cut);
        mem := Opt(child);
        LookedRemotely(was, table, parentIno, parent, name, mem, got, bufMem, junk, WriteCodec.Heard(got, cut), remote,
                       storage.state);
      } else {
        LookedLocally(was, table, parentIno, name, remote);
      }
      err := if child != null && !inodeOk then ENOMEM else OK;
    }

    /** `vtfs_write` at a file position; `chunk` tells what the allocator returned if the buffer had to grow, and the
        server's decoder answers `cut0` and `cut1` to pushes that did not fit. */
    method VtfsWrite(ino: nat, pos: nat, buffer: array<bv8>, append: bool, memory: bool,
                     cut0: Option<Bytes>, cut1: Option<Bytes>)
      returns (newPos: nat, err: Errno, ghost chunk: Chunk<array<bv8>>)
      requires storage.Valid() && Ok(storage.state) && buffer !in storage.live
      modifies storage, storage.all, storage.live, server
      ensures storage.Valid() && chunk.data == old(buffer[..]) && chunk.append == append
      ensures WellFormed(old(storage.state.tree)) && Ok(old(storage.state))
      ensures (storage.state, newPos, err) == FileOps.VfsWrite(old(storage.state), ino, pos, chunk)
      ensures (err == OK ==> newPos >= |chunk.data|) && (err == ENOMEM ==> !memory)
      ensures server.table ==
              if err != OK then old(server.table)
              else Pushed(old(storage.state.tree), old(server.table),
                          Sync.WriteCall(ino, newPos - |chunk.data|, |chunk.data|, WriteCodec.Heard(chunk.data, cut0),
                                         WriteCodec.Heard(chunk.data, cut1)), remote)
    {
      hide WellFormed, Ok, WriteEntry, Tree.GetByIno, Pushed, FileOps.VfsWrite, LiveRec, TwoWrites, TreePaths.BuildPath,
           WriteCodec.Heard;
      ghost var was, table, data := storage.state, server.table, buffer[..];
      newPos, chunk := pos, Chunk(data, append, None, []);
      LiveHead(was, ino);
      RefusedWrite(was, ino, pos, chunk);
      var entry := storage.GetByIno(ino);
      if entry == null {
        return pos, ENOENT, chunk;
      }
      storage.InStep(entry);
      if entry.dir {
        return pos, EISDIR, chunk;
      }
      if pos + buffer.Length > MAX_FILE_SIZE {
        return pos, EFBIG, chunk;
      }
      if append {
        newPos := entry.size;
      }
      ghost var mem, junk;
      err, mem, junk := WriteThrough(entry, buffer, newPos, memory, cut0, cut1);
      chunk := Chunk(data, append, mem, junk);
      Written(was, table, ino, pos, chunk, entry, WriteCodec.Heard(data, cut0), WriteCodec.Heard(data, cut1), remote);
      if err == OK {
        newPos := newPos + buffer.Length;
      }
    }

    /** The local write and, if it succeeds, its pushes. */
    method WriteThrough(entry: Entry, buffer: array<bv8>, offset: nat, memory: bool,
                        cut0: Option<Bytes>, cut1: Option<Bytes>)
      returns (err: Errno, ghost mem: Option<array<bv8>>, ghost junk: Bytes)
      requires storage.Valid() && entry in storage.all && buffer !in storage.live
      requires entry in storage.state.files && LiveRec(storage.state, storage.state.files[entry])
      modifies storage, entry, storage.live, server
      ensures storage.Valid() && entry in old(storage.state.tree.nodes) && WellFormed(old(storage.state.tree))
      ensures (storage.state, err) == WriteEntry(old(storage.state), entry, offset, old(buffer[..]), mem, junk)
      ensures err == ENOMEM ==> !memory
      ensures server.table ==
              if err == OK && remote
              then TwoWrites(old(server.table), TreePaths.BuildPath(old(storage.state.tree), entry), offset,
                             WriteCodec.Heard(old(buffer[..]), cut0), WriteCodec.Heard(old(buffer[..]), cut1))
              else old(server.table)
    {
      hide WellFormed, WriteEntry, TwoWrites, TreePaths.BuildPath, LiveRec, WriteCodec.Heard;
      storage.InStep(entry);
      ghost var was, data := storage.state, buffer[..];
      err, mem, junk := storage.Write(entry, buffer, offset, memory);
      WriteKeepsTree(was, entry, offset, data, mem, junk);
      if err == OK {
        PushWrite(entry, offset, buffer[..], cut0, cut1);
      }
    }

    /** The pushes that follow a local write: at offset 0 by the storage layer, then at the write's own offset. */
    method PushWrite(entry: Entry, offset: nat, data: Bytes, cut0: Option<Bytes>, cut1: Option<Bytes>)
      requires storage.Valid() && entry in storage.all
      modifies server
      ensures entry in storage.state.tree.nodes && WellFormed(storage.state.tree)
      ensures server.table ==
              if remote then TwoWrites(old(server.table), TreePaths.BuildPath(storage.state.tree, entry), offset,
                                       WriteCodec.Heard(data, cut0), WriteCodec.Heard(data, cut1))
              else old(server.table)
    {
      hide WellFormed;
      storage.InStep(entry);
      if remote {
        var path := BuildPath(entry);
        Push(path, 0, data, cut0);
        path := BuildPath(entry);
        Push(path, offset, data, cut1);
      }
    }

    /** `vtfs_http_write`: the server writes what it can decode of the request. */
    method Push(path: string, offset: nat, data: Bytes, cut: Option<Bytes>)
      modifies server
      ensures server.table == Sync.Deliver(old(server.table), path, offset, WriteCodec.Heard(data, cut))
    {
      var heard := WriteCodec.Heard(data, cut);
      if heard.Some? {
        var written := server.Write(path, offset, heard.value);
      }
    }

    /** `vtfs_read`: the bytes that the server's `reply` carries, or those of the local buffer when it carries none;
        the end of the file is the local one. A reply with status 200 that brings the server's slice in chunks `cs`
        behind `head` is used exactly when its body fits the kernel's buffer. */
    method VtfsRead(ino: nat, pos: nat, len: nat, reply: string, ghost head: string, ghost cs: seq<Http.Chunk>)
      returns (got: Bytes, newPos: nat, err: Errno)
      requires storage.Valid() && Ok(storage.state)
      ensures newPos == pos + |got|
      ensures WellFormed(storage.state.tree)
      ensures var h := Tree.GetByIno(storage.state.tree, ino);
              if h.None? || h.value !in storage.state.tree.nodes then err == ENOENT && got == []
              else if storage.state.tree.nodes[h.value].dir then err == EISDIR && got == []
              else
                var read := ReadCodec.HttpRead(reply, len);
                var local := FileOps.VfsRead(storage.state, ino, pos, len);
                var path := TreePaths.BuildPath(storage.state.tree, h.value);
                var asked := remote && pos < |Content(storage.state, ino)|;
                && err == OK && |got| <= len
                && got == (if asked && read.Some? then read.value else local)
                && (asked && Carries(reply, head, cs, server.table, path, pos, len) ==>
                      var slice := Server.ReadRow(server.table, path, pos, Some(len)).data;
                      got == if |slice| <= 3054 then slice else local)
    {
      hide WellFormed, Ok, Tree.GetByIno, Server.ReadRow, ReadCodec.HttpRead, Carries,
           ReadAt, LiveRec, Content, FileOps.VfsRead;
      LiveHead(storage.state, ino);
      ContentIs(storage.state, ino, pos, len);
      var entry := storage.GetByIno(ino);
      if entry == null {
        return [], pos, ENOENT;
      }
      storage.InStep(entry);
      if entry.dir {
        return [], pos, EISDIR;
      }
      err := OK;
      if pos >= entry.size {
        return [], pos, OK;
      }
      if remote {
        var path := BuildPath(entry);
        var read := ReadCodec.HttpRead(reply, len);
        ReplyRead(reply, head, cs, server.table, path, pos, len);
        if read.Some? {
          return read.value, pos + |read.value|, OK;
        }
      }
      got := ReadLocal(entry, pos, len);
      newPos := pos + |got|;
    }

    method ReadLocal(entry: Entry, pos: nat, len: nat) returns (got: Bytes)
      requires storage.Valid() && entry in storage.all && !entry.dir
      requires entry in storage.state.files && LiveRec(storage.state, storage.state.files[entry])
      ensures var r := storage.state.files[entry]; got == ReadAt(Buffer(storage.state, r)[..r.size], pos, len)
    {
      hide WellFormed, ReadAt;
      var kbuffer := new bv8[len];
      var n, err := storage.Read(entry, kbuffer, len, pos);
      got := kbuffer[..n];
    }

    /** `vtfs_iterate`; `upIno` is the number of the parent dentry's inode. */
    method VtfsIterate(ctx: Readdir.DirContext, ino: nat, upIno: nat) returns (stored: nat, err: Errno)
      requires storage.Valid()
      modifies ctx
      ensures var s := storage.state.tree;
              var d := Tree.GetByIno(s, ino);
              if d.None? || d.value !in s.nodes then err == ENOENT && stored == 0 && unchanged(ctx)
              else if !s.nodes[d.value].dir then err == ENOTDIR && stored == 0 && unchanged(ctx)
              else
                var list := Readdir.Listing(ino, upIno, Dirents(s.nodes, s.nodes[d.value].children));
                && err == OK && stored == Readdir.Batch(list, old(ctx.pos), old(ctx.room))
                && ctx.pos == old(ctx.pos) + stored && ctx.room == old(ctx.room) - stored
                && ctx.emitted == old(ctx.emitted) + Readdir.Emitted(list, old(ctx.pos), old(ctx.room))
    {
      hide WellFormed, Tree.GetByIno;
      GetByInoFacts(storage.state.tree, ino);
      var dir := storage.GetByIno(ino);
      if dir == null {
        return 0, ENOENT;
      }
      storage.InStep(dir);
      if !dir.dir {
        return 0, ENOTDIR;
      }
      var list := ChildList(dir);
      stored := Readdir.Iterate(ctx, ino, upIno, list);
      err := OK;
    }

    /** The child list as directory entries. */
    method ChildList(dir: Entry) returns (list: seq<Readdir.Dirent>)
      requires storage.Valid() && dir in storage.all
      ensures dir in storage.state.tree.nodes
      ensures list == Dirents(storage.state.tree.nodes, storage.state.tree.nodes[dir].children)
    {
      hide WellFormed, NoDup;
      storage.InStep(dir);
      ghost var nodes := storage.state.tree.nodes;
      list := [];
      for i := 0 to |dir.children|
        invariant list == Dirents(nodes, dir.children[..i])
      {
        var c := dir.children[i];
        ListedChild(storage.state.tree, dir, i);
        storage.InStep(c);
        list := list + [Readdir.Dirent(c.name, c.ino, if c.dir then Readdir.DT_DIR else Readdir.DT_REG)];
        assert dir.children[..i + 1] == dir.children[..i] + [c];
        DirentsAppend(nodes, dir.children[..i], c);
      }
      assert dir.children[..|dir.children|] == dir.children;
    }
  }

  lemma ListedChild<E>(s: Store<E>, d: E, i: nat)
    requires WellFormed(s) && d in s.nodes && i < |s.nodes[d].children|
    ensures s.nodes[d].children[i] in s.nodes && s.nodes[d].children[i] in s.all
  {
    ChildrenLive(s, d);
  }

  function NoFile(): FileRec<array<bv8>> {
    FileRec(None, 0, 0)
  }

  /** The name can be created below the directory with that number. */
  predicate RoomBelow<E>(s: Store<E>, parentIno: nat, name: string) {
    var d := GetByIno(s, parentIno);
    d.Some? && d.value in s.nodes && HasRoom(s, d.value, name)
  }

  /** What `vtfs_http_stat` says about a name, if there is a server. */
  ghost function RemoteKind(s: Store<Entry>, table: Server.Table, parent: Entry, name: string, remote: bool): Option<bool>
    requires WellFormed(s) && parent in s.nodes
  {
    if remote then Sync.RemoteType(table, FetchPath(s, parent, name)) else None
  }

  /** The stat answer that decides a lookup below a directory, if the directory is there. */
  ghost function Answer(s: Store<Entry>, table: Server.Table, parent: Option<Entry>, name: string, remote: bool): Option<bool>
    requires WellFormed(s)
  {
    if parent.Some? && parent.value in s.nodes then RemoteKind(s, table, parent.value, name, remote) else None
  }

  lemma LookedLocally(fs: Fs<Entry, array<bv8>>, table: Server.Table, p: nat, n: string, remote: bool)
    requires WellFormed(fs.tree) && fs.files.Keys == fs.tree.nodes.Keys
    requires GetByIno(fs.tree, p).None? || Lookup(fs.tree, GetByIno(fs.tree, p).value, n).Some?
    ensures FsStep(fs, Lookup_(p, n, None, Answer(fs.tree, table, GetByIno(fs.tree, p), n, remote))) == fs
    ensures Pushed(fs.tree, table, Sync.LookupCall(p, n, None, None), remote) == table
  {
    hide WellFormed, GetByIno, Lookup;
    WithSameTree(fs, NoFile());
  }

  /** A fetch, seen from the models: the directory's answer decides, and the new entry is what a lookup finds. */
  lemma LookedRemotely(fs: Fs<Entry, array<bv8>>, table: Server.Table, p: nat, d: Entry, n: string, mem: Option<Entry>,
                       got: Bytes, bufMem: Option<array<bv8>>, junk: Bytes, back: Option<Bytes>, remote: bool,
                       fs': Fs<Entry, array<bv8>>)
    requires WellFormed(fs.tree) && fs.files.Keys == fs.tree.nodes.Keys
    requires GetByIno(fs.tree, p) == Some(d) && d in fs.tree.nodes && Lookup(fs.tree, d, n).None?
    requires var kind := RemoteKind(fs.tree, table, d, n, remote);
             if kind.None? then mem == None && got == [] && fs' == fs
             else
               var (tree', ok) := Tree.CreateEntry(fs.tree, d, n, kind.value, 0, mem);
               && ok == mem.Some? && (got != [] ==> mem.Some? && !kind.value && |got| <= MAX_FILE_SIZE)
               && Stored(WithTree(fs, tree', NoFile()), mem, got, bufMem, junk, fs')
    ensures Stored(FsStep(fs, Lookup_(p, n, mem, Answer(fs.tree, table, GetByIno(fs.tree, p), n, remote))),
                   mem, got, bufMem, junk, fs')
    ensures Lookup(fs'.tree, d, n) == mem
    ensures Answer(fs.tree, table, GetByIno(fs.tree, p), n, remote) == RemoteKind(fs.tree, table, d, n, remote)
    ensures Pushed(fs.tree, table, Sync.LookupCall(p, n, mem, if got == [] then None else back), remote) ==
            if got == [] then table else Sync.Deliver(table, FetchPath(fs.tree, d, n), 0, back)
  {
    hide WellFormed, GetByIno, WriteEntry, Server.WriteRow;
    WithSameTree(fs, NoFile());
    var kind := RemoteKind(fs.tree, table, d, n, remote);
    if kind.Some? {
      var (tree', ok) := Tree.CreateEntry(fs.tree, d, n, kind.value, 0, mem);
      var made := WithTree(fs, tree', NoFile());
      if ok { Undo.CreatedIsVictim(fs.tree, d, n, kind.value, 0, mem); }
      if got != [] { WriteKeepsTree(made, mem.value, 0, got, bufMem, junk); }
    }
  }

  /** Content arriving with a fetched entry is an ordinary write at offset 0. */
  ghost predicate Stored(fs: Fs<Entry, array<bv8>>, e: Option<Entry>, got: Bytes, mem: Option<array<bv8>>, junk: Bytes,
                         fs': Fs<Entry, array<bv8>>)
  {
    if got == [] then fs' == fs
    else
      && e.Some? && e.value in fs.tree.nodes && e.value in fs.files && LiveRec(fs, fs.files[e.value])
      && WriteEntry(fs, e.value, 0, got, mem, junk) == (fs', OK)
  }

  /** What a fetch has stored is what the new file then reads as. */
  lemma FetchedContent(fs: Fs<Entry, array<bv8>>, e: Entry, got: Bytes, mem: Option<array<bv8>>, junk: Bytes,
                       fs': Fs<Entry, array<bv8>>)
    requires Ok(fs) && Stored(fs, Some(e), got, mem, junk, fs') && e in fs.tree.nodes
    requires GetByIno(fs.tree, fs.tree.nodes[e].ino) == Some(e) && Content(fs, fs.tree.nodes[e].ino) == []
    ensures Ok(fs') && Content(fs', fs.tree.nodes[e].ino) == got
  {
    var ino := fs.tree.nodes[e].ino;
    if got != [] {
      assert FsWrite(fs, ino, 0, got, mem, junk) == (fs', OK);
      hide WellFormed, Ok, WriteEntry, FsWrite, GetByIno, Content, Stored;
      WriteOk(fs, ino, 0, got, mem, junk);
      assert GapSplice([], [], 0, got) == got;
    }
  }

  lemma NothingStored(fs: Fs<Entry, array<bv8>>, e: Option<Entry>)
    ensures Stored(fs, e, [], None, [], fs)
  {
  }

  lemma FetchedEntry(fs: Fs<Entry, array<bv8>>, parent: Entry, name: string, dir: bool, r: Entry)
    requires WellFormed(fs.tree) && IsName(name) && fs.files.Keys == fs.tree.nodes.Keys
    requires Tree.CreateEntry(fs.tree, parent, name, dir, 0, Some(r)).1
    ensures var t1 := Tree.CreateEntry(fs.tree, parent, name, dir, 0, Some(r)).0;
            var made := WithTree(fs, t1, NoFile());
            && WellFormed(t1) && r in t1.nodes && t1.nodes[r].dir == dir
            && made.tree == t1 && r in made.files && LiveRec(made, made.files[r])
            && TreePaths.BuildPath(t1, r) == FetchPath(fs.tree, parent, name)
  {
    hide WellFormed;
    CreateWellFormed(fs.tree, parent, name, dir, 0, Some(r));
    CreatePaths(fs.tree, parent, name, dir, 0, Some(r));
  }

  lemma WriteKeepsTree<E, B>(fs: Fs<E, B>, e: E, offset: nat, data: Bytes, mem: Option<B>, junk: Bytes)
    requires e in fs.tree.nodes && e in fs.files && LiveRec(fs, fs.files[e])
    ensures WriteEntry(fs, e, offset, data, mem, junk).0.tree == fs.tree
    ensures WriteEntry(fs, e, offset, data, mem, junk).1 != OK ==> WriteEntry(fs, e, offset, data, mem, junk).0 == fs
    ensures WriteEntry(fs, e, offset, data, mem, junk).1 == OK ==> offset + |data| <= MAX_FILE_SIZE
    ensures !fs.tree.nodes[e].dir && offset + |data| <= MAX_FILE_SIZE ==>
              WriteEntry(fs, e, offset, data, mem, junk).1 in {OK, ENOMEM}
  {
  }

  /** A create or mkdir, as an operation on the tree, as a system call, and with its error code. */
  datatype Making = Making(parentIno: nat, name: string, dir: bool, mem: Option<Entry>, inodeOk: bool)
  {
    function AsOp(): Op<Entry> {
      if dir then Mkdir(parentIno, name, mem, inodeOk) else Create(parentIno, name, mem, inodeOk)
    }

    function AsCall(): Sync.Call<Entry> {
      if dir then Sync.MkdirCall(parentIno, name, mem, inodeOk) else Sync.CreateCall(parentIno, name, mem, inodeOk)
    }

    function Code(s: Store<Entry>): Errno {
      if dir then MkdirStep(s, parentIno, name, mem, inodeOk).1 else CreateStep(s, parentIno, name, mem, inodeOk).1
    }
  }

  /** What a create or mkdir leaves in the tree and files, and what it returns. */
  ghost predicate Makes(fs: Fs<Entry, array<bv8>>, m: Making, fs': Fs<Entry, array<bv8>>, err: Errno) {
    fs' == FsStep(fs, m.AsOp()) && err == m.Code(fs.tree)
  }

  /** The server's table after a system call: what the two-party machine says, when there is a server. */
  ghost function Pushed(s: Store<Entry>, table: Server.Table, c: Sync.Call<Entry>, remote: bool): Server.Table
    requires WellFormed(s)
  {
    if remote then Sync.Do(Sync.Sys(s, table), c).table else table
  }

  lemma MakeCode(fs: Fs<Entry, array<bv8>>, m: Making, fs': Fs<Entry, array<bv8>>, err: Errno)
    requires WellFormed(fs.tree) && Makes(fs, m, fs', err)
    ensures Codes.MakeAnswers(fs.tree, m.parentIno, m.name, m.mem, m.inodeOk, err)
  {
    hide FsStep, CreateStep, MkdirStep, Codes.MakeAnswers;
    Codes.CreateCode(fs.tree, m.parentIno, m.name, m.mem, m.inodeOk);
    Codes.MkdirCode(fs.tree, m.parentIno, m.name, m.mem, m.inodeOk);
  }

  lemma MakesNothing(fs: Fs<Entry, array<bv8>>, table: Server.Table, m: Making, remote: bool)
    requires WellFormed(fs.tree) && fs.files.Keys == fs.tree.nodes.Keys && GetByIno(fs.tree, m.parentIno).None?
    ensures Makes(fs, m, fs, ENOENT) && Pushed(fs.tree, table, m.AsCall(), remote) == table
  {
    WithSameTree(fs, NoFile());
  }

  lemma MakeFails(fs: Fs<Entry, array<bv8>>, table: Server.Table, m: Making, remote: bool, d: Entry)
    requires WellFormed(fs.tree) && GetByIno(fs.tree, m.parentIno) == Some(d)
    requires !Tree.CreateEntry(fs.tree, d, m.name, m.dir, 0, m.mem).1
    ensures Makes(fs, m, WithTree(fs, Tree.CreateEntry(fs.tree, d, m.name, m.dir, 0, m.mem).0, NoFile()), EEXIST)
    ensures Pushed(fs.tree, table, m.AsCall(), remote) == table
  {
    hide WellFormed, Tree.CreateEntry, GetByIno, WithTree;
  }

  ghost function MadeWith(fs: Fs<Entry, array<bv8>>, d: Entry, m: Making): Fs<Entry, array<bv8>>
    requires Tree.CreateEntry(fs.tree, d, m.name, m.dir, 0, m.mem).1
  {
    var t1 := Tree.CreateEntry(fs.tree, d, m.name, m.dir, 0, m.mem).0;
    CreatedIn(fs.tree, d, m.name, m.dir, m.mem);
    WithTree(fs, if m.dir then SetNlink(t1, m.mem.value, 2) else t1, NoFile())
  }

  ghost function CreateSent(s: Store<Entry>, table: Server.Table, d: Entry, m: Making, remote: bool): Server.Table
    requires WellFormed(s) && d in s.nodes
  {
    if remote then Server.CreateRow(table, FetchPath(s, d, m.name), Sync.TypeName(m.dir)).0 else table
  }

  lemma MakeSucceeds(fs: Fs<Entry, array<bv8>>, table: Server.Table, m: Making, remote: bool, d: Entry)
    requires WellFormed(fs.tree) && GetByIno(fs.tree, m.parentIno) == Some(d) && d in fs.tree.nodes && m.inodeOk
    requires Tree.CreateEntry(fs.tree, d, m.name, m.dir, 0, m.mem).1
    ensures Makes(fs, m, MadeWith(fs, d, m), OK)
    ensures Pushed(fs.tree, table, m.AsCall(), remote) == CreateSent(fs.tree, table, d, m, remote)
  {
    hide WellFormed, Tree.CreateEntry, SetNlink, GetByIno, WithTree;
  }

  lemma CreatedIn<E>(s: Store<E>, parent: E, n: string, dir: bool, mem: Option<E>)
    requires Tree.CreateEntry(s, parent, n, dir, 0, mem).1
    ensures mem.Some? && mem.value in Tree.CreateEntry(s, parent, n, dir, 0, mem).0.nodes
  {
  }

  lemma MadeParts(fs: Fs<Entry, array<bv8>>, table: Server.Table, m: Making, remote: bool, d: Entry)
    requires WellFormed(fs.tree) && IsName(m.name) && d in fs.tree.nodes
    requires Tree.CreateEntry(fs.tree, d, m.name, m.dir, 0, m.mem).1
    ensures m.mem.Some?
    ensures var t1, made := Tree.CreateEntry(fs.tree, d, m.name, m.dir, 0, m.mem).0, MadeWith(fs, d, m);
            && m.mem.value in t1.nodes && WithTree(fs, t1, NoFile()).tree == t1
            && made.tree == (if m.dir then SetNlink(t1, m.mem.value, 2) else t1)
            && made == (if m.dir then WithTree(fs, t1, NoFile()).(tree := made.tree) else WithTree(fs, t1, NoFile()))
            && WellFormed(made.tree) && m.mem.value in made.tree.nodes
            && TreePaths.BuildPath(made.tree, m.mem.value) == FetchPath(fs.tree, d, m.name)
    ensures CreateSent(fs.tree, table, d, m, remote) ==
            if remote then Server.CreateRow(table, FetchPath(fs.tree, d, m.name), Sync.TypeName(m.dir)).0 else table
  {
    hide WellFormed;
    MadePath(fs.tree, d, m.name, m.dir, m.mem);
    var t1, made := Tree.CreateEntry(fs.tree, d, m.name, m.dir, 0, m.mem).0, MadeWith(fs, d, m);
    assert made.files == WithTree(fs, t1, NoFile()).files;
  }

  lemma MakeRollsBack(fs: Fs<Entry, array<bv8>>, table: Server.Table, m: Making, remote: bool, d: Entry)
    requires WellFormed(fs.tree) && fs.files.Keys == fs.tree.nodes.Keys && IsName(m.name)
    requires GetByIno(fs.tree, m.parentIno) == Some(d) && d in fs.tree.nodes && !m.inodeOk
    requires Tree.CreateEntry(fs.tree, d, m.name, m.dir, 0, m.mem).1
    ensures var made, e := MadeWith(fs, d, m), m.mem.value;
            && e in made.tree.nodes && e in made.files && FsDelete(made, e).1 == OK
            && Makes(fs, m, FsDelete(made, e).0, ENOMEM)
            && var sent := CreateSent(fs.tree, table, d, m, remote);
               Pushed(fs.tree, table, m.AsCall(), remote) ==
               if remote then Server.DeleteRow(sent, FetchPath(fs.tree, d, m.name)).0 else sent
  {
    hide WellFormed, Tree.CreateEntry, Tree.DeleteEntry, FsDelete, SetNlink, GetByIno, WithTree,
         Server.CreateRow, Server.DeleteRow;
    RolledBack(fs, d, m.name, m.dir, m.mem);
  }

  lemma DeleteParts<E, B>(fs: Fs<E, B>, e: E)
    requires e in fs.tree.nodes && e in fs.files
    ensures FsDelete(fs, e).1 == Tree.DeleteEntry(fs.tree, e).1
    ensures FsDelete(fs, e).0.tree == Tree.DeleteEntry(fs.tree, e).0
    ensures FsDelete(fs, e).1 != OK ==> FsDelete(fs, e).0 == fs
    ensures fs.tree.nodes[e].dir && fs.tree.nodes[e].children != [] ==> FsDelete(fs, e).1 != OK
  {
  }

  lemma WithSameTree<E, B>(fs: Fs<E, B>, init: FileRec<B>)
    requires fs.files.Keys == fs.tree.nodes.Keys
    ensures WithTree(fs, fs.tree, init) == fs
  {
  }

  /** The ways in which a link is refused before an entry is made. */
  lemma LinkRefused<E, B>(fs: Fs<E, B>, t: nat, p: nat, n: string, mem: Option<E>)
    requires WellFormed(fs.tree) && fs.files.Keys == fs.tree.nodes.Keys
    ensures var target, parent := GetByIno(fs.tree, t), GetByIno(fs.tree, p);
            && (target.Some? ==> target.value in fs.tree.nodes && fs.tree.nodes[target.value].ino == t)
            && (target.None? ==> FsLink(fs, t, p, n, mem) == fs && LinkStep(fs.tree, t, p, n, mem).1 == ENOENT)
            && (target.Some? && fs.tree.nodes[target.value].dir ==>
                  FsLink(fs, t, p, n, mem) == fs && LinkStep(fs.tree, t, p, n, mem).1 == EPERM)
            && (target.Some? && !fs.tree.nodes[target.value].dir && parent.None? ==>
                  FsLink(fs, t, p, n, mem) == fs && LinkStep(fs.tree, t, p, n, mem).1 == ENOENT)
  {
    hide WellFormed, WithTree, GetByIno;
    GetByInoFacts(fs.tree, t);
    if GetByIno(fs.tree, t).Some? { WithSameTree(fs, FileOf(fs, GetByIno(fs.tree, t).value, FileRec(None, 0, 0))); }
  }

  /** A link is a new entry, the target's fields, and the counters of all names. */
  lemma Linking<E, B>(fs: Fs<E, B>, t: nat, p: nat, n: string, mem: Option<E>, target: E, parent: E)
    requires WellFormed(fs.tree) && fs.files.Keys == fs.tree.nodes.Keys
    requires GetByIno(fs.tree, t) == Some(target) && GetByIno(fs.tree, p) == Some(parent)
    requires target in fs.tree.nodes && !fs.tree.nodes[target].dir && fs.tree.nodes[target].ino == t != 0
    ensures var (t1, ok) := Tree.CreateEntry(fs.tree, parent, n, false, t, mem);
            var made := WithTree(fs, t1, FileRec(None, 0, 0));
            && made.tree == t1 && made.files.Keys == t1.nodes.Keys
            && if !ok then FsLink(fs, t, p, n, mem) == made && LinkStep(fs.tree, t, p, n, mem).1 == EEXIST
               else
                 && mem.Some? && mem.value in t1.nodes && target in t1.nodes && target != mem.value
                 && target in made.files && mem.value in made.files && made.files[target] == fs.files[target]
                 && Tree.AddLink(t1, target).1 == OK
                 && LinkStep(fs.tree, t, p, n, mem).1 == OK
                 && FsLink(fs, t, p, n, mem) ==
                    made.(files := made.files[mem.value := made.files[target]], tree := Tree.AddLink(t1, target).0)
  {
    hide WellFormed, GetByIno;
    var (t1, ok) := Tree.CreateEntry(fs.tree, parent, n, false, t, mem);
    var made := WithTree(fs, t1, FileRec(None, 0, 0));
    if !ok {
      WithSameTree(fs, fs.files[target]);
      WithSameTree(fs, FileRec(None, 0, 0));
      assert t1 == fs.tree;
    } else {
      assert t1.nodes.Keys == fs.tree.nodes.Keys + {mem.value};
      assert FsLink(fs, t, p, n, mem).files == made.files[mem.value := fs.files[target]];
    }
  }

  /** Deleting an entry right after its creation frees no buffer. */
  lemma RolledBack<E, B>(fs: Fs<E, B>, parent: E, n: string, dir: bool, mem: Option<E>)
    requires WellFormed(fs.tree) && fs.files.Keys == fs.tree.nodes.Keys
    requires Tree.CreateEntry(fs.tree, parent, n, dir, 0, mem).1
    ensures mem.Some? && mem.value !in fs.files
    ensures var t1 := Tree.CreateEntry(fs.tree, parent, n, dir, 0, mem).0;
            && mem.value in t1.nodes
            && var t2 := if dir then SetNlink(t1, mem.value, 2) else t1;
               var made := WithTree(fs, t2, FileRec(None, 0, 0));
               && mem.value in t2.nodes && mem.value in made.tree.nodes && mem.value in made.files
               && FsDelete(made, mem.value) ==
                  (WithTree(fs, Tree.DeleteEntry(t2, mem.value).0, FileRec(None, 0, 0)), OK)
  {
    hide WellFormed;
    Undo.DeleteUndoesCreate(fs.tree, parent, n, dir, mem, 2);
    hide Tree.DeleteEntry;
    var t1 := Tree.CreateEntry(fs.tree, parent, n, dir, 0, mem).0;
    var t2 := if dir then SetNlink(t1, mem.value, 2) else t1;
    var t3 := Tree.DeleteEntry(t2, mem.value).0;
    var fs2 := WithTree(fs, t2, FileRec(None, 0, 0));
    assert t3.nodes == fs.tree.nodes;
    assert WithTree(fs2, t3, FileRec(None, 0, 0)).files == WithTree(fs, t3, FileRec(None, 0, 0)).files;
  }

  /** The rollback deletes the path that the create has pushed. */
  lemma MadePath<E>(s: Store<E>, parent: E, n: string, dir: bool, mem: Option<E>)
    requires WellFormed(s) && IsName(n) && Tree.CreateEntry(s, parent, n, dir, 0, mem).1
    ensures mem.Some? && mem.value in Tree.CreateEntry(s, parent, n, dir, 0, mem).0.nodes
    ensures var t1 := Tree.CreateEntry(s, parent, n, dir, 0, mem).0;
            var t2 := SetNlink(t1, mem.value, 2);
            && WellFormed(t1) && WellFormed(t2)
            && TreePaths.BuildPath(t1, mem.value) == TreePaths.BuildPath(t2, mem.value) == FetchPath(s, parent, n)
  {
    hide WellFormed;
    var t1 := Tree.CreateEntry(s, parent, n, dir, 0, mem).0;
    var t2 := SetNlink(t1, mem.value, 2);
    CreateWellFormed(s, parent, n, dir, 0, mem);
    CreatePaths(s, parent, n, dir, 0, mem);
    SetNlinkWellFormed(t1, mem.value, 2);
    assert Kept(t1, t2);
    PathFrame(t2, t1, mem.value);
  }

  ghost function TwoWrites(t: Server.Table, path: string, offset: nat, first: Option<Bytes>, second: Option<Bytes>)
    : Server.Table
  {
    Sync.Deliver(Sync.Deliver(t, path, 0, first), path, offset, second)
  }

  lemma LiveHead<E, B>(fs: Fs<E, B>, ino: nat)
    requires Ok(fs)
    ensures WellFormed(fs.tree)
    ensures var h := GetByIno(fs.tree, ino);
            h.Some? ==> h.value in fs.tree.nodes && h.value in fs.files && LiveRec(fs, fs.files[h.value])
  {
    HeadFacts(fs, ino);
  }

  lemma ContentIs<E, B>(fs: Fs<E, B>, ino: nat, pos: nat, len: nat)
    requires Ok(fs)
    ensures var h := GetByIno(fs.tree, ino);
            h.Some? && h.value in fs.files && LiveRec(fs, fs.files[h.value]) ==>
              var r := fs.files[h.value];
              && r.size <= |Buffer(fs, r)| && |Content(fs, ino)| == r.size
              && VfsRead(fs, ino, pos, len) == ReadAt(Buffer(fs, r)[..r.size], pos, len)
              && |VfsRead(fs, ino, pos, len)| <= len && (pos >= r.size ==> VfsRead(fs, ino, pos, len) == [])
  {
    HeadFacts(fs, ino);
  }

  lemma RefusedWrite<E, B>(fs: Fs<E, B>, ino: nat, pos: nat, c: Chunk<B>)
    requires Ok(fs)
    ensures var h := GetByIno(fs.tree, ino);
            && (h.None? ==> VfsWrite(fs, ino, pos, c) == (fs, pos, ENOENT))
            && (h.Some? && h.value in fs.tree.nodes ==>
                  && (fs.tree.nodes[h.value].dir ==> VfsWrite(fs, ino, pos, c) == (fs, pos, EISDIR))
                  && (!fs.tree.nodes[h.value].dir && pos + |c.data| > MAX_FILE_SIZE ==>
                        VfsWrite(fs, ino, pos, c) == (fs, pos, EFBIG)))
  {
    hide Ok, FsWrite;
  }

  /** A write that gets past the checks, on both sides. */
  lemma Written(fs: Fs<Entry, array<bv8>>, table: Server.Table, ino: nat, pos: nat, c: Chunk<array<bv8>>, e: Entry,
                first: Option<Bytes>, second: Option<Bytes>, remote: bool)
    requires Ok(fs) && WellFormed(fs.tree) && GetByIno(fs.tree, ino) == Some(e) && e in fs.tree.nodes && e in fs.files
    requires LiveRec(fs, fs.files[e]) && !fs.tree.nodes[e].dir && pos + |c.data| <= MAX_FILE_SIZE
    ensures var at := if c.append then fs.files[e].size else pos;
            var (fs', err) := WriteEntry(fs, e, at, c.data, c.mem, c.junk);
            && VfsWrite(fs, ino, pos, c) == (fs', if err == OK then at + |c.data| else at, err)
            && fs'.tree == fs.tree
            && (err == OK ==>
                  Pushed(fs.tree, table, Sync.WriteCall(ino, at, |c.data|, first, second), remote) ==
                  if remote then TwoWrites(table, TreePaths.BuildPath(fs.tree, e), at, first, second) else table)
  {
    hide Ok, WellFormed, GetByIno, Sync.Deliver, TreePaths.BuildPath, LiveRec, Regrown, Overlaid, Fit;
    WriteKeepsTree(fs, e, if c.append then fs.files[e].size else pos, c.data, c.mem, c.junk);
    hide WriteEntry;
  }

  /** The reply is a good response whose body is the server's slice, in any chunks. */
  ghost predicate Carries(reply: string, head: string, cs: seq<Http.Chunk>, t: Server.Table, path: string, pos: nat, len: nat) {
    && reply == ReadCodec.Response(head, cs) && ReadCodec.IsHead(head) && Http.AreChunks(cs)
    && Server.ReadRow(t, path, pos, Some(len)).Success?
    && Http.Payload(cs) == ReadCodec.JsonBody(Base64.Encode(Server.ReadRow(t, path, pos, Some(len)).data))
  }

  lemma ReplyRead(reply: string, head: string, cs: seq<Http.Chunk>, t: Server.Table, path: string, pos: nat, len: nat)
    ensures var r := ReadCodec.HttpRead(reply, len);
            && (r.Some? ==> |r.value| <= len)
            && (Carries(reply, head, cs, t, path, pos, len) ==>
                  var served := Server.ReadRow(t, path, pos, Some(len));
                  served.Success? && r == if |served.data| <= 3054 then Some(served.data) else None)
  {
    if Carries(reply, head, cs, t, path, pos, len) { ReadCodec.ReadRoundTrip(t, path, pos, len, head, cs); }
  }

  lemma UpIsOlder<E>(s: Store<E>, e: E)
    requires WellFormed(s) && e in s.nodes && e != s.root
    ensures s.nodes[e].parent in s.nodes && Rank(s.all, s.nodes[e].parent) < Rank(s.all, e)
  {
    assert Up(s, e) == s.nodes[e].parent;
  }
}
