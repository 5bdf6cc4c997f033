# VTFS: tree, cache, codecs

VTFS is a Linux in-memory file system with hard links whose tree is a lazily filled cache of a remote server. The
kernel module keeps entries that point at their parent, list their children and share data buffers between hard
links; the server keeps the same tree as a flat table from path to row. This project models both sides, the wire
format between them and the loops that walk files and directories, and proves what they keep.

The models come in two layers.

* **Values.** `Tree` holds the entries of storage.c as a map from address to fields together with the global list;
  `Inodes` adds data, size and capacity per entry and the live buffers; `Server` is the path table; `Sync` puts tree
  and table side by side as one machine whose steps are system calls with every sync delivered. The safety theorems
  are about these: well-formed trees (`Tree`, `TreePaths`), error codes (`Codes`), counters (`Counters`), undoing
  (`Undo`), table validity and answers (`Server`, `Paths`), cache inclusion (`Sync`), exact simulation (`Exact`),
  refinement of a map from inode number to bytes (`Refinement`), buffers (`Memory`), chunked access (`FileOps`), the
  two write algorithms and buffer growth (`FileData`), the server's copy of a written file (`Contents`), directory
  scans (`Readdir`, `Listings`) and teardown (`Cleanup`).
* **Objects.** `Storage` has the source's classes: entries with fields, lists and real array buffers, updated in
  place; `Service` has the server's class over its repository; `Kernel` drives both with the operations of
  inode_ops.c, file_ops.c and dir_ops.c; `Unmount` is the recursive teardown. Each method is proved to leave exactly
  the state the value layer computes, so the theorems above hold of the objects. `krealloc` is an allocation of
  arbitrary memory that kills the old buffer.

`Base64`, `UrlEncode`, `Http`, `ReadCodec` and `WriteCodec` hold the codecs: each loop writes into a buffer and is
proved against a specification function; the round trips are proved about those functions, and so is what they spell,
against the literal alphabets.

Some plain readings of the code are false. For each the exact condition is proved, and `Witnesses` has a reachable run
on which the reading fails: losing the newest of several names keeps a file's content exactly when no write has
extended the file since that name was linked (`Inodes.LosingNewestName`, `UnlinkLosesBytes`); a write equals the plain
splice except in two shortcuts (`FileData.InPlaceIsSplice`, `StaleGap`; `FileData.ServerWriteIsSplice`, `ShortWrite`);
a write that is pushed whole leaves both sides with the same bytes only if its first push, at offset 0, disturbs
nothing (`Contents.WriteKeepsAgreement`, `SecondByte`); a chunk that begins with CR or LF is not decoded
(`Http.UnchunkFrame`, `NewlineChunk`); one delete does not remove an empty directory's row (`Exact.DropAgreed`,
`RmdirLeavesRow`); a create that relies on a negative dentry left by an rmdir can disagree with the server on the type
(`Exact.ClashBreaksInclusion`, `CreateAfterRmdir`); and a hard link is not mirrored (`Exact.LinkBreaksInclusion`,
`LinkStaysLocal`).

Each VFS operation is one atomic step. Names are non-empty, contain no slash and are not `.` or `..`; paths, names and
numbers fit the buffers they are copied through.

## Model

| member | source | states |
|---|---|---|
| Tree.LookupFacts | module/storage.c:295-315 | in a well-formed tree a lookup returns a child exactly when the directory has a child of that name, and then that child |
| Tree.GetByInoFacts | module/storage.c:317-333 | the search by number succeeds exactly when the number is in use, returns the newest entry with it, and the only one for a directory |
| Tree.FreshIsWellFormed | module/storage.c:112-130 | a fresh mount is well formed |
| Tree.CreateWellFormed | module/storage.c:172-216 | creating an entry, or failing to, keeps the tree well formed: list partition, parent pointers that are directories, parents older than children in the global list, distinct sibling names, unique directory numbers, all numbers in [1000, next) |
| Tree.DeleteWellFormed | module/storage.c:234-293 | so does deleting, refused or not |
| Tree.DeleteChildren | module/storage.c:258-262 | a delete takes exactly one member out of exactly its parent's child list |
| Tree.AddLinkWellFormed | module/storage.c:417-446 | so does the counter loop of a hard link |
| Tree.SetNlinkWellFormed | module/inode_ops.c:144-144 | so does the direct assignment of mkdir |
| Tree.ParentsAreDirectories | module/storage.c:172-216 | only directories have children |
| Tree.VictimDeleted | module/inode_ops.c:105-125 | what unlink or rmdir picks is a live entry other than the root |
| Tree.StepWellFormed | module/inode_ops.c:45-227 | every inode operation keeps the tree well formed, with allocation failures and rollbacks |
| Tree.ReachableWellFormed | module/inode_ops.c:45-227 | hence every state reached by any sequence of operations is well formed |
| Codes.VictimIsChild | module/inode_ops.c:105-125 | what unlink or rmdir picks is the entry of that name whose parent has the directory's number, and no other |
| Codes.RmdirCode | module/inode_ops.c:159-186 | rmdir answers ENOENT without such a child, ENOTDIR for a file, ENOTEMPTY for a directory that some entry lies in, and OK for every other directory |
| Codes.UnlinkCode | module/inode_ops.c:105-125 | unlink answers ENOENT without such a child, ENOTEMPTY for a directory that some entry lies in, and OK otherwise |
| Codes.CreateCode | module/inode_ops.c:75-103 | create answers ENOENT when no entry has the directory's number, EEXIST when it is no directory, the name is taken or memory is short, ENOMEM when only the VFS inode is missing, and OK otherwise |
| Codes.MkdirCode | module/inode_ops.c:127-157 | mkdir answers by the same conditions |
| Codes.LinkCode | module/inode_ops.c:188-227 | link answers ENOENT for an unused target or directory number, EPERM for a directory as target, EEXIST when the name cannot be made, and OK otherwise |
| Codes.DeleteCode | module/storage.c:247-251 | the storage layer refuses the root with EBUSY and a directory that some entry lies in with ENOTEMPTY, and nothing else |
| Codes.DropTakes | module/inode_ops.c:105-186 | an unlink or rmdir that is refused changes nothing, and one that succeeds takes exactly that child |
| Codes.MadeEntry | module/inode_ops.c:75-157 | a create or mkdir that succeeds adds exactly the named child: the next number, one link for a file, two for a directory |
| Codes.LinkedEntry | module/inode_ops.c:205-215 | a link that succeeds adds exactly the named child with the target's number, and all names of it show one counter |
| Cleanup.EverythingWithinRoot | module/storage.c:112-130 | parent chains end at the root: everything live is root or lies below it |
| Cleanup.SiblingsDisjoint | module/storage.c:172-216 | no entry lies below two siblings |
| TreePaths.BuildPathRenders | module/storage.c:19-33 | the path string is the canonical spelling of the names from the root |
| TreePaths.ResolvePath | module/storage.c:19-33 | resolving the components of an entry's path from the root by lookups returns that entry |
| TreePaths.ResolvedHasPath | module/storage.c:295-315 | whatever a resolution reaches has the resolved components as its path |
| TreePaths.PathsInjective | module/storage.c:19-33 | distinct entries have distinct paths |
| TreePaths.PathOfChild | module/inode_ops.c:20-23 | an entry's path is the one assembled from its parent's path and its name, and the server takes the parent path back out of it |
| TreePaths.CreatePaths | module/inode_ops.c:20-30 | the path assembled before the stat is the path of the entry then created; no other path changes |
| TreePaths.DeletePaths | module/storage.c:234-293 | a delete changes no other path |
| Undo.DeleteUndoesCreate | module/inode_ops.c:94-98 | deleting a just created entry restores the whole tree but for the spent number, also after mkdir has raised its counter |
| Undo.RollbackRestores | module/inode_ops.c:148-152 | a create or mkdir that finds no VFS inode leaves the tree as it was, at most one number poorer |
| Undo.UnlinkUndoesLink | module/inode_ops.c:188-227 | unlinking a fresh hard link restores the tree, counters of all other names included |
| Undo.CreatedIsVictim | module/storage.c:197-202 | the created entry is what a lookup of its name finds |
| Counters.FreshIsCounted | module/storage.c:123-124 | the root of a fresh mount has counter 2 |
| Counters.CreateCounted | module/storage.c:204-205 | after a create: files count their names, directories their subdirectories |
| Counters.DeleteCounted | module/storage.c:258-270 | and after a delete |
| Counters.MkdirCounted | module/inode_ops.c:144-144 | mkdir's assignment turns 1 plus subdirectories into 2 plus subdirectories |
| Counters.LinkCounted | module/inode_ops.c:209-215 | and after a hard link, on every name of the inode |
| Counters.AddLinkCounted | module/storage.c:430-438 | the loop of add_link repairs exactly the inode that has gained a name |
| Counters.StepCounted | module/inode_ops.c:45-227 | every operation keeps all counters equal to the cardinalities; a directory fetched by a lookup has 1 plus its subdirectories |
| Counters.RunCounted | module/inode_ops.c:45-227 | so do all runs |
| Server.FreshIsValid | server/src/main/kotlin/com/vtfs/server/service/FileSystemService.kt:23-39 | a fresh repository is a valid table with the root row alone, which has number 1000 |
| Server.NextInoIsNew | server/src/main/kotlin/com/vtfs/server/service/FileSystemService.kt:55-55 | the next number is one above the largest in use, so no row has it although a deleted maximum is handed out again |
| Server.CreateShape | server/src/main/kotlin/com/vtfs/server/service/FileSystemService.kt:94-139 | a create keeps the table prefix-closed and its numbers distinct |
| Server.CreateCounted | server/src/main/kotlin/com/vtfs/server/service/FileSystemService.kt:117-136 | a create keeps the link intervals: files 1, root 2 plus subdirectories, other directories between 1 and 2 plus subdirectories |
| Server.DeleteShape | server/src/main/kotlin/com/vtfs/server/service/FileSystemService.kt:141-173 | a delete keeps the table prefix-closed and its numbers distinct |
| Server.DeleteCounted | server/src/main/kotlin/com/vtfs/server/service/FileSystemService.kt:154-170 | a delete keeps the link intervals |
| Server.WriteIsValid | server/src/main/kotlin/com/vtfs/server/service/FileSystemService.kt:192-219 | a write keeps the table valid |
| Server.WrittenIsRead | server/src/main/kotlin/com/vtfs/server/service/FileSystemService.kt:175-219 | a successful write is read back as written, and reads of other paths stay the same |
| Server.CreateEffect | server/src/main/kotlin/com/vtfs/server/service/FileSystemService.kt:94-139 | a create on a canonical path below a directory row makes exactly that row appear with its type, unless it was there, and leaves every other row as it was but for its directory's counter |
| Server.CreateKeepsRows | server/src/main/kotlin/com/vtfs/server/service/FileSystemService.kt:117-136 | a create leaves every other row as it was but for its directory's counter, which counts new directories; other paths read the same bytes and a new file reads as empty |
| Server.DeleteKeepsRows | server/src/main/kotlin/com/vtfs/server/service/FileSystemService.kt:154-170 | a delete leaves every row that stays as it was, but for the counters of its own row and its directory; other paths read the same bytes |
| Server.DeleteEffect | server/src/main/kotlin/com/vtfs/server/service/FileSystemService.kt:141-173 | a delete makes at most that row disappear; all other rows keep their types |
| Server.DeleteRemovesRow | server/src/main/kotlin/com/vtfs/server/service/FileSystemService.kt:154-170 | which rows a successful delete removes: those with one link, so an empty directory that still has two survives its first delete |
| Server.TypeSpelling | server/src/main/kotlin/com/vtfs/server/service/FileSystemService.kt:108-112 | the type of a create is file or dir in any case of the letters, and nothing else |
| Server.CreateAnswer | server/src/main/kotlin/com/vtfs/server/service/FileSystemService.kt:94-138 | every answer to a create of a name in a directory, said of the rows of the two: EEXIST, ENOENT, ENOTDIR, EINVAL, or the new number |
| Server.DeleteAnswer | server/src/main/kotlin/com/vtfs/server/service/FileSystemService.kt:141-172 | every answer to a delete: EBUSY for the root, ENOENT without a row, ENOTEMPTY when some name below the path is a row, success otherwise |
| Server.ReadAnswer | server/src/main/kotlin/com/vtfs/server/service/FileSystemService.kt:175-190 | a read of a file returns the bytes from the offset on, as many as are there and asked for, each at its place; other paths answer ENOENT or EISDIR |
| Server.WriteAnswer | server/src/main/kotlin/com/vtfs/server/service/FileSystemService.kt:192-219 | what a write answers, and the row's content after it byte by byte; no other row changes |
| Server.ServeIsValid | server/src/main/kotlin/com/vtfs/server/service/FileSystemService.kt:94-219 | every request on an absolute path keeps the table valid |
| Server.ReachableTables | server/src/main/kotlin/com/vtfs/server/service/FileSystemService.kt:94-219 | so do all request sequences |
| Server.PrefixClosed | server/src/main/kotlin/com/vtfs/server/service/FileSystemService.kt:101-106 | every proper prefix of a row's path is a directory row |
| Paths.NormalizeIsCanonical | server/src/main/kotlin/com/vtfs/server/service/FileSystemService.kt:41-45 | normalisation yields a canonical path and leaves canonical paths alone |
| Paths.NormalizeStep | server/src/main/kotlin/com/vtfs/server/service/FileSystemService.kt:41-45 | normalisation piece by piece: a name goes one down, two dots one up and never above the root, an empty piece or one dot nowhere |
| Paths.ParentOfChild | server/src/main/kotlin/com/vtfs/server/service/FileSystemService.kt:47-51 | the parent path of a child's canonical path is the directory's |
| Paths.NormalHasParent | server/src/main/kotlin/com/vtfs/server/service/FileSystemService.kt:47-51 | every canonical path but the root is its parent's path with one more name |
| Paths.RenderInjective | server/src/main/kotlin/com/vtfs/server/service/FileSystemService.kt:41-45 | a canonical path determines its components |
| Paths.ComponentsOfRender | server/src/main/kotlin/com/vtfs/server/service/FileSystemService.kt:41-45 | normalising the spelling of a component list gives the list back |
| Service.FileSystemService.constructor | server/src/main/kotlin/com/vtfs/server/service/FileSystemService.kt:23-39 | creates the root row only in a repository without one |
| Service.FileSystemService.GetNextIno | server/src/main/kotlin/com/vtfs/server/service/FileSystemService.kt:55-55 | one above the largest number of the table |
| Service.FileSystemService.Create | server/src/main/kotlin/com/vtfs/server/service/FileSystemService.kt:94-139 | new table and answer are those of the table model, error cases included |
| Service.FileSystemService.Delete | server/src/main/kotlin/com/vtfs/server/service/FileSystemService.kt:141-173 | new table and answer are those of the table model |
| Service.FileSystemService.Stat | server/src/main/kotlin/com/vtfs/server/service/FileSystemService.kt:221-234 | answers the type of a row, or ENOENT |
| Service.FileSystemService.Read | server/src/main/kotlin/com/vtfs/server/service/FileSystemService.kt:175-190 | answers the slice of the table model |
| Service.FileSystemService.Patch | server/src/main/kotlin/com/vtfs/server/service/FileSystemService.kt:194-209 | the three copies into a zeroed array produce the array of the table model |
| Service.FileSystemService.Write | server/src/main/kotlin/com/vtfs/server/service/FileSystemService.kt:192-219 | new table and answer are those of the table model |
| Service.FileSystemService.ListDir | server/src/main/kotlin/com/vtfs/server/service/FileSystemService.kt:79-92 | in a valid table a directory's listing has one entry for every name whose child path is a row, with that row's number, type and size, and no other entry; ENOENT and ENOTDIR exactly when the path is no row or no directory |
| Service.ListingIsExact | server/src/main/kotlin/com/vtfs/server/service/FileSystemService.kt:79-92 | the rows that carry a directory's path as parent path describe exactly the names whose child path is a row |
| Sync.TreeHalf | module/inode_ops.c:10-186 | whatever the server answers, the kernel side of a call is one step of the tree model |
| Sync.CreateReachesServer | module/storage.c:209-213 | a create pushed below a mirrored directory leaves a row there |
| Sync.LookIncluded | module/inode_ops.c:10-73 | a lookup, with its fetch, keeps every local path a server row of the same type |
| Sync.MakeIncluded | module/inode_ops.c:75-157 | create and mkdir keep it, rolled back or not, unless the server holds a row of the other type at the path |
| Sync.NegativeLookup | module/inode_ops.c:45-73 | a lookup that had memory and found no child proves that the server holds no row there, so a create or mkdir of that name cannot clash |
| Sync.RowsAppear | module/storage.c:209-213 | only a create or mkdir adds a server row, and only at its own path |
| Sync.DropIncluded | module/inode_ops.c:105-186 | so do unlink and rmdir, although the server may keep the row |
| Sync.PushIncluded | module/file_ops.c:89-100 | so does a write and its two pushes |
| Sync.RemountIncluded | module/storage.c:112-130 | so does a remount: an empty tree before any valid table |
| Sync.DoIncluded | module/inode_ops.c:10-186 | every call keeps the inclusion unless it creates over a row of the other type |
| Sync.LookupsClear | module/inode_ops.c:45-157 | in a run whose creates and mkdirs each follow a negative lookup of their path, with no create there in between, none of them clashes |
| Sync.RunIncluded | module/inode_ops.c:10-186 | cache inclusion over every such run, from any state that has it |
| Exact.AgreedIsEquality | module/storage.c:19-33 | agreement is equality of the map from local path to type with the map from row path to type |
| Exact.LookAgreed | module/inode_ops.c:45-73 | under agreement a lookup never finds anything to fetch and changes nothing |
| Exact.MakeAgreed | module/inode_ops.c:75-157 | create and mkdir keep agreement exactly when no mkdir has to be rolled back |
| Exact.DeleteAgreed | module/storage.c:234-293 | a delete and its push keep agreement exactly when the row has one link |
| Exact.DropAgreed | module/inode_ops.c:105-186 | unlink and rmdir keep agreement exactly when there is no victim, it is of the wrong kind or not empty, or its row has one link |
| Exact.UnlinkFileAgreed | module/inode_ops.c:105-125 | unlinking a file always keeps agreement |
| Exact.PushAgreed | module/file_ops.c:89-100 | writes keep agreement of paths and types |
| Exact.RunAgreed | module/inode_ops.c:10-157 | agreement over every run of lookup, create, successful mkdir, unlink of files, and write |
| Exact.ExactSimulation | module/inode_ops.c:10-157 | from a joint fresh start the two maps are equal after every such run |
| Exact.ClashBreaksInclusion | module/inode_ops.c:75-157 | a create that succeeds locally keeps the inclusion exactly when the server holds no row of the other type there |
| Exact.LinkBreaksInclusion | module/inode_ops.c:188-227 | a hard link keeps the inclusion exactly when the server happens to hold a file row at the new path |
| FileData.SpliceAt | module/storage.c:363-415 | the splice that both writes are measured by, byte by byte |
| FileData.ServerWriteIsSplice | server/src/main/kotlin/com/vtfs/server/service/FileSystemService.kt:192-219 | the server's write is the splice exactly when the offset is positive, or the data covers the old content, or the forgotten tail was zero |
| FileData.InPlaceIsSplice | module/storage.c:398-401 | without growth the kernel's write is the splice exactly when there is no gap or the gap held zeros |
| FileData.GrownIsSplice | module/storage.c:378-401 | with growth it always is: the gap is cleared, whatever the new memory held |
| FileData.TwoImplementationsAgree | module/storage.c:373-401 | kernel and server compute the same bytes whenever neither shortcut applies |
| Contents.TwiceAt | module/file_ops.c:89-100 | the server's copy after the two pushes of a write, byte by byte: the write's range, and elsewhere the beginning of the data and zeros |
| Contents.TwiceIsSplice | module/file_ops.c:89-100 | the two pushes are the local splice exactly when what the write leaves alone is what the first push puts there |
| Contents.PushedContent | module/file_ops.c:89-100 | a write whose pushes arrive whole rewrites exactly the row at the newest name's path, and every other path reads as before |
| Contents.WriteKeepsAgreement | module/file_ops.c:59-109 | a file on whose bytes both sides agreed is agreed on after a write exactly when the first push disturbs nothing |
| Contents.FetchKeepsReads | module/inode_ops.c:32-39 | a lookup that pushes back the whole content it has fetched, or none, leaves every read of the server as it was |
| FileData.GrowOk | module/storage.c:373-401 | the arithmetic of one write keeps size within capacity, capacity within max(64, 2 * size), and the copying within the capacity |
| FileData.GrowthBounds | module/storage.c:373-401 | so does that of any sequence of writes, with size at most 1 MiB and at most 15 reallocations; Memory.RunFollows says it of files |
| FileData.MovesAttained | module/storage.c:378-386 | for every k up to 15 some sequence of writes reallocates exactly k times |
| Inodes.CreateHead | module/storage.c:202-202 | a new entry becomes the newest name of its number and of no other |
| Inodes.DeleteHead | module/storage.c:261-262 | deleting another entry leaves the newest name of a number alone |
| Inodes.MakeOk | module/inode_ops.c:45-157 | lookup, create and mkdir change no file's content |
| Inodes.LinkOk | module/inode_ops.c:188-227 | a link changes no file's content |
| Inodes.DeleteOk | module/storage.c:234-293 | a delete within the guard changes no content but that of an inode losing its last name |
| Inodes.LosingNewestName | module/storage.c:234-293 | losing the newest of several names keeps content and a live buffer exactly when the next name records the same size |
| Inodes.WrittenBuffers | module/storage.c:363-415 | a write or a moved buffer touches no other inode |
| Inodes.MovedContent | module/storage.c:378-396 | a write that moves the buffer splices, with a zeroed gap |
| Inodes.InPlaceContent | module/storage.c:398-404 | a write in place splices, with the buffer's own bytes in the gap |
| Inodes.WriteOk | module/file_ops.c:59-109 | a successful write through an inode number splices that inode and changes nothing else; a failed one changes nothing |
| Memory.WriteFollows | module/storage.c:373-401 | a successful write changes the size and capacity of its inode as that arithmetic says, and moves the buffer exactly when a reallocation is counted |
| Memory.RunFollows | module/storage.c:363-415 | over every guarded run, for every inode: size within capacity, capacity within max(64, 2 * size), size at most 1 MiB, at most 15 reallocations in the life of a buffer, and their copying within the capacity |
| Memory.RunTight | module/storage.c:234-293 | over every guarded run the live buffers are exactly those of the newest names: nothing leaks and nothing is freed early |
| Memory.FreshIsTight | module/storage.c:112-130 | a fresh mount has no buffers, and no inode has grown |
| Refinement.DeleteLabel | module/storage.c:234-293 | the set of file numbers shrinks exactly when the last name goes |
| Refinement.LastIsOnly | module/storage.c:264-269 | a name is the last exactly when no other entry has its number |
| Refinement.CreateLabel | module/inode_ops.c:75-103 | create adds the next number to the files exactly when it goes through and is not rolled back |
| Refinement.MkdirLabel | module/inode_ops.c:127-157 | mkdir, rolled back or not, adds no file |
| Refinement.LookupLabel | module/inode_ops.c:45-73 | a lookup adds the next number exactly when it fetches a file |
| Refinement.DropLabel | module/inode_ops.c:105-186 | unlink takes a number exactly when it removes the only name of a file; rmdir takes none |
| Refinement.TreeLabel | module/inode_ops.c:45-227 | which file numbers an operation adds and takes, decided from the state before it |
| Refinement.LinkLabel | module/inode_ops.c:188-227 | a link never changes the set of file numbers |
| Inodes.FreshIsOk | module/storage.c:112-130 | a fresh mount satisfies the invariant of the refinement |
| Inodes.WriteSucceeds | module/file_ops.c:59-95 | a write succeeds exactly when the number is a file's, the end is within 1 MiB, and growth finds memory |
| Refinement.StepRefines | module/inode_ops.c:45-227 | each operation or write is the step of a plain map from inode number to bytes that its arguments and the state before it determine |
| Refinement.RunRefines | module/inode_ops.c:45-227 | so is each guarded run, and every newest name's buffer stays live, unshared and large enough |
| FileOps.ReadIs | module/file_ops.c:9-57 | a read returns the bytes of the file from the position on, as many as are there and asked for, each at its place |
| FileOps.WriteCode | module/file_ops.c:59-109 | every code of a write with its condition, and the position after it: O_APPEND moves it even when the write then fails; a write that fails changes no file |
| FileOps.WriteAtEnd | module/file_ops.c:75-104 | a write at the end, by position or O_APPEND, appends |
| FileOps.WritesAppend | module/file_ops.c:59-109 | consecutive writes append the concatenation of their data |
| FileOps.ReadsCollect | module/file_ops.c:9-57 | consecutive reads of positive lengths until nothing comes collect the rest of the file, and enough of them reach the end |
| FileOps.ChunkingIndependence | module/file_ops.c:9-109 | writing to an empty file in any pieces and reading in any pieces reproduces the bytes |
| Base64.EncodeShape | module/http.c:391-413 | the encoding has only letters and padding, and the decoder computes the original length from it |
| Base64.GroupsBack | module/http.c:353-386 | the decoder's groups begin with the encoded bytes |
| Base64.DecodeEncode | module/http.c:335-413 | decoding the encoding of any bytes returns them |
| Base64.EncodeIsCanonical | module/http.c:391-413 | encodings are canonical strings (sections 3.5 and 4 of RFC 4648) |
| Base64.EncodeDecode | module/http.c:335-413 | re-encoding a decoded string returns it exactly when the string is canonical |
| Base64.EncodedAt | module/http.c:400-410 | every character of an encoding: six bits of its group of three bytes, looked up in the alphabet of section 4 of RFC 4648, or padding where no byte contributes |
| Base64.SextetIs | module/http.c:353-382 | the decoder reads a character as its place in that alphabet, and padding and strangers as zero |
| Base64.EncodeInto | module/http.c:400-410 | the encoder's loop leaves exactly the encoding and nothing behind it changes |
| Base64.BytesToBase64 | module/http.c:391-413 | the loop writes the encoding and its terminator and touches nothing else, or refuses a buffer that is too small |
| Base64.Base64Decode | module/http.c:335-389 | the loop writes exactly the decoded bytes and touches nothing else, or refuses a length that is no multiple of 4 |
| Http.ParseChunked | module/http.c:196-224 | the chunk loop terminates and leaves the specified text, the terminator and the rest of the buffer |
| Http.SizeLine | module/http.c:205-209 | a hexadecimal size line is read back as its number |
| Http.HexDigitIs | module/http.c:205-205 | hexadecimal digits of either case have their usual values, and nothing else is a digit |
| Http.HexOfToHex | module/http.c:205-205 | every number has its usual hexadecimal spelling as a size line |
| Http.PrefixIsSwallowed | module/http.c:205-205 | a number is read with or without a leading 0x |
| Http.ChunkStep | module/http.c:202-219 | a chunk that does not begin with CR or LF yields its data, cut to the buffer, and the loop stands at the next chunk |
| Http.SwallowedStep | module/http.c:208-214 | a chunk that begins with CR or LF yields a wrong first character |
| Http.UnchunkFrame | module/http.c:196-224 | a framed chunk list (section 7.1 of RFC 9112) decodes to the first body_size-1 characters of its payload exactly when no chunk reached begins with CR or LF |
| ReadCodec.NoErrorMarker | module/http.c:577-579 | the JSON text of a read holds no error marker |
| ReadCodec.StatusIs | module/http.c:165-183 | the status of a response is the decimal number in its status line, and 500 for numbers outside 100 to 599 |
| ReadCodec.ErrorStatusIsRefused | module/http.c:573-580 | a reply with an error status brings nothing, whatever its body says |
| ReadCodec.BareBodyFound | module/http.c:185-194 | in a response with bare line feeds the body begins behind the first empty line |
| ReadCodec.DataExtracted | module/http.c:415-445 | the field extraction returns the text between the quotes, cut to the value buffer |
| ReadCodec.BodyArrives | module/http.c:158-224 | however the body is cut into chunks, the kernel's buffer gets the JSON text as far as it fits |
| ReadCodec.PlainBodyArrives | module/http.c:226-233 | without chunks the buffer gets everything behind the blank line as far as it fits |
| ReadCodec.BodyIsRead | module/http.c:577-619 | a JSON body that arrived whole is read back to the slice |
| ReadCodec.CutBodyIsRefused | module/http.c:582-597 | a body that has lost the closing quote of the data is refused as a whole |
| ReadCodec.UnfitIsCut | module/http.c:196-224 | the body fits the buffer exactly when the slice has at most 3054 bytes, and a longer one always loses that quote |
| ReadCodec.ReadRoundTrip | server/src/main/kotlin/com/vtfs/server/controller/VtfsController.kt:37-48 | end to end: the slice the server reads, encoded, wrapped and chunked behind a head with status 200, comes out of the kernel's read unchanged exactly when it has at most 3054 bytes and is refused otherwise, for every content, offset, size and chunking; the decoder writes at most the size asked for |
| ReadCodec.PlainRoundTrip | server/src/main/kotlin/com/vtfs/server/controller/VtfsController.kt:37-48 | the same for a reply without chunks |
| WriteCodec.ArrivesExactly | module/http.c:267-280 | a pushed write reaches the server as a prefix of its base64 text: as all of it exactly when the percent-encoding of all but the last character has fewer than 509 characters, so always up to 126 bytes and never beyond 381 |
| WriteCodec.WriteRoundTrip | module/http.c:515-553 | a push that arrives whole is decoded to the bytes written |
| UrlEncode.DecodeEncode | module/http.c:137-156 | percent-decoding the encoding of any bytes returns them (sections 2.1 and 2.3 of RFC 3986) |
| UrlEncode.EncodedByte | module/http.c:144-151 | a byte stands for itself exactly when it is one of the 66 unreserved characters of section 2.3 of RFC 3986, and is a percent sign and two upper-case hex digits otherwise |
| UrlEncode.EncodedChars | module/http.c:144-151 | so nothing but percent signs and unreserved characters is ever sent |
| UrlEncode.TakenExactly | module/http.c:142-142 | the bounded loop takes a byte exactly when the encoding of what precedes it is shorter than dst_size-3 |
| UrlEncode.WholeSource | module/http.c:142-142 | it takes the whole source exactly when what precedes the last byte leaves that room, hence whenever the full encoding has at most dst_size-3 characters |
| UrlEncode.UrlEncode | module/http.c:137-156 | the loop stays in bounds, terminates its output, leaves the rest of the buffer alone, and its output decodes to the prefix taken |
| Readdir.Iterate | module/dir_ops.c:28-76 | one call emits the listing from the position until refused, and moves the position by what was accepted |
| Readdir.UnchangedDirectory | module/dir_ops.c:28-76 | calls of any sizes on an unchanged directory emit the listing in order, each entry once, as far as their rooms add up, and all of it once some call is not refused |
| Readdir.CallCovered | module/dir_ops.c:52-76 | a call keeps every child before the position shown or new |
| Readdir.InsertCovered | module/storage.c:200-200 | so does a head insertion |
| Readdir.RemoveCovered | module/storage.c:261-261 | a removal does exactly when it is ahead of the scan or no unseen child slides below the position |
| Readdir.ScanCovers | module/dir_ops.c:28-76 | so do all sequences of calls, insertions and removals ahead of the scan |
| Readdir.NothingMissed | module/dir_ops.c:28-76 | once a call has come back with room left, every child present throughout has been shown |
| Readdir.RemovalHidesChild | module/dir_ops.c:52-76 | a removal behind the scan hides a child: a concrete run |
| Listings.ListingHasNoRepeats | module/dir_ops.c:28-76 | no two entries of a directory's listing have the same name, dots included |
| Listings.ListingShows | module/dir_ops.c:28-76 | what a listing shows: the directory's and its parent's number under the dots, then every child by its name and number, as a directory exactly when it is one |
| Listings.CreateInserts | module/storage.c:200-200 | a create inserts at the head of its directory's listing and changes no other |
| Listings.DeleteRemoves | module/storage.c:261-261 | a delete removes its one position from its directory's listing and changes no other |
| Cleanup.FreedExactly | module/storage.c:132-147 | the recursion below a directory frees exactly what lies within its remaining children |
| Cleanup.FreedOnce | module/storage.c:132-147 | and frees nothing twice |
| Cleanup.TeardownIsComplete | module/storage.c:149-165 | the whole teardown frees every entry exactly once and nothing else |
| Cleanup.BuffersFreedOnce | module/storage.c:101-110 | no buffer is freed twice exactly when no two entries share one |
| Cleanup.BuffersReleased | module/storage.c:101-165 | when no file has two names, every buffer is freed exactly once, and is live until then |
| Cleanup.NothingLeaks | module/storage.c:101-165 | and in the states of guarded runs the buffers freed are exactly the live ones |
| Unmount.FreeEntriesRecursive | module/storage.c:132-147 | the recursion over the objects frees in the specified order and takes the freed entries off the global list |
| Unmount.StorageCleanup | module/storage.c:149-165 | the teardown over the objects frees every entry and its buffer in that order, leaves the global list empty and clears the root pointer; a second call does nothing |
| Storage.VtfsStorage.constructor | module/storage.c:112-130 | the fresh state |
| Storage.VtfsStorage.Lookup | module/storage.c:295-315 | the loop over the children returns what the tree model's lookup does |
| Storage.VtfsStorage.GetByIno | module/storage.c:317-333 | the loop over the global list returns what the model's search does |
| Storage.VtfsStorage.CreateEntry | module/storage.c:172-216 | the entries afterwards hold the model's state; an entry is made exactly when memory can be had, the parent is a directory and the name is free in it |
| Storage.VtfsStorage.InsertEntry | module/storage.c:191-205 | the two list insertions and the parent's counter |
| Storage.VtfsStorage.Detach | module/storage.c:258-262 | the two list removals and the parent's counter |
| Storage.VtfsStorage.LowerNames | module/storage.c:264-269 | the loop lowers the counter of every other name and finds none exactly when the last is gone |
| Storage.VtfsStorage.DeleteEntry | module/storage.c:234-293 | entries, fields, live buffers and error code afterwards are the model's |
| Storage.VtfsStorage.AddLink | module/storage.c:417-446 | the loop leaves the model's counters on every name |
| Storage.VtfsStorage.Read | module/storage.c:335-361 | copies exactly the bytes of the file from the offset on, at most len, and touches nothing else |
| Storage.VtfsStorage.Write | module/storage.c:363-415 | fields, buffers and error code afterwards are the model's, whatever new memory holds |
| Storage.VtfsStorage.Grow | module/storage.c:378-396 | the growth branch: old bytes kept, gap cleared, old buffer dead |
| Storage.VtfsStorage.Overlay | module/storage.c:398-404 | the copy and the new size |
| Storage.Reallocate | module/storage.c:383-392 | krealloc and the gap's memset |
| Kernel.Mount.constructor | module/storage.c:112-130 | a remount: an empty tree before a given server |
| Kernel.Mount.BuildPath | module/storage.c:19-33 | the recursion over parent pointers terminates and builds the model's path |
| Kernel.Mount.CreateEntry | module/storage.c:172-216 | the create and its push of the new entry's path |
| Kernel.Mount.DeleteEntry | module/storage.c:234-293 | the delete and its push of the path built before |
| Kernel.Mount.FetchFromRemote | module/inode_ops.c:10-43 | a fetch creates what the stat answer says, stores the content as a write at offset 0, and pushes it back |
| Kernel.FetchedContent | module/inode_ops.c:32-39 | what a fetch has stored is what the new file then reads as |
| Kernel.Mount.VtfsLookup | module/inode_ops.c:45-73 | on both sides what the two-party model says, with both error codes; the child returned is what a lookup finds afterwards; a fetch happens exactly when memory and the server allow it |
| Kernel.Mount.VtfsCreate | module/inode_ops.c:75-103 | tree, files and server table are those of the models, with the rollback; an entry is made exactly when memory, directory and name allow it; the error code is the one these conditions call for |
| Kernel.Mount.VtfsMkdir | module/inode_ops.c:127-157 | tree, files and server table are those of the models, with the rollback; an entry is made exactly when memory, directory and name allow it; the error code is the one these conditions call for |
| Kernel.Mount.VtfsUnlink | module/inode_ops.c:105-125 | tree, files and server table are those of the models; ENOENT without a child of that name, ENOTEMPTY when an entry lies in it, OK otherwise |
| Kernel.Mount.VtfsRmdir | module/inode_ops.c:159-186 | tree, files and server table are those of the models; ENOENT without a child of that name, ENOTDIR for a file, ENOTEMPTY when an entry lies in it, OK otherwise |
| Kernel.Mount.VtfsLink | module/inode_ops.c:188-227 | tree and shared fields are those of the model; a name is made exactly when memory, target, directory and name allow it, and the error code is the one these conditions call for; the server hears nothing |
| Kernel.Mount.VtfsWrite | module/file_ops.c:59-109 | content, position and error code are those of the models, ENOMEM only without memory; the server writes what it hears of the two pushes, the whole data when the encoding fits its parameter |
| Kernel.Mount.VtfsRead | module/file_ops.c:9-57 | returns the bytes the reply carries, or the local ones when it carries none, and moves the position by them; a reply with status 200 and the server's slice is used exactly when the slice has at most 3054 bytes |
| Kernel.Mount.VtfsIterate | module/dir_ops.c:11-76 | emits the listing of the directory with that number from the position on, or the error |
| Witnesses.UnlinkLosesBytes | module/inode_ops.c:188-227 | create n, write a byte, link m, write another byte, unlink m: the file has lost the second byte |
| Witnesses.RmdirLeavesRow | module/inode_ops.c:127-186 | mkdir n, rmdir n from a joint fresh start: the server keeps the directory row |
| Witnesses.CreateAfterRmdir | module/inode_ops.c:75-103 | mkdir n, rmdir n, create n without a new lookup: a local file over a server directory |
| Witnesses.LinkStaysLocal | module/inode_ops.c:188-227 | create a, link b: the server has no row for b |
| Witnesses.StaleGap | module/storage.c:398-401 | a write past the end within the buffer exposes what the memory held before |
| Witnesses.ShortWrite | server/src/main/kotlin/com/vtfs/server/service/FileSystemService.kt:198-199 | a short write at offset 0 zeroes the rest of the server's copy |
| Witnesses.SecondByte | module/file_ops.c:89-100 | write two bytes, write the second one again: the push at offset 0 has replaced the first byte on the server |
| Witnesses.HeadIsTaken | module/http.c:171-194 | a status line 200 and the chunked header make a head as the read codec asks for |
| Witnesses.NewlineChunk | module/http.c:208-214 | a chunk that is one newline is not decoded |

## Left out

- Sockets, request formatting, the token, URL parsing and the receive limit of one response (4095 characters, head included): a sync is a direct call of the server's operation.
- Truncation: names over 255 bytes, paths over 256 or 512 bytes, and NUL inside a name are assumed away.
- The 64-bit wrap of `total_decoded + chunk_size`, of `offset + len` and of `dst_size - 3` for buffers under three bytes; the server's 32-bit offsets and sizes.
- What the server's base64 library makes of a pushed text that has been cut: any answer is allowed, and paths and types stay right whatever it is.
- Reads past the end of a received response: the response buffer is taken to be zeroed behind its terminator.
- Parsing of the stat answer (`extract_json_number` and the brace matching): a stat answers type or failure directly.
- The server's `link`, which would store a second row with a number that its unique column forbids; the kernel never calls it.
- Relative paths that begin with `..` in `normalizePath`; the kernel client sends absolute paths only.
- Spinlock interleavings, timestamps, modes beyond file and directory, VFS inode and dentry counts, user-space copies, mount and registration code, Spring and JPA wiring.
- A row's `size` column, which always equals the length of its data.
- Null arguments: `vtfs_storage_delete_entry`, `vtfs_storage_read`, `vtfs_storage_write` and `vtfs_storage_add_link` answer EINVAL to them, and no caller passes one.
- The rollback of `vtfs_link` after `vtfs_storage_add_link`: it never runs, because the only refusal left there, a directory, has been excluded before.
- Growth in place: `krealloc` may return the old address; the objects always move, the value layer allows both.
- Refinement.RunRefines: speaks of runs in which no unlink takes the newest of several names after a write has extended the file; `Inodes.LosingNewestName` shows that content or buffer is lost otherwise.
- Storage.VtfsStorage.Read: asks for a live buffer behind the entry, which `Refinement.RunRefines` provides for the newest name of every file in guarded runs.
- Storage.VtfsStorage.Write: asks for a live buffer behind the entry in the same way.
- Kernel.Mount.VtfsRead: asks for the invariant of the guarded runs.
- Kernel.Mount.VtfsWrite: asks for the invariant of the guarded runs.
- Base64.Base64Decode: asks for room for the decoded bytes, because the source stores past a shorter buffer; `ReadCodec.ReadRoundTrip` shows that the server's answers never need more than the size asked for, and answers that are longer than that are outside the model.
- Kernel.Mount.VtfsLookup: takes the fetched content as a parameter; what the server serves is the subject of `ReadCodec.ReadRoundTrip`.
- Kernel.Mount.VtfsIterate: emits a listing taken at once, where the source lets go of its lock around each `dir_emit`; changes between calls are covered by `Readdir.NothingMissed`.
- Cleanup.BuffersReleased: covers files with one name each; entries that share a buffer free it twice, as `Cleanup.BuffersFreedOnce` says.
- UrlEncode.UrlEncode: takes the source as the bytes before its terminator.
