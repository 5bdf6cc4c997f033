/** storage.c over heap objects: each method's effect on the entries is a function of the tree and file model. */
module Storage {
  import opened Lists
  import opened Paths
  import opened Tree
  import opened FileData
  import opened Inodes
  import Server

  /** `struct vtfs_entry`; `children` is its list of children, newest first. */
  class Entry {
    var name: string
    var ino: nat
    var dir: bool
    var data: array?<bv8>
    var size: nat
    var capacity: nat
    var nlink: int
    var parent: Entry
    var children: seq<Entry>

    /** `alloc_entry`, with the parent that its callers set next. */
    constructor (name: string, dir: bool, ino: nat, parent: Entry)
      ensures View() == Node(name, ino, dir, 1, parent, []) && Fields() == FileRec(None, 0, 0)
    {
      this.name, this.dir, this.ino, this.parent := name, dir, ino, parent;
      nlink, data, size, capacity, children := 1, null, 0, 0, [];
    }

    constructor Root()
      ensures View() == Node("/", ROOT_INO, true, 2, this, []) && Fields() == FileRec(None, 0, 0)
    {
      name, dir, ino, parent := "/", true, ROOT_INO, this;
      nlink, data, size, capacity, children := 2, null, 0, 0, [];
    }

    ghost function View(): Node<Entry>
      reads this
    {
      Node(name, ino, dir, nlink, parent, children)
    }

    ghost function Fields(): FileRec<array<bv8>>
      reads this
    {
      var d: Option<array<bv8>> := if data == null then None else var b: array<bv8> := data; Some(b);
      FileRec(d, size, capacity)
    }
  }

  function Opt(e: Entry?): Option<Entry> {
    if e == null then None else Some(e)
  }

  /** `struct vtfs_storage`. The ghost `state` is the value that its entries and buffers stand for. */
  class VtfsStorage {
    /** Null once the storage has been cleaned up. */
    var root: Entry?
    var all: seq<Entry>
    var nextIno: nat
    /** Allocations that have been neither freed nor moved. */
    ghost var live: set<array<bv8>>
    ghost var state: Fs<Entry, array<bv8>>

    ghost predicate Synced(e: Entry)
      reads this, e
    {
      && e in state.tree.nodes && state.tree.nodes[e] == e.View()
      && e in state.files && state.files[e] == e.Fields()
    }

    ghost predicate Held(b: array<bv8>)
      reads this, b
    {
      b in state.bufs && state.bufs[b] == b[..]
    }

    ghost predicate Valid()
      reads this, all, live
    {
      Coherent() && WellFormed(state.tree)
    }

    /** The entries on the global list and the live buffers hold exactly the state. */
    ghost predicate Coherent()
      reads this, all, live
    {
      && state.tree.root == root && state.tree.all == all && state.tree.nextIno == nextIno
      && state.files.Keys == state.tree.nodes.Keys && state.bufs.Keys == live
      && (forall e {:trigger Synced(e)} :: e in all ==> Synced(e))
      && (forall b {:trigger Held(b)} :: b in live ==> Held(b))
    }

    /** The same, except for the fields of one entry. */
    ghost predicate CoherentBut(e: Entry)
      reads this, all, live
    {
      && state.tree.root == root && state.tree.all == all && state.tree.nextIno == nextIno
      && state.files.Keys == state.tree.nodes.Keys && state.bufs.Keys == live && e in state.tree.nodes
      && (forall x {:trigger Synced(x)} :: x in all && x != e ==> Synced(x))
      && (forall b {:trigger Held(b)} :: b in live ==> Held(b))
    }

    /** `vtfs_storage_init`. */
    constructor ()
      ensures Valid() && fresh(all) && live == {}
      ensures root != null && state == FreshState<Entry, array<bv8>>(root)
    {
      nextIno := ROOT_INO + 1;
      var r := new Entry.Root();
      root := r;
      all := [r];
      live := {};
      state := FreshState<Entry, array<bv8>>(r);
      new;
      FreshIsWellFormed(r);
      assert Synced(r);
    }

    /** `vtfs_storage_lookup`. */
    method Lookup(parent: Entry?, name: string) returns (r: Entry?)
      requires Valid() && (parent != null ==> parent in all)
      ensures Opt(r) == if parent == null then None else Tree.Lookup(state.tree, parent, name)
      ensures r != null ==> r in all
    {
      if parent == null {
        return null;
      }
      assert Synced(parent);
      if !parent.dir {
        return null;
      }
      ghost var nodes := state.tree.nodes;
      for i := 0 to |parent.children|
        invariant FindName(nodes, parent.children, name) == FindName(nodes, parent.children[i..], name)
      {
        var child := parent.children[i];
        assert child in nodes[parent].children && child in nodes && child in state.tree.all;
        assert Synced(child);
        if child.name == name {
          return child;
        }
        assert parent.children[i..][1..] == parent.children[i + 1..];
      }
      return null;
    }

    /** `vtfs_storage_get_by_ino`. */
    method GetByIno(ino: nat) returns (r: Entry?)
      requires Valid()
      ensures Opt(r) == Tree.GetByIno(state.tree, ino)
      ensures r != null ==> r in all
    {
      ghost var nodes := state.tree.nodes;
      for i := 0 to |all|
        invariant FindIno(nodes, all, ino) == FindIno(nodes, all[i..], ino)
      {
        assert all[i] in all && Synced(all[i]);
        if all[i].ino == ino {
          return all[i];
        }
        assert all[i..][1..] == all[i + 1..];
      }
      return null;
    }

    /** `create_entry_internal`; `memory` says whether the allocator delivers. A number other than 0 is that of
        a live file, as in `vtfs_link`. */
    method CreateEntry(parent: Entry?, name: string, dir: bool, ino: nat, memory: bool) returns (r: Entry?)
      requires Valid() && (parent != null ==> parent in all) && IsName(name)
      requires ino == 0 || (!dir && ROOT_INO <= ino < nextIno
                            && forall x :: x in state.tree.nodes && state.tree.nodes[x].ino == ino ==> !state.tree.nodes[x].dir)
      modifies this, all
      ensures Valid() && live == old(live)
      ensures r != null ==> fresh(r) && all == [r] + old(all)
      ensures r == null ==> all == old(all)
      ensures parent == null ==> r == null && state == old(state)
      ensures parent != null ==>
                var (tree', ok) := Tree.CreateEntry(old(state.tree), parent, name, dir, ino, Opt(r));
                ok == (r != null) && state == WithTree(old(state), tree', FileRec(None, 0, 0))
      ensures r != null <==>
                parent != null && memory && parent in old(state.tree.nodes) && HasRoom(old(state.tree), parent, name)
    {
      hide WellFormed, Coherent, WithTree, Tree.CreateEntry, FindName;
      r := null;
      if parent == null {
        return;
      }
      InStep(parent);
      var found := Lookup(parent, name);
      ghost var was := state;
      CreateRefused(was, parent, name, dir, ino);
      if !parent.dir || found != null {
        return;
      }
      var number := TakeNumber(ino);
      CreateWellFormed(was.tree, parent, name, dir, ino, None);
      if !memory {
        return;
      }
      ListedFacts(was.tree);
      r := InsertEntry(parent, name, dir, number);
      CreateDone(was, parent, name, dir, ino, r);
      CreateWellFormed(was.tree, parent, name, dir, ino, Some(r));
    }

    method TakeNumber(ino: nat) returns (number: nat)
      requires Coherent()
      modifies this`nextIno, this`state
      ensures Coherent() && number == (if ino == 0 then old(nextIno) else ino)
      ensures nextIno == if ino == 0 then old(nextIno) + 1 else old(nextIno)
      ensures state == old(state).(tree := old(state.tree).(nextIno := nextIno))
    {
      number := ino;
      if number == 0 {
        number := nextIno;
        nextIno := nextIno + 1;
      }
      state := state.(tree := state.tree.(nextIno := nextIno));
      forall e {:trigger Synced(e)} | e in all ensures Synced(e) { assert old(Synced(e)); }
      forall b {:trigger Held(b)} | b in live ensures Held(b) { assert old(Held(b)); }
    }

    lemma InStep(e: Entry)
      requires Coherent() && e in all
      ensures Synced(e)
      ensures state.tree.root == root && state.tree.all == all && state.tree.nextIno == nextIno
      ensures state.files.Keys == state.tree.nodes.Keys
    {
    }

    /** Brings the state up to date with one entry whose fields have changed. */
    ghost method Sync(e: Entry)
      requires e in all && CoherentBut(e)
      modifies this`state
      ensures Coherent()
      ensures state == old(state).(tree := old(state.tree).(nodes := old(state.tree.nodes)[e := e.View()]),
                                   files := old(state.files)[e := e.Fields()])
    {
      state := state.(tree := state.tree.(nodes := state.tree.nodes[e := e.View()]),
                      files := state.files[e := e.Fields()]);
      forall x {:trigger Synced(x)} | x in all ensures Synced(x) { assert x != e ==> old(Synced(x)); }
      forall b {:trigger Held(b)} | b in live ensures Held(b) { assert old(Held(b)); }
    }

    /** A change to one entry's fields leaves everything else in step. */
    twostate lemma OneChanged(e: Entry)
      requires old(Coherent()) && e in all && unchanged(this)
      requires forall x :: x in all && x != e ==> unchanged(x)
      requires forall b :: b in live ==> unchanged(b)
      ensures CoherentBut(e)
    {
      forall x {:trigger Synced(x)} | x in all && x != e ensures Synced(x) { assert old(Synced(x)); }
      forall b {:trigger Held(b)} | b in live ensures Held(b) { assert old(Held(b)); }
      assert old(Synced(e));
    }

    /** An assignment to `entry->nlink`. */
    method AssignNlink(e: Entry, n: int)
      requires Coherent() && e in all
      modifies this`state, e`nlink
      ensures Coherent() && e in old(state.tree.nodes)
      ensures state == old(state).(tree := SetNlink(old(state.tree), e, n))
    {
      assert Synced(e);
      e.nlink := n;
      OneChanged(e);
      Sync(e);
    }

    /** The list of children and the counter of a directory. */
    method AssignChildren(e: Entry, children: seq<Entry>, n: int)
      requires Coherent() && e in all
      modifies this`state, e`children, e`nlink
      ensures Coherent()
      ensures e in old(state.tree.nodes)
      ensures var e' := old(state.tree.nodes)[e].(children := children, nlink := n);
              state == old(state).(tree := old(state.tree).(nodes := old(state.tree.nodes)[e := e']))
    {
      assert Synced(e);
      e.children, e.nlink := children, n;
      OneChanged(e);
      Sync(e);
    }

    /** The list insertions and the parent's counter. */
    method InsertEntry(parent: Entry, name: string, dir: bool, number: nat) returns (r: Entry)
      requires Coherent() && parent in all && state.tree.nodes.Keys == set e | e in all
      modifies this`all, this`state, parent
      ensures Coherent() && fresh(r) && all == [r] + old(all)
      ensures parent in old(state.tree.nodes)
      ensures var p := old(state.tree.nodes)[parent];
              var p' := p.(children := [r] + p.children, nlink := if dir then p.nlink + 1 else p.nlink);
              var nodes := old(state.tree.nodes)[parent := p'][r := Node(name, number, dir, 1, parent, [])];
              state == old(state).(tree := Store(old(state.tree.root), all, nodes, nextIno),
                                   files := old(state.files)[r := FileRec(None, 0, 0)])
    {
      assert Synced(parent);
      r := new Entry(name, dir, number, parent);
      AssignChildren(parent, [r] + parent.children, if dir then parent.nlink + 1 else parent.nlink);
      List(r);
    }

    /** Insertion at the head of the global list. */
    method List(r: Entry)
      requires Coherent() && r !in all && r !in state.tree.nodes
      modifies this`all, this`state
      ensures Coherent() && all == [r] + old(all)
      ensures state == old(state).(tree := old(state.tree).(all := all, nodes := old(state.tree.nodes)[r := r.View()]),
                                   files := old(state.files)[r := r.Fields()])
    {
      all := [r] + all;
      state := state.(tree := state.tree.(all := all, nodes := state.tree.nodes[r := r.View()]),
                      files := state.files[r := r.Fields()]);
      forall e {:trigger Synced(e)} | e in all ensures Synced(e) {
        assert e == r || e in old(all);
        if e in old(all) { assert old(Synced(e)); }
      }
      forall b {:trigger Held(b)} | b in live ensures Held(b) { assert old(Held(b)); }
    }

    /** Removal from the global list. */
    method Unlist(e: Entry)
      requires Coherent() && NoDup(all) && e in all
      modifies this`all, this`state
      ensures Coherent() && all == Remove(old(all), e)
      ensures state == old(state).(tree := old(state.tree).(all := all, nodes := old(state.tree.nodes) - {e}),
                                   files := old(state.files) - {e})
    {
      RemoveFacts(all, e);
      all := Remove(all, e);
      state := state.(tree := state.tree.(all := all, nodes := state.tree.nodes - {e}), files := state.files - {e});
      forall x {:trigger Synced(x)} | x in all ensures Synced(x) { assert old(Synced(x)); }
      forall b {:trigger Held(b)} | b in live ensures Held(b) { assert old(Held(b)); }
    }

    /** The loop over the global list that lowers the counters of the other names and counts them. */
    method LowerNames(ino: nat, ghost frame: set<Entry>) returns (count: nat)
      requires forall x :: x in all ==> x in frame
      requires Coherent() && NoDup(all) && state.tree.all == all && state.tree.nodes.Keys == set x | x in all
      modifies this`state, frame
      ensures Coherent()
      ensures count == 0 <==> Tree.GetByIno(old(state.tree), ino).None?
      ensures state == old(state).(tree := old(state.tree).(nodes := RecountedAll(old(state.tree.nodes), ino, Lower)))
    {
      hide Coherent, RecountedAll, RecountedIn, FindIno;
      ghost var was := state;
      NothingRecounted(was.tree.nodes, all, ino, Lower);
      count := 0;
      for i := 0 to |all|
        invariant Coherent() && all == was.tree.all
        invariant state == was.(tree := was.tree.(nodes := RecountedIn(was.tree.nodes, all[..i], ino, Lower)))
        invariant count == 0 <==> FindIno(was.tree.nodes, all[..i], ino).None?
      {
        var other := all[i];
        InStep(other);
        OneMoreRecounted(was.tree.nodes, all, i, ino, Lower);
        FindInoAppend(was.tree.nodes, all[..i], other, ino);
        assert all[..i] + [other] == all[..i + 1];
        if other.ino == ino {
          AssignNlink(other, other.nlink - 1);
          count := count + 1;
        }
      }
      assert all[..|all|] == all;
    }

    /** `vtfs_storage_delete_entry`. */
    method DeleteEntry(e: Entry) returns (err: Errno)
      requires Valid() && e in all
      modifies this, all
      ensures Valid() && (state, err) == FsDelete(old(state), e)
      ensures all == if err == OK then Remove(old(all), e) else old(all)
      ensures live <= old(live)
    {
      hide WellFormed, Coherent, FsDelete, Tree.DeleteEntry, Unlisted, RecountedAll, WithTree, FindIno, NoDup, Remove;
      InStep(e);
      DeleteCases(state, e);
      if e == root {
        return EBUSY;
      }
      if e.dir && e.children != [] {
        return ENOTEMPTY;
      }
      ghost var was, frame := state, set x | x in all;
      VictimFacts(was.tree, e);
      DeleteIsUnlistAndLower(was, e);
      var ino, shared := e.ino, e.data;
      Detach(e);
      var others := LowerNames(ino, frame);
      assert state.tree == Tree.DeleteEntry(was.tree, e).0;
      assert state == WithTree(was, state.tree, FileRec(None, 0, 0));
      if others == 0 && shared != null {
        Free(shared);
      }
      err := OK;
    }

    /** The parent's counter and the two `list_del` calls. */
    method Detach(e: Entry)
      requires Coherent() && NoDup(all) && e in all && e.parent in all && e.parent != e
      requires state.tree.nodes.Keys == set x | x in all
      modifies this`all, this`state, e.parent
      ensures Coherent() && all == Remove(old(all), e)
      ensures e in old(state.tree.nodes) && old(state.tree.nodes)[e].parent in old(state.tree.nodes)
      ensures state == Unlisted(old(state), e)
      ensures NoDup(all) && state.tree.all == all && state.tree.nodes.Keys == set x | x in all
      ensures forall x :: x in all ==> x in old(all)
    {
      hide Coherent, NoDup, Remove, WellFormed, FindIno;
      InStep(e);
      InStep(e.parent);
      UnlistedKeys(state, e);
      AssignChildren(e.parent, Remove(e.parent.children, e), if e.dir then e.parent.nlink - 1 else e.parent.nlink);
      Unlist(e);
    }

    /** `vtfs_storage_add_link`. */
    method AddLink(target: Entry) returns (err: Errno)
      requires Valid() && target in all
      modifies this`state, all
      ensures Valid() && err == Tree.AddLink(old(state.tree), target).1
      ensures state == old(state).(tree := Tree.AddLink(old(state.tree), target).0)
    {
      hide WellFormed, Coherent, RecountedAll, RecountedIn, FindIno, Tree.AddLink, NoDup;
      InStep(target);
      ghost var was := state;
      LinkCases(was.tree, target);
      if target.dir {
        return EPERM;
      }
      var ino, n := target.ino, target.nlink + 1;
      NothingRecounted(was.tree.nodes, all, ino, Assign(n));
      for i := 0 to |all|
        invariant Coherent() && all == was.tree.all
        invariant state == was.(tree := was.tree.(nodes := RecountedIn(was.tree.nodes, all[..i], ino, Assign(n))))
      {
        var other := all[i];
        InStep(other);
        OneMoreRecounted(was.tree.nodes, all, i, ino, Assign(n));
        if other.ino == ino {
          AssignNlink(other, n);
        }
      }
      assert all[..|all|] == all;
      err := OK;
    }

    /** `vtfs_link`'s three assignments: the new name shares the target's buffer. */
    method ShareFile(link: Entry, target: Entry)
      requires Coherent() && link in all && target in all && link != target
      modifies this`state, link`data, link`size, link`capacity
      ensures Coherent() && link in old(state.files) && target in old(state.files)
      ensures state == old(state).(files := old(state.files)[link := old(state.files)[target]])
    {
      assert Synced(link) && Synced(target);
      link.data, link.size, link.capacity := target.data, target.size, target.capacity;
      OneChanged(link);
      Sync(link);
      assert state.tree.nodes == old(state.tree.nodes);
    }

    /** `vtfs_storage_read` of an entry whose buffer is live. */
    method Read(e: Entry, buffer: array<bv8>, len: nat, offset: nat) returns (n: nat, err: Errno)
      requires Valid() && e in all && buffer !in live && len <= buffer.Length
      requires LiveRec(state, state.files[e])
      modifies buffer
      ensures Valid() && err == if e.dir then EINVAL else OK
      ensures err == OK ==>
                var got := ReadAt(Buffer(state, state.files[e])[..state.files[e].size], offset, len);
                n == |got| && buffer[..] == got + old(buffer[..])[n..]
      ensures err != OK ==> n == 0 && buffer[..] == old(buffer[..])
    {
      hide WellFormed, ReadAt;
      assert Synced(e);
      BufferFacts(e);
      n := 0;
      if e.dir {
        return 0, EINVAL;
      }
      err := OK;
      ReadCases(Buffer(state, state.files[e]), e.size, offset, len);
      if offset >= e.size {
        return;
      }
      n := if len < e.size - offset then len else e.size - offset;
      if e.data != null {
        CopyOut(e.data, offset, n, buffer);
      }
    }

    /** `vtfs_storage_write`. `mem` and `junk` tell what the allocator returned when the buffer had to grow. */
    method Write(e: Entry, buffer: array<bv8>, offset: nat, memory: bool)
      returns (err: Errno, ghost mem: Option<array<bv8>>, ghost junk: Bytes)
      requires Valid() && e in all && buffer !in live && LiveRec(state, state.files[e])
      modifies this`state, this`live, e, live
      ensures Valid() && (state, err) == WriteEntry(old(state), e, offset, old(buffer[..]), mem, junk)
      ensures all == old(all) && fresh(live - old(live)) && (mem.Some? ==> fresh(mem.value)) && (!memory ==> mem.None?)
      ensures err == ENOMEM ==> !memory
    {
      hide WellFormed, Coherent, WriteEntry, Grown, Overlaying;
      InStep(e);
      BufferFacts(e);
      mem, junk := None, [];
      if e.dir || offset + buffer.Length > MAX_FILE_SIZE || (offset + buffer.Length > e.capacity && !memory) {
        WriteRefused(state, e, offset, buffer[..]);
      }
      if e.dir {
        return EINVAL, None, [];
      }
      var newSize := offset + buffer.Length;
      if newSize > MAX_FILE_SIZE {
        return EFBIG, None, [];
      }
      ghost var was, data := state, buffer[..];
      if newSize > e.capacity {
        if !memory {
          return ENOMEM, None, [];
        }
        var b;
        b, junk := Grow(e, newSize, offset);
        mem := Some(b);
        GrowAndOverlay(was, e, offset, data, b, junk);
      } else {
        OverlayOnly(was, e, offset, data);
      }
      Overlay(e, buffer, offset);
      err := OK;
    }

    /** The growth branch: `krealloc`, the gap's memset, and the two fields. */
    method Grow(e: Entry, newSize: nat, offset: nat) returns (b: array<bv8>, ghost junk: Bytes)
      requires Coherent() && e in all && e in state.files && LiveRec(state, state.files[e])
      requires state.files[e].capacity < newSize && offset <= newSize
      modifies this`state, this`live, e`data, e`capacity
      ensures Coherent() && fresh(b) && state == Grown(old(state), e, newSize, offset, b, junk)
      ensures live == (if old(e.data) == null then old(live) else old(live) - {old(e.data)}) + {b}
      ensures e.data == b
    {
      hide Coherent, Regrown, Fit, NewCapacity, LiveRec;
      InStep(e);
      var newCapacity := Max(newSize, e.capacity * 2);
      if newCapacity < 64 {
        newCapacity := 64;
      }
      CapacityFacts(e.capacity, newSize);
      ghost var buf := Buffer(state, state.files[e]);
      BufferFacts(e);
      b, junk := Reallocate(e.data, e.capacity, newCapacity, e.size, offset);
      FitExactly(junk);
      var previous := e.data;
      AssignData(e, b, newCapacity);
      if previous != null {
        Free(previous);
      }
      Own(b);
    }

    /** A live entry's buffer, as an array and in the state. */
    lemma BufferFacts(e: Entry)
      requires Coherent() && e in all && e in state.files && LiveRec(state, state.files[e])
      ensures e.data == null ==> e.size == e.capacity == 0 && Buffer(state, state.files[e]) == []
      ensures e.data != null ==> e.data in live && e.data.Length == e.capacity && e.size <= e.capacity
                                 && Buffer(state, state.files[e]) == e.data[..]
    {
      assert Synced(e);
      if e.data != null { assert Held(e.data); }
    }

    /** Assignments to `entry->data` and `entry->capacity`. */
    method AssignData(e: Entry, b: array<bv8>, capacity: nat)
      requires Coherent() && e in all
      modifies this`state, e`data, e`capacity
      ensures Coherent() && e in old(state.files) && e.data == b
      ensures state == old(state).(files := old(state.files)[e := FileRec(Some(b), old(state.files)[e].size, capacity)])
    {
      assert Synced(e);
      e.data, e.capacity := b, capacity;
      OneChanged(e);
      Sync(e);
      assert state.tree.nodes == old(state.tree.nodes);
    }

    method AssignSize(e: Entry, size: nat)
      requires Coherent() && e in all
      modifies this`state, e`size
      ensures Coherent() && e in old(state.files)
      ensures state == old(state).(files := old(state.files)[e := old(state.files)[e].(size := size)])
    {
      assert Synced(e);
      e.size := size;
      OneChanged(e);
      Sync(e);
      assert state.tree.nodes == old(state.tree.nodes);
    }

    /** An allocation becomes one of the live buffers. */
    ghost method Own(b: array<bv8>)
      requires Coherent() && b !in live
      modifies this`live, this`state
      ensures Coherent() && live == old(live) + {b}
      ensures state == old(state).(bufs := old(state.bufs)[b := b[..]])
    {
      live := live + {b};
      state := state.(bufs := state.bufs[b := b[..]]);
      forall x {:trigger Synced(x)} | x in all ensures Synced(x) { assert old(Synced(x)); }
      forall c {:trigger Held(c)} | c in live ensures Held(c) { assert c != b ==> old(Held(c)); }
    }

    /** The copy into the buffer and the new size. */
    method Overlay(e: Entry, buffer: array<bv8>, offset: nat)
      requires Coherent() && e in all && e in state.files && LiveRec(state, state.files[e]) && buffer !in live
      requires offset + buffer.Length <= state.files[e].capacity
      modifies this`state, e`size, if e.data == null then {} else {e.data}
      ensures Coherent() && state == Overlaying(old(state), e, offset, old(buffer[..]))
    {
      hide Coherent;
      InStep(e);
      BufferFacts(e);
      if e.data != null {
        CopyIn(e.data, buffer, offset);
      }
      if offset + buffer.Length > e.size {
        AssignSize(e, offset + buffer.Length);
      }
    }

    /** `memcpy` into a live buffer. */
    method CopyIn(b: array<bv8>, buffer: array<bv8>, offset: nat)
      requires Coherent() && b in live && buffer !in live && offset + buffer.Length <= b.Length
      modifies this`state, b
      ensures Coherent() && b in old(state.bufs) && |old(state.bufs)[b]| == b.Length
      ensures state == old(state).(bufs := old(state.bufs)[b := Overlaid(old(state.bufs)[b], offset, old(buffer[..]))])
    {
      assert Held(b);
      forall i | 0 <= i < buffer.Length { b[offset + i] := buffer[i]; }
      assert b[..] == Overlaid(old(b[..]), offset, old(buffer[..]));
      state := state.(bufs := state.bufs[b := b[..]]);
      forall x {:trigger Synced(x)} | x in all ensures Synced(x) { assert old(Synced(x)); }
      forall c {:trigger Held(c)} | c in live ensures Held(c) { assert c != b ==> old(Held(c)); }
    }

    /** `kfree` of a data buffer. */
    ghost method Free(b: array<bv8>)
      requires Coherent()
      modifies this`live, this`state
      ensures Coherent() && live == old(live) - {b}
      ensures state == old(state).(bufs := old(state).bufs - {b})
    {
      live := live - {b};
      state := state.(bufs := state.bufs - {b});
      forall x {:trigger Synced(x)} | x in all ensures Synced(x) { assert old(Synced(x)); }
      forall c {:trigger Held(c)} | c in live ensures Held(c) { assert old(Held(c)); }
    }
  }

  lemma DeleteCases<E, B>(fs: Fs<E, B>, e: E)
    requires WellFormed(fs.tree) && e in fs.tree.nodes && e in fs.files
    ensures var n := fs.tree.nodes[e];
            var err := if e == fs.tree.root then EBUSY else if n.dir && n.children != [] then ENOTEMPTY else OK;
            && Tree.DeleteEntry(fs.tree, e).1 == FsDelete(fs, e).1 == err
            && (err != OK ==> FsDelete(fs, e).0 == fs)
            && (err == OK ==>
                  var t := Tree.DeleteEntry(fs.tree, e).0;
                  var kept := WithTree(fs, t, FileRec(None, 0, 0));
                  kept.bufs == fs.bufs &&
                  FsDelete(fs, e).0 == if GetByIno(t, n.ino).None? && fs.files[e].data.Some?
                                       then kept.(bufs := fs.bufs - {fs.files[e].data.value}) else kept)
  {
  }

  lemma ReadCases(buf: Bytes, size: nat, offset: nat, len: nat)
    requires size <= |buf|
    ensures var n := if len < size - offset then len else size - offset;
            ReadAt(buf[..size], offset, len) == if offset >= size then [] else buf[offset..offset + n]
  {
  }

  /** `memcpy` out of a live buffer. */
  method CopyOut(data: array<bv8>, offset: nat, n: nat, buffer: array<bv8>)
    requires data != buffer && offset + n <= data.Length && n <= buffer.Length
    modifies buffer
    ensures buffer[..] == data[offset..offset + n] + old(buffer[..])[n..]
  {
    forall i | 0 <= i < n { buffer[i] := data[offset + i]; }
  }

  lemma CapacityFacts(capacity: nat, newSize: nat)
    ensures var c := Max(newSize, capacity * 2); NewCapacity(capacity, newSize) == if c < 64 then 64 else c
  {
  }

  lemma FitExactly(junk: Bytes)
    ensures Fit(junk, |junk|) == junk
  {
  }

  /** `krealloc` and the memset that clears the gap. */
  method Reallocate(data: array?<bv8>, capacity: nat, newCapacity: nat, size: nat, offset: nat)
    returns (b: array<bv8>, ghost junk: Bytes)
    requires size <= capacity <= newCapacity && offset <= newCapacity
    requires if data == null then capacity == 0 else data.Length == capacity
    ensures fresh(b) && b.Length == newCapacity && |junk| == newCapacity - capacity
    ensures b[..] == Regrown(if data == null then [] else data[..], size, offset, newCapacity, junk)
  {
    b := new bv8[newCapacity];
    junk := b[capacity..];
    if data != null {
      forall i | 0 <= i < capacity { b[i] := data[i]; }
    }
    ghost var copied := b[..];
    assert copied == (if data == null then [] else data[..]) + junk;
    if offset > size {
      forall i | size <= i < offset { b[i] := 0; }
      assert b[..] == copied[..size] + Server.Zeros(offset - size) + copied[offset..];
    }
  }

  /** The file system after the growth branch. */
  ghost function Grown<E, B>(fs: Fs<E, B>, e: E, newSize: nat, offset: nat, b: B, junk: Bytes): Fs<E, B>
    requires e in fs.files && LiveRec(fs, fs.files[e]) && fs.files[e].capacity < newSize && offset <= newSize
  {
    var r := fs.files[e];
    var buf := Buffer(fs, r);
    var capacity' := NewCapacity(r.capacity, newSize);
    var rest := if r.data.Some? then fs.bufs - {r.data.value} else fs.bufs;
    Fs(fs.tree, fs.files[e := FileRec(Some(b), r.size, capacity')],
       rest[b := Regrown(buf, r.size, offset, capacity', Fit(junk, capacity' - |buf|))])
  }

  /** The file system after the copy into the buffer. */
  ghost function Overlaying<E, B>(fs: Fs<E, B>, e: E, offset: nat, data: Bytes): Fs<E, B>
    requires e in fs.files && LiveRec(fs, fs.files[e]) && offset + |data| <= fs.files[e].capacity
  {
    var r := fs.files[e];
    if r.data.None? then fs
    else Fs(fs.tree, fs.files[e := r.(size := Max(r.size, offset + |data|))],
            fs.bufs[r.data.value := Overlaid(fs.bufs[r.data.value], offset, data)])
  }

  lemma WriteRefused<E, B>(fs: Fs<E, B>, e: E, offset: nat, data: Bytes)
    requires e in fs.tree.nodes && e in fs.files && LiveRec(fs, fs.files[e])
    requires fs.tree.nodes[e].dir || offset + |data| > MAX_FILE_SIZE || offset + |data| > fs.files[e].capacity
    ensures WriteEntry(fs, e, offset, data, None, []) ==
            (fs, if fs.tree.nodes[e].dir then EINVAL else if offset + |data| > MAX_FILE_SIZE then EFBIG else ENOMEM)
  {
  }

  /** The spec's write is the growth branch and then the copy, */
  lemma GrowAndOverlay<E, B>(fs: Fs<E, B>, e: E, offset: nat, data: Bytes, b: B, junk: Bytes)
    requires e in fs.tree.nodes && e in fs.files && LiveRec(fs, fs.files[e]) && b !in fs.bufs
    requires !fs.tree.nodes[e].dir && fs.files[e].capacity < offset + |data| <= MAX_FILE_SIZE
    ensures var g := Grown(fs, e, offset + |data|, offset, b, junk);
            && g.tree == fs.tree && e in g.files && LiveRec(g, g.files[e]) && offset + |data| <= g.files[e].capacity
            && WriteEntry(fs, e, offset, data, Some(b), junk) == (Overlaying(g, e, offset, data), OK)
            && Overlaying(g, e, offset, data).tree == fs.tree
  {
    hide Regrown, Overlaid, Fit;
    var g := Grown(fs, e, offset + |data|, offset, b, junk);
    var w := WriteEntry(fs, e, offset, data, Some(b), junk).0;
    assert Overlaying(g, e, offset, data).bufs == w.bufs;
    assert Overlaying(g, e, offset, data).files == w.files;
  }

  /** or the copy alone. */
  lemma OverlayOnly<E, B>(fs: Fs<E, B>, e: E, offset: nat, data: Bytes)
    requires e in fs.tree.nodes && e in fs.files && LiveRec(fs, fs.files[e])
    requires !fs.tree.nodes[e].dir && offset + |data| <= fs.files[e].capacity && offset + |data| <= MAX_FILE_SIZE
    ensures WriteEntry(fs, e, offset, data, None, []) == (Overlaying(fs, e, offset, data), OK)
    ensures Overlaying(fs, e, offset, data).tree == fs.tree
  {
  }

  lemma LinkCases<E>(s: Store<E>, target: E)
    requires WellFormed(s) && target in s.nodes
    ensures NoDup(s.all) && s.nodes.Keys == set x | x in s.all
    ensures var t := s.nodes[target];
            AddLink(s, target) == if t.dir then (s, EPERM)
                                  else (s.(nodes := RecountedAll(s.nodes, t.ino, Assign(t.nlink + 1))), OK)
    ensures WellFormed(AddLink(s, target).0)
  {
    hide WellFormed, NoDup;
    AddLinkWellFormed(s, target);
    ListedFacts(s);
    var t := s.nodes[target];
    assert !t.dir ==> AddLink(s, target).0.nodes == RecountedAll(s.nodes, t.ino, Assign(t.nlink + 1));
  }

  lemma ListedFacts<E>(s: Store<E>)
    requires WellFormed(s)
    ensures NoDup(s.all) && s.nodes.Keys == set x | x in s.all
  {
  }

  /** What a loop over the names of an inode writes to a counter: a given value, or one less. */
  datatype Change = Lower | Assign(n: int)

  function Recounted<E>(n: Node<E>, ino: nat, c: Change): Node<E> {
    if n.ino == ino then n.(nlink := if c.Lower? then n.nlink - 1 else c.n) else n
  }

  function RecountedAll<E>(nodes: map<E, Node<E>>, ino: nat, c: Change): map<E, Node<E>> {
    map x | x in nodes :: Recounted(nodes[x], ino, c)
  }

  function RecountedIn<E>(nodes: map<E, Node<E>>, done: seq<E>, ino: nat, c: Change): map<E, Node<E>> {
    map x | x in nodes :: if x in done then Recounted(nodes[x], ino, c) else nodes[x]
  }

  lemma OneMoreRecounted<E>(nodes: map<E, Node<E>>, all: seq<E>, i: nat, ino: nat, c: Change)
    requires NoDup(all) && i < |all| && nodes.Keys == set x | x in all
    ensures all[i] in nodes && RecountedIn(nodes, all[..i], ino, c)[all[i]] == nodes[all[i]]
    ensures var x := all[i];
            var n := if c.Lower? then nodes[x].nlink - 1 else c.n;
            RecountedIn(nodes, all[..i + 1], ino, c) ==
            if nodes[x].ino == ino then RecountedIn(nodes, all[..i], ino, c)[x := nodes[x].(nlink := n)]
            else RecountedIn(nodes, all[..i], ino, c)
  {
    assert all[..i + 1] == all[..i] + [all[i]];
  }

  lemma NothingRecounted<E>(nodes: map<E, Node<E>>, all: seq<E>, ino: nat, c: Change)
    requires nodes.Keys == set x | x in all
    ensures RecountedIn(nodes, all[..0], ino, c) == nodes && RecountedIn(nodes, all, ino, c) == RecountedAll(nodes, ino, c)
    ensures FindIno(nodes, all[..0], ino).None?
  {
  }

  lemma {:induction false} FindInoAppend<E>(nodes: map<E, Node<E>>, l: seq<E>, x: E, ino: nat)
    requires x in nodes
    ensures FindIno(nodes, l + [x], ino).None? <==> FindIno(nodes, l, ino).None? && nodes[x].ino != ino
  {
    if l != [] {
      assert (l + [x])[1..] == l[1..] + [x];
      FindInoAppend(nodes, l[1..], x, ino);
    }
  }

  /** The entry off both lists, its parent's counter lowered for a directory. */
  function Unlisted<E, B>(fs: Fs<E, B>, e: E): Fs<E, B>
    requires e in fs.tree.nodes && fs.tree.nodes[e].parent in fs.tree.nodes
  {
    var n := fs.tree.nodes[e];
    var m := fs.tree.nodes[n.parent];
    var m' := m.(children := Remove(m.children, e), nlink := if n.dir then m.nlink - 1 else m.nlink);
    fs.(tree := fs.tree.(all := Remove(fs.tree.all, e), nodes := fs.tree.nodes[n.parent := m'] - {e}),
        files := fs.files - {e})
  }

  lemma VictimFacts<E>(s: Store<E>, e: E)
    requires WellFormed(s) && e in s.nodes && e != s.root
    ensures NoDup(s.all) && s.nodes.Keys == (set x | x in s.all)
    ensures var p := s.nodes[e].parent; p in s.nodes && p != e && p in s.all
  {
    assert Up(s, e) in s.nodes && Rank(s.all, Up(s, e)) < Rank(s.all, e);
  }

  /** The spec's single map update is the list removal followed by the counter loop. */
  lemma DeleteIsUnlistAndLower<E, B>(fs: Fs<E, B>, e: E)
    requires WellFormed(fs.tree) && e in fs.tree.nodes && DeleteEntry(fs.tree, e).1 == OK
    requires fs.files.Keys == fs.tree.nodes.Keys
    ensures WellFormed(DeleteEntry(fs.tree, e).0)
    ensures fs.tree.nodes[e].parent in fs.tree.nodes
    ensures var u := Unlisted(fs, e);
            var t := u.tree.(nodes := RecountedAll(u.tree.nodes, fs.tree.nodes[e].ino, Lower));
            && t == DeleteEntry(fs.tree, e).0
            && WithTree(fs, t, FileRec(None, 0, 0)) == u.(tree := t)
            && (GetByIno(t, fs.tree.nodes[e].ino).None? <==> GetByIno(u.tree, fs.tree.nodes[e].ino).None?)
  {
    hide WellFormed, RecountedAll, Detached, WithTree, FindIno, NoDup, Remove;
    DeleteWellFormed(fs.tree, e);
    VictimFacts(fs.tree, e);
    UnlistedKeys(fs, e);
    var u := Unlisted(fs, e);
    var ino := fs.tree.nodes[e].ino;
    LoweredIsDetached(fs.tree, u.tree, e);
    UnlistedFiles(fs, e, u.tree.(nodes := RecountedAll(u.tree.nodes, ino, Lower)));
    LoweredFind(u.tree.nodes, u.tree.all, ino);
  }

  lemma UnlistedKeys<E, B>(fs: Fs<E, B>, e: E)
    requires e in fs.tree.nodes && fs.tree.nodes[e].parent in fs.tree.nodes && fs.tree.nodes[e].parent != e
    requires NoDup(fs.tree.all) && fs.tree.nodes.Keys == (set x | x in fs.tree.all)
    ensures var u := Unlisted(fs, e).tree;
            && NoDup(u.all) && u.nodes.Keys == (set x | x in u.all) && u.nodes.Keys == fs.tree.nodes.Keys - {e}
            && (forall x :: x in u.all ==> x in u.nodes)
  {
    RemoveFacts(fs.tree.all, e);
  }

  lemma LoweredFind<E>(nodes: map<E, Node<E>>, l: seq<E>, ino: nat)
    requires forall x :: x in l ==> x in nodes
    ensures FindIno(RecountedAll(nodes, ino, Lower), l, ino) == FindIno(nodes, l, ino)
  {
    forall i | 0 <= i < |l| ensures l[i] in nodes { assert l[i] in l; }
    FindInoFrame(nodes, RecountedAll(nodes, ino, Lower), l, ino);
  }

  lemma LoweredIsDetached<E>(s: Store<E>, u: Store<E>, e: E)
    requires e in s.nodes && s.nodes[e].parent in s.nodes && s.nodes[e].parent != e
    requires var n, m := s.nodes[e], s.nodes[s.nodes[e].parent];
             var m' := m.(children := Remove(m.children, e), nlink := if n.dir then m.nlink - 1 else m.nlink);
             u.nodes == s.nodes[n.parent := m'] - {e}
    ensures RecountedAll(u.nodes, s.nodes[e].ino, Lower) == map x | x in s.nodes && x != e :: Detached(s, e, x)
  {
  }

  lemma UnlistedFiles<E, B>(fs: Fs<E, B>, e: E, t: Store<E>)
    requires fs.files.Keys == fs.tree.nodes.Keys && t.nodes.Keys == fs.tree.nodes.Keys - {e}
    ensures WithTree(fs, t, FileRec(None, 0, 0)) == fs.(tree := t, files := fs.files - {e})
  {
  }

  /** The name can be created: its parent is a directory that does not have it. */
  predicate HasRoom<E>(s: Store<E>, parent: E, name: string)
    requires parent in s.nodes
  {
    s.nodes[parent].dir && Lookup(s, parent, name).None?
  }

  /** A create without memory, or without a place for the name, keeps the entries and at most spends a number. */
  lemma CreateRefused<E, B>(fs: Fs<E, B>, parent: E, name: string, dir: bool, ino: nat)
    requires fs.files.Keys == fs.tree.nodes.Keys && parent in fs.tree.nodes
    ensures var s := fs.tree;
            var next := if !s.nodes[parent].dir || Lookup(s, parent, name).Some? || ino != 0 then s.nextIno else s.nextIno + 1;
            && CreateEntry(s, parent, name, dir, ino, None) == (s.(nextIno := next), false)
            && WithTree(fs, s.(nextIno := next), FileRec(None, 0, 0)) == fs.(tree := s.(nextIno := next))
  {
  }

  lemma CreateDone<E, B>(fs: Fs<E, B>, parent: E, name: string, dir: bool, ino: nat, r: E)
    requires fs.files.Keys == fs.tree.nodes.Keys && parent in fs.tree.nodes && r !in fs.tree.nodes
    requires fs.tree.nodes[parent].dir && Lookup(fs.tree, parent, name).None?
    ensures var s := fs.tree;
            var p := s.nodes[parent];
            var p' := p.(children := [r] + p.children, nlink := if dir then p.nlink + 1 else p.nlink);
            var (number, next) := if ino == 0 then (s.nextIno, s.nextIno + 1) else (ino, s.nextIno);
            var nodes := s.nodes[parent := p'][r := Node(name, number, dir, 1, parent, [])];
            var tree' := Store(s.root, [r] + s.all, nodes, next);
            && CreateEntry(s, parent, name, dir, ino, Some(r)) == (tree', true)
            && WithTree(fs, tree', FileRec(None, 0, 0)) == fs.(tree := tree', files := fs.files[r := FileRec(None, 0, 0)])
  {
  }
}
