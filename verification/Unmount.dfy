/** `vtfs_storage_cleanup` over the entry objects: frees what `Cleanup` says, in that order. */
module Unmount {
  import opened Lists
  import opened Tree
  import opened Inodes
  import opened Cleanup
  import opened Storage

  function RemoveAll<T(==)>(l: seq<T>, xs: seq<T>): seq<T>
    decreases |xs|
  {
    if xs == [] then l else RemoveAll(Remove(l, xs[0]), xs[1..])
  }

  lemma {:induction false} RemoveAllAppend<T>(l: seq<T>, xs: seq<T>, x: T)
    ensures RemoveAll(l, xs + [x]) == Remove(RemoveAll(l, xs), x)
    decreases |xs|
  {
    if xs == [] {
      assert ([] + [x])[1..] == [];
    } else {
      assert (xs + [x])[1..] == xs[1..] + [x];
      RemoveAllAppend(Remove(l, xs[0]), xs[1..], x);
    }
  }

  lemma {:induction false} RemoveAllConcat<T>(l: seq<T>, xs: seq<T>, ys: seq<T>)
    ensures RemoveAll(l, xs + ys) == RemoveAll(RemoveAll(l, xs), ys)
    decreases |xs|
  {
    if xs == [] {
      assert [] + ys == ys;
    } else {
      assert (xs + ys)[1..] == xs[1..] + ys;
      RemoveAllConcat(Remove(l, xs[0]), xs[1..], ys);
    }
  }

  lemma HasMember<T>(l: seq<T>)
    requires l != []
    ensures exists x :: x in l
  {
    assert l[0] in l;
  }

  /** A list from which every member is removed is empty. */
  lemma {:induction false} RemoveAllEmpties<T>(l: seq<T>, xs: seq<T>)
    requires NoDup(l) && forall x :: x in l ==> x in xs
    ensures RemoveAll(l, xs) == []
    decreases |xs|
  {
    if xs == [] {
      if l != [] {
        HasMember(l);
        assert false;
      }
    } else {
      RemoveFacts(l, xs[0]);
      assert xs == [xs[0]] + xs[1..];
      RemoveAllEmpties(Remove(l, xs[0]), xs[1..]);
    }
  }

  lemma {:induction false} FreedBuffersConcat<E, B>(files: map<E, FileRec<B>>, xs: seq<E>, ys: seq<E>)
    ensures FreedBuffers(files, xs + ys) == FreedBuffers(files, xs) + FreedBuffers(files, ys)
  {
    if xs == [] {
      assert [] + ys == ys;
    } else {
      assert (xs + ys)[1..] == xs[1..] + ys;
      FreedBuffersConcat(files, xs[1..], ys);
    }
  }

  /** The entry still is as the file system had it. */
  ghost predicate Untouched(fs: Fs<Entry, array<bv8>>, x: Entry)
    requires x in fs.tree.nodes && x in fs.files
    reads x
  {
    x.dir == fs.tree.nodes[x].dir && x.Fields() == fs.files[x] && x.children == fs.tree.nodes[x].children
  }

  /** So is everything that lies within `d`. */
  ghost predicate UntouchedBelow(fs: Fs<Entry, array<bv8>>, d: Entry)
    requires WellFormed(fs.tree) && fs.files.Keys == fs.tree.nodes.Keys
    reads fs.tree.nodes.Keys
  {
    forall x {:trigger Untouched(fs, x)} :: x in fs.tree.nodes && Within(fs.tree, x, d) ==> Untouched(fs, x)
  }

  /** Everything outside `d` has its children still. */
  twostate predicate ElsewhereSame(s: Store<Entry>, d: Entry)
    requires WellFormed(s)
    reads s.nodes.Keys
  {
    forall x {:trigger x.children} :: x in s.nodes && !Within(s, x, d) ==> x.children == old(x.children)
  }

  /** The children of `d` from the k-th on have not been reached yet. */
  ghost predicate UntouchedFrom(fs: Fs<Entry, array<bv8>>, d: Entry, k: nat)
    requires WellFormed(fs.tree) && fs.files.Keys == fs.tree.nodes.Keys && d in fs.tree.nodes
    reads fs.tree.nodes.Keys
  {
    var list := fs.tree.nodes[d].children;
    forall j {:trigger list[j]} :: k <= j < |list| ==> list[j] in fs.tree.nodes && UntouchedBelow(fs, list[j])
  }

  twostate predicate OnlyWithin(s: Store<Entry>, d: Entry, c: Entry)
    requires WellFormed(s)
    reads s.nodes.Keys
  {
    forall x {:trigger x.children} :: x in s.nodes && x != d && !Within(s, x, c) ==> x.children == old(x.children)
  }

  twostate predicate FieldsSame(s: Store<Entry>)
    reads s.nodes.Keys
  {
    forall x {:trigger x.Fields()} :: x in s.nodes ==> x.dir == old(x.dir) && x.Fields() == old(x.Fields())
  }

  /** A child's subtree belongs to its directory, does not contain it, and shares nothing with its siblings'. */
  lemma SubtreesApart(s: Store<Entry>, d: Entry, k: nat, x: Entry)
    requires WellFormed(s) && d in s.nodes && k < |s.nodes[d].children| && x in s.nodes
    ensures var c := s.nodes[d].children[k];
            && c in s.nodes && Rank(s.all, d) < Rank(s.all, c) <= |s.all|
            && (Within(s, x, c) ==> Within(s, x, d) && x != d)
            && forall j :: 0 <= j < |s.nodes[d].children| && j != k && Within(s, x, c) ==> !Within(s, x, s.nodes[d].children[j])
  {
    var c := s.nodes[d].children[k];
    ChildFacts(s, d, k);
    if Within(s, x, c) {
      ChildWithin(s, x, c);
      if x == d { WithinRank(s, x, c); }
      forall j | 0 <= j < |s.nodes[d].children| && j != k ensures !Within(s, x, s.nodes[d].children[j]) {
        ChildFacts(s, d, j);
        if Within(s, x, s.nodes[d].children[j]) { SiblingsDisjoint(s, x, c, s.nodes[d].children[j]); }
      }
    }
  }

  lemma Unrolled(fs: Fs<Entry, array<bv8>>, d: Entry, k: nat)
    requires WellFormed(fs.tree) && fs.files.Keys == fs.tree.nodes.Keys && d in fs.tree.nodes
    requires k < |fs.tree.nodes[d].children|
    ensures var c := fs.tree.nodes[d].children[k];
            && c in fs.tree.nodes && c != d && Rank(fs.tree.all, d) < Rank(fs.tree.all, c) <= |fs.tree.all|
            && Within(fs.tree, c, c) && !Within(fs.tree, d, c)
            && FreeOrder(fs.tree, d, k) ==
               (if fs.tree.nodes[c].dir then FreeOrder(fs.tree, c, 0) else []) + [c] + FreeOrder(fs.tree, d, k + 1)
            && FreedBuffers(fs.files, [c]) == if fs.files[c].data.Some? then [fs.files[c].data.value] else []
  {
    SubtreesApart(fs.tree, d, k, d);
  }

  lemma Starting(fs: Fs<Entry, array<bv8>>, d: Entry)
    requires WellFormed(fs.tree) && fs.files.Keys == fs.tree.nodes.Keys && d in fs.tree.nodes && UntouchedBelow(fs, d)
    ensures d.children == fs.tree.nodes[d].children && UntouchedFrom(fs, d, 0)
    ensures FreeOrder(fs.tree, d, |fs.tree.nodes[d].children|) == []
  {
    hide WellFormed, FreedBuffers;
    assert Untouched(fs, d);
    var list := fs.tree.nodes[d].children;
    forall j | 0 <= j < |list| ensures list[j] in fs.tree.nodes && UntouchedBelow(fs, list[j]) {
      SubtreesApart(fs.tree, d, j, d);
      forall x | x in fs.tree.nodes && Within(fs.tree, x, list[j]) ensures Untouched(fs, x) {
        SubtreesApart(fs.tree, d, j, x);
      }
    }
  }

  lemma NothingFreed(fs: Fs<Entry, array<bv8>>, all: seq<Entry>)
    ensures RemoveAll(all, []) == all && FreedBuffers(fs.files, []) == []
  {
  }

  /** `free_entries_recursive`. `freed` and `buffers` record the calls of `kfree` in order. */
  method FreeEntriesRecursive(st: VtfsStorage, dir: Entry, ghost fs: Fs<Entry, array<bv8>>)
    returns (ghost freed: seq<Entry>, ghost buffers: seq<array<bv8>>)
    requires WellFormed(fs.tree) && fs.files.Keys == fs.tree.nodes.Keys && dir in fs.tree.nodes
    requires UntouchedBelow(fs, dir)
    modifies st`all, fs.tree.nodes.Keys`children
    ensures freed == FreeOrder(fs.tree, dir, 0) && buffers == FreedBuffers(fs.files, freed)
    ensures st.all == RemoveAll(old(st.all), freed) && dir.children == []
    ensures ElsewhereSame(fs.tree, dir)
    decreases |fs.tree.all| - Rank(fs.tree.all, dir), 1
  {
    hide WellFormed, FreeOrder, FreedBuffers, RemoveAll, Within, Untouched;
    freed, buffers := [], [];
    ghost var k, list := 0, fs.tree.nodes[dir].children;
    Starting(fs, dir);
    NothingFreed(fs, st.all);
    while dir.children != []
      invariant k <= |list| && dir.children == list[k..]
      invariant freed + FreeOrder(fs.tree, dir, k) == FreeOrder(fs.tree, dir, 0)
      invariant buffers == FreedBuffers(fs.files, freed)
      invariant st.all == RemoveAll(old(st.all), freed)
      invariant UntouchedFrom(fs, dir, k) && ElsewhereSame(fs.tree, dir)
      decreases |list| - k
    {
      ghost var f, b;
      f, b := FreeFirst(st, dir, fs, k);
      RemoveAllConcat(old(st.all), freed, f);
      FreedBuffersConcat(fs.files, freed, f);
      freed, buffers, k := freed + f, buffers + b, k + 1;
    }
  }

  /** One turn of its loop: the first remaining child, with what lies below it. */
  method FreeFirst(st: VtfsStorage, dir: Entry, ghost fs: Fs<Entry, array<bv8>>, ghost k: nat)
    returns (ghost freed: seq<Entry>, ghost buffers: seq<array<bv8>>)
    requires WellFormed(fs.tree) && fs.files.Keys == fs.tree.nodes.Keys && dir in fs.tree.nodes
    requires var list := fs.tree.nodes[dir].children;
             k < |list| && dir.children == list[k..] && UntouchedFrom(fs, dir, k)
    modifies st`all, fs.tree.nodes.Keys`children
    ensures FreeOrder(fs.tree, dir, k) == freed + FreeOrder(fs.tree, dir, k + 1)
    ensures buffers == FreedBuffers(fs.files, freed) && st.all == RemoveAll(old(st.all), freed)
    ensures dir.children == fs.tree.nodes[dir].children[k + 1..] && UntouchedFrom(fs, dir, k + 1)
    ensures ElsewhereSame(fs.tree, dir)
    decreases |fs.tree.all| - Rank(fs.tree.all, dir), 0
  {
    hide WellFormed, FreeOrder, FreedBuffers, RemoveAll, Within;
    var child := dir.children[0];
    assert child == fs.tree.nodes[dir].children[k];
    Unrolled(fs, dir, k);
    assert Untouched(fs, child);
    freed, buffers := [], [];
    NothingFreed(fs, st.all);
    if child.dir {
      freed, buffers := FreeEntriesRecursive(st, child, fs);
    }
    RemoveAllAppend(old(st.all), freed, child);
    FreedBuffersConcat(fs.files, freed, [child]);
    freed, buffers := freed + [child], if child.data == null then buffers else buffers + [child.data];
    dir.children := Remove(dir.children, child);
    st.all := Remove(st.all, child);
    OthersKept(Visit(fs, dir, k));
  }

  /** A point in the traversal: before the k-th child of a directory. */
  datatype Visit = Visit(fs: Fs<Entry, array<bv8>>, dir: Entry, k: nat)

  /** Freeing one child's subtree changes nothing outside the directory and nothing below the later children. */
  twostate lemma OthersKept(v: Visit)
    requires WellFormed(v.fs.tree) && v.fs.files.Keys == v.fs.tree.nodes.Keys && v.dir in v.fs.tree.nodes
    requires v.k < |v.fs.tree.nodes[v.dir].children| && v.fs.tree.nodes[v.dir].children[v.k] in v.fs.tree.nodes
    requires OnlyWithin(v.fs.tree, v.dir, v.fs.tree.nodes[v.dir].children[v.k]) && FieldsSame(v.fs.tree)
    requires old(UntouchedFrom(v.fs, v.dir, v.k))
    ensures ElsewhereSame(v.fs.tree, v.dir) && UntouchedFrom(v.fs, v.dir, v.k + 1)
  {
    hide WellFormed;
    var fs, dir := v.fs, v.dir;
    var list := fs.tree.nodes[dir].children;
    forall x {:trigger x.children} | x in fs.tree.nodes && !Within(fs.tree, x, dir) ensures x.children == old(x.children) {
      SubtreesApart(fs.tree, dir, v.k, x);
    }
    forall j {:trigger list[j]} | v.k < j < |list| ensures list[j] in fs.tree.nodes && UntouchedBelow(fs, list[j]) {
      assert list[j] in fs.tree.nodes && old(UntouchedBelow(fs, list[j]));
      forall x {:trigger Untouched(fs, x)} | x in fs.tree.nodes && Within(fs.tree, x, list[j]) ensures Untouched(fs, x) {
        SubtreesApart(fs.tree, dir, j, x);
        SubtreesApart(fs.tree, dir, v.k, x);
        assert x != dir && !Within(fs.tree, x, list[v.k]);
        assert x.children == old(x.children) && x.Fields() == old(x.Fields());
        assert old(Untouched(fs, x));
      }
    }
  }

  /** `vtfs_storage_cleanup`: every entry is freed exactly once, children before their directories, the global
      list ends empty, the buffers go with their entries, and the root pointer is cleared; a second call does
      nothing. */
  method StorageCleanup(st: VtfsStorage) returns (ghost freed: seq<Entry>, ghost buffers: seq<array<bv8>>)
    requires st.root != null ==> st.Valid()
    modifies st, st.all
    ensures old(st.root) == null ==> freed == [] && buffers == [] && st.all == old(st.all)
    ensures old(st.root) != null ==>
              && WellFormed(old(st.state.tree)) && freed == Teardown(old(st.state.tree))
              && buffers == FreedBuffers(old(st.state.files), freed) && st.all == []
    ensures st.root == null && st.live == old(st.live) - (set b | b in buffers)
  {
    hide WellFormed, FreeOrder, FreedBuffers, RemoveAll, Within, Untouched, NoDup;
    freed, buffers := [], [];
    if st.root != null {
      ghost var fs := st.state;
      AllUntouched(st);
      var root: Entry := st.root;
      freed, buffers := FreeEntriesRecursive(st, root, fs);
      RemoveAllAppend(old(st.all), freed, root);
      FreedBuffersConcat(fs.files, freed, [root]);
      st.all := Remove(st.all, root);
      if root.data != null {
        buffers := buffers + [root.data];
      }
      OneFreed(fs, root);
      freed := freed + [root];
      st.root := null;
      TeardownIsComplete(fs.tree);
      RemoveAllEmpties(old(st.all), freed);
    }
    st.live := st.live - set b | b in buffers;
  }

  lemma OneFreed(fs: Fs<Entry, array<bv8>>, e: Entry)
    requires e in fs.files
    ensures FreedBuffers(fs.files, [e]) == if fs.files[e].data.Some? then [fs.files[e].data.value] else []
  {
  }

  lemma AllUntouched(st: VtfsStorage)
    requires st.Valid()
    ensures var fs := st.state;
            && st.root != null && st.root == fs.tree.root && st.root in fs.tree.nodes && fs.files.Keys == fs.tree.nodes.Keys
            && NoDup(st.all) && fs.tree.nodes.Keys == (set x | x in st.all)
            && UntouchedBelow(fs, st.root) && (st.root.data == null <==> fs.files[st.root].data.None?)
            && (st.root.data != null ==> fs.files[st.root].data == Some(st.root.data))
  {
    ListedFacts(st.state.tree);
    assert st.root in st.all;
    forall x {:trigger Untouched(st.state, x)} | x in st.state.tree.nodes ensures Untouched(st.state, x) {
      assert x in st.all && st.Synced(x);
    }
    assert st.Synced(st.root);
  }
}
