/** Teardown: `free_entries_recursive` from the root frees every entry exactly once. */
module Cleanup {
  import opened Lists
  import opened Tree
  import opened FileData
  import opened Inodes
  import opened Memory

  /** The order in which the recursive teardown frees what hangs below `d`, from the k-th child on: each
      subtree before its own entry. */
  ghost function FreeOrder<E>(s: Store<E>, d: E, k: nat): seq<E>
    requires WellFormed(s) && d in s.nodes && k <= |s.nodes[d].children|
    decreases |s.all| - Rank(s.all, d), |s.nodes[d].children| - k
  {
    if k == |s.nodes[d].children| then []
    else
      var c := s.nodes[d].children[k];
      ChildFacts(s, d, k);
      (if s.nodes[c].dir then FreeOrder(s, c, 0) else []) + [c] + FreeOrder(s, d, k + 1)
  }

  lemma ChildFacts<E>(s: Store<E>, d: E, k: nat)
    requires WellFormed(s) && d in s.nodes && k < |s.nodes[d].children|
    ensures var c := s.nodes[d].children[k];
            c in s.nodes && c != s.root && Up(s, c) == d && Rank(s.all, d) < Rank(s.all, c) <= |s.all|
  {
    var c := s.nodes[d].children[k];
    assert c in s.nodes[d].children;
    assert Up(s, c) == d;
  }

  /** `x` is `c` or lies below it. */
  ghost predicate Within<E>(s: Store<E>, x: E, c: E)
    requires WellFormed(s) && x in s.nodes
    decreases Rank(s.all, x)
  {
    x == c || (x != s.root && Within(s, Up(s, x), c))
  }

  lemma {:induction false} WithinRank<E>(s: Store<E>, x: E, c: E)
    requires WellFormed(s) && x in s.nodes && c in s.nodes && Within(s, x, c) && x != c
    ensures Rank(s.all, c) < Rank(s.all, x)
    decreases Rank(s.all, x)
  {
    if Up(s, x) != c { WithinRank(s, Up(s, x), c); }
  }

  lemma {:induction false} EverythingWithinRoot<E>(s: Store<E>, x: E)
    requires WellFormed(s) && x in s.nodes
    ensures Within(s, x, s.root)
    decreases Rank(s.all, x)
  {
    if x != s.root { EverythingWithinRoot(s, Up(s, x)); }
  }

  /** Below a directory means within one of its children. */
  lemma {:induction false} WithinChild<E>(s: Store<E>, x: E, d: E) returns (j: nat)
    requires WellFormed(s) && x in s.nodes && d in s.nodes && Within(s, x, d) && x != d
    ensures j < |s.nodes[d].children| && Within(s, x, s.nodes[d].children[j])
    decreases Rank(s.all, x)
  {
    if Up(s, x) == d {
      assert x in s.nodes[d].children;
      j :| 0 <= j < |s.nodes[d].children| && s.nodes[d].children[j] == x;
    } else {
      j := WithinChild(s, Up(s, x), d);
    }
  }

  lemma {:induction false} ChildWithin<E>(s: Store<E>, x: E, c: E)
    requires WellFormed(s) && x in s.nodes && c in s.nodes && c != s.root && Within(s, x, c)
    ensures Within(s, x, Up(s, c))
    decreases Rank(s.all, x)
  {
    if x != c { ChildWithin(s, Up(s, x), c); }
  }

  /** Two siblings have no common descendant. */
  lemma {:induction false} SiblingsDisjoint<E>(s: Store<E>, x: E, c: E, e: E)
    requires WellFormed(s) && x in s.nodes && c in s.nodes && e in s.nodes && c != s.root && e != s.root
    requires Up(s, c) == Up(s, e) && Within(s, x, c) && Within(s, x, e)
    ensures c == e
    decreases Rank(s.all, x)
  {
    if x != c && x != e {
      SiblingsDisjoint(s, Up(s, x), c, e);
    } else if c != e {
      var d := Up(s, c);
      assert Within(s, d, if x == c then e else c);
      WithinRank(s, d, if x == c then e else c);
      assert false;
    }
  }

  ghost predicate InOneOf<E>(s: Store<E>, x: E, d: E, k: nat)
    requires WellFormed(s) && d in s.nodes && x in s.nodes
  {
    exists j :: k <= j < |s.nodes[d].children| && Within(s, x, s.nodes[d].children[j])
  }

  /** What is freed below a directory is exactly what lies within its remaining children. */
  lemma {:induction false} FreedExactly<E>(s: Store<E>, d: E, k: nat, x: E)
    requires WellFormed(s) && d in s.nodes && k <= |s.nodes[d].children| && x in s.nodes
    ensures x in FreeOrder(s, d, k) <==> InOneOf(s, x, d, k)
    decreases |s.all| - Rank(s.all, d), |s.nodes[d].children| - k
  {
    hide WellFormed;
    if k < |s.nodes[d].children| {
      var c := s.nodes[d].children[k];
      ChildFacts(s, d, k);
      FreedExactly(s, d, k + 1, x);
      BelowFreed(s, d, k, x);
      assert InOneOf(s, x, d, k) <==> Within(s, x, c) || InOneOf(s, x, d, k + 1);
    }
  }

  /** A child's subtree, without the child, is what the recursive call frees (nothing, for a file). */
  lemma {:induction false} BelowFreed<E>(s: Store<E>, d: E, k: nat, x: E)
    requires WellFormed(s) && d in s.nodes && k < |s.nodes[d].children| && x in s.nodes
    ensures var c := s.nodes[d].children[k];
            && c in s.nodes && Rank(s.all, d) < Rank(s.all, c) <= |s.all|
            && (x in (if s.nodes[c].dir then FreeOrder(s, c, 0) else []) <==> Within(s, x, c) && x != c)
    decreases |s.all| - Rank(s.all, d), |s.nodes[d].children| - k, 0
  {
    var c := s.nodes[d].children[k];
    ChildFacts(s, d, k);
    if s.nodes[c].dir { FreedExactly(s, c, 0, x); }
    if Within(s, x, c) && x != c {
      var j := WithinChild(s, x, c);
      if !s.nodes[c].dir { ParentsAreDirectories(s, c); }
    }
    if InOneOf(s, x, c, 0) {
      var j :| 0 <= j < |s.nodes[c].children| && Within(s, x, s.nodes[c].children[j]);
      ChildFacts(s, c, j);
      ChildWithin(s, x, s.nodes[c].children[j]);
      if x == c { WithinRank(s, c, s.nodes[c].children[j]); assert false; }
    }
  }

  lemma {:induction false} FreedAreLive<E>(s: Store<E>, d: E, k: nat)
    requires WellFormed(s) && d in s.nodes && k <= |s.nodes[d].children|
    ensures forall i :: 0 <= i < |FreeOrder(s, d, k)| ==> FreeOrder(s, d, k)[i] in s.nodes
    decreases |s.all| - Rank(s.all, d), |s.nodes[d].children| - k
  {
    hide WellFormed;
    if k < |s.nodes[d].children| {
      var c := s.nodes[d].children[k];
      ChildFacts(s, d, k);
      if s.nodes[c].dir { FreedAreLive(s, c, 0); }
      FreedAreLive(s, d, k + 1);
    }
  }

  lemma NoDupConcat<T>(a: seq<T>, b: seq<T>)
    requires NoDup(a) && NoDup(b) && forall i, j :: 0 <= i < |a| && 0 <= j < |b| ==> a[i] != b[j]
    ensures NoDup(a + b)
  {
  }

  /** No entry is freed twice. */
  lemma {:induction false} FreedOnce<E>(s: Store<E>, d: E, k: nat)
    requires WellFormed(s) && d in s.nodes && k <= |s.nodes[d].children|
    ensures NoDup(FreeOrder(s, d, k))
    decreases |s.all| - Rank(s.all, d), |s.nodes[d].children| - k
  {
    hide WellFormed;
    if k < |s.nodes[d].children| {
      var c := s.nodes[d].children[k];
      ChildFacts(s, d, k);
      var below := if s.nodes[c].dir then FreeOrder(s, c, 0) else [];
      var rest := FreeOrder(s, d, k + 1);
      if s.nodes[c].dir { FreedOnce(s, c, 0); FreedAreLive(s, c, 0); }
      FreedOnce(s, d, k + 1);
      FreedAreLive(s, d, k + 1);
      BelowFreed(s, d, k, c);
      forall i | 0 <= i < |below| ensures below[i] != c { assert below[i] in below; }
      NoDupConcat(below, [c]);
      forall i, j | 0 <= i < |below + [c]| && 0 <= j < |rest| ensures (below + [c])[i] != rest[j] {
        var x := (below + [c])[i];
        assert x in below + [c] && (x in below || x == c);
        BelowFreed(s, d, k, x);
        if x == rest[j] {
          assert x in rest;
          FreedExactly(s, d, k + 1, x);
          LaterSibling(s, d, k, x);
          assert false;
        }
      }
      NoDupConcat(below + [c], rest);
    }
  }

  /** What lies within one child lies within no later one. */
  lemma LaterSibling<E>(s: Store<E>, d: E, k: nat, x: E)
    requires WellFormed(s) && d in s.nodes && k < |s.nodes[d].children| && x in s.nodes
    requires Within(s, x, s.nodes[d].children[k])
    ensures !InOneOf(s, x, d, k + 1)
  {
    forall j | k < j < |s.nodes[d].children| ensures !Within(s, x, s.nodes[d].children[j]) {
      ChildFacts(s, d, k);
      ChildFacts(s, d, j);
      if Within(s, x, s.nodes[d].children[j]) {
        SiblingsDisjoint(s, x, s.nodes[d].children[k], s.nodes[d].children[j]);
        assert false;
      }
    }
  }

  /** The whole teardown: the recursion from the root, then the root itself. */
  ghost function Teardown<E>(s: Store<E>): seq<E>
    requires WellFormed(s)
  {
    FreeOrder(s, s.root, 0) + [s.root]
  }

  /** Every entry is freed, exactly once, and nothing else is: the global list ends empty. */
  lemma TeardownIsComplete<E>(s: Store<E>)
    requires WellFormed(s)
    ensures NoDup(Teardown(s))
    ensures forall x :: x in s.nodes ==> x in Teardown(s)
    ensures forall i :: 0 <= i < |Teardown(s)| ==> Teardown(s)[i] in s.nodes
  {
    var f := FreeOrder(s, s.root, 0);
    FreedOnce(s, s.root, 0);
    FreedAreLive(s, s.root, 0);
    forall x | x in s.nodes ensures x in f <==> x != s.root {
      FreedExactly(s, s.root, 0, x);
      if x != s.root {
        EverythingWithinRoot(s, x);
        var j := WithinChild(s, x, s.root);
      } else if InOneOf(s, x, s.root, 0) {
        var j :| 0 <= j < |s.nodes[s.root].children| && Within(s, x, s.nodes[s.root].children[j]);
        ChildFacts(s, s.root, j);
        assert false;
      }
    }
    forall i | 0 <= i < |f| ensures f[i] != s.root { assert f[i] in f; }
    NoDupConcat(f, [s.root]);
    forall x | x in s.nodes ensures x in Teardown(s) {
      assert x in f + [s.root] <==> x in f || x == s.root;
    }
  }

  // ---------- Data buffers ----------

  /** The buffers `free_entry` releases along the way. */
  ghost function FreedBuffers<E, B>(files: map<E, FileRec<B>>, order: seq<E>): seq<B> {
    if order == [] then []
    else
      var rest := FreedBuffers(files, order[1..]);
      if order[0] in files && files[order[0]].data.Some? then [files[order[0]].data.value] + rest else rest
  }

  ghost predicate Owns<E, B>(files: map<E, FileRec<B>>, e: E, b: B) {
    e in files && files[e].data == Some(b)
  }

  lemma {:induction false} FreedBuffersHas<E, B>(files: map<E, FileRec<B>>, order: seq<E>, b: B)
    ensures b in FreedBuffers(files, order) <==> exists i :: 0 <= i < |order| && Owns(files, order[i], b)
  {
    if order != [] {
      var t := order[1..];
      FreedBuffersHas(files, t, b);
      if exists i :: 0 <= i < |t| && Owns(files, t[i], b) {
        var i :| 0 <= i < |t| && Owns(files, t[i], b);
        assert Owns(files, order[i + 1], b);
      }
      if exists i :: 0 <= i < |order| && Owns(files, order[i], b) {
        var i :| 0 <= i < |order| && Owns(files, order[i], b);
        assert i > 0 ==> Owns(files, t[i - 1], b);
      }
      assert Owns(files, order[0], b) ==> b == FreedBuffers(files, order)[0];
    }
  }

  lemma NoDupCons<T>(b: T, r: seq<T>)
    ensures NoDup([b] + r) <==> NoDup(r) && b !in r
  {
    var w := [b] + r;
    if NoDup(w) {
      forall i, j | 0 <= i < j < |r| ensures r[i] != r[j] { assert w[i + 1] != w[j + 1]; }
      forall i | 0 <= i < |r| ensures r[i] != b { assert w[0] != w[i + 1]; }
    }
  }

  /** No buffer is freed twice exactly when no two entries share one. */
  lemma {:induction false} BuffersFreedOnce<E, B>(files: map<E, FileRec<B>>, order: seq<E>)
    requires NoDup(order)
    ensures NoDup(FreedBuffers(files, order)) <==>
            forall i, j, b :: 0 <= i < j < |order| && Owns(files, order[i], b) ==> !Owns(files, order[j], b)
  {
    if order != [] {
      var t := order[1..];
      var r := FreedBuffers(files, t);
      BuffersFreedOnce(files, t);
      assert forall i :: 0 <= i < |t| ==> t[i] == order[i + 1];
      if order[0] in files && files[order[0]].data.Some? {
        var b := files[order[0]].data.value;
        FreedBuffersHas(files, t, b);
        var whole := [b] + r;
        NoDupCons(b, r);
      } else {
        assert FreedBuffers(files, order) == r;
      }
    }
  }

  ghost predicate SingleNames<E>(s: Store<E>) {
    forall x, y {:trigger s.nodes[x].ino, s.nodes[y].ino} ::
      x in s.nodes && y in s.nodes && s.nodes[x].ino == s.nodes[y].ino ==> x == y
  }

  /** When no file has two names, teardown releases every data buffer exactly once, each of them live. */
  lemma BuffersReleased<E, B>(fs: Fs<E, B>)
    requires Ok(fs) && SingleNames(fs.tree)
    ensures NoDup(FreedBuffers(fs.files, Teardown(fs.tree)))
    ensures forall e, b :: Owns(fs.files, e, b) ==> b in FreedBuffers(fs.files, Teardown(fs.tree)) && b in fs.bufs
  {
    var order := Teardown(fs.tree);
    TeardownIsComplete(fs.tree);
    forall e | e in fs.tree.nodes ensures fs.files[e] == HeadRec(fs, fs.tree.nodes[e].ino) {
      GetByInoFacts(fs.tree, fs.tree.nodes[e].ino);
    }
    forall i, j, b | 0 <= i < j < |order| && Owns(fs.files, order[i], b) ensures !Owns(fs.files, order[j], b) {
      assert order[i] in fs.tree.nodes && order[j] in fs.tree.nodes;
      assert fs.tree.nodes[order[i]].ino != fs.tree.nodes[order[j]].ino;
      assert HeadRec(fs, fs.tree.nodes[order[i]].ino).data == Some(b);
    }
    BuffersFreedOnce(fs.files, order);
    forall e, b | Owns(fs.files, e, b) ensures b in FreedBuffers(fs.files, order) && b in fs.bufs {
      assert e in order;
      var i :| 0 <= i < |order| && order[i] == e;
      FreedBuffersHas(fs.files, order, b);
      HeadFacts(fs, fs.tree.nodes[e].ino);
    }
  }

  /** From any state of a guarded run without hard links, teardown leaves no buffer behind. */
  lemma NothingLeaks<E, B>(fs: Fs<E, B>, b: B)
    requires Ok(fs) && Tight(fs) && SingleNames(fs.tree)
    ensures b in FreedBuffers(fs.files, Teardown(fs.tree)) <==> b in fs.bufs
  {
    BuffersReleased(fs);
    if b in fs.bufs {
      assert Owned(fs, b);
      var i: nat :| HeadRec(fs, i).data == Some(b);
      HeadFacts(fs, i);
      assert Owns(fs.files, GetByIno(fs.tree, i).value, b);
    }
    if b in FreedBuffers(fs.files, Teardown(fs.tree)) {
      FreedBuffersHas(fs.files, Teardown(fs.tree), b);
    }
  }
}
