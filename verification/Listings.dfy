/** The listing of a directory of the tree, and what creates and deletes do to it. */
module Listings {
  import opened Lists
  import opened Paths
  import opened Tree
  import Readdir

  function AsDirent<E>(n: Node<E>): Readdir.Dirent {
    Readdir.Dirent(n.name, n.ino, if n.dir then Readdir.DT_DIR else Readdir.DT_REG)
  }

  /** A list of children as `dir_emit` sees them. */
  function Dirents<E>(nodes: map<E, Node<E>>, l: seq<E>): seq<Readdir.Dirent> {
    if l == [] then []
    else (if l[0] in nodes then [AsDirent(nodes[l[0]])] else []) + Dirents(nodes, l[1..])
  }

  ghost function DirentsOf<E>(s: Store<E>, d: E): seq<Readdir.Dirent>
    requires d in s.nodes
  {
    Dirents(s.nodes, s.nodes[d].children)
  }

  lemma {:induction false} DirentsAppend<E>(nodes: map<E, Node<E>>, l: seq<E>, c: E)
    requires c in nodes
    ensures Dirents(nodes, l + [c]) == Dirents(nodes, l) + [AsDirent(nodes[c])]
  {
    hide AsDirent;
    if l == [] {
      assert l + [c] == [c] && [c][1..] == [];
      assert Dirents(nodes, [c]) == [AsDirent(nodes[c])] + Dirents(nodes, []);
    } else {
      var t := l[1..];
      DirentsAppend(nodes, t, c);
      assert (l + [c])[0] == l[0] && (l + [c])[1..] == t + [c];
      assert Dirents(nodes, l + [c]) == (if l[0] in nodes then [AsDirent(nodes[l[0]])] else []) + Dirents(nodes, t + [c]);
    }
  }

  lemma {:induction false} DirentsAt<E>(nodes: map<E, Node<E>>, l: seq<E>)
    requires forall i :: 0 <= i < |l| ==> l[i] in nodes
    ensures |Dirents(nodes, l)| == |l|
    ensures forall i :: 0 <= i < |l| ==> Dirents(nodes, l)[i] == AsDirent(nodes[l[i]])
  {
    if l != [] {
      assert forall i :: 0 <= i < |l[1..]| ==> l[1..][i] == l[i + 1];
      DirentsAt(nodes, l[1..]);
      assert Dirents(nodes, l) == [AsDirent(nodes[l[0]])] + Dirents(nodes, l[1..]);
    }
  }

  lemma ChildrenLive<E>(s: Store<E>, d: E)
    requires WellFormed(s) && d in s.nodes
    ensures NoDup(s.nodes[d].children)
    ensures forall i {:trigger s.nodes[d].children[i]} :: 0 <= i < |s.nodes[d].children| ==>
              var c := s.nodes[d].children[i]; c in s.nodes && c != s.root && Up(s, c) == d
  {
    forall i | 0 <= i < |s.nodes[d].children|
      ensures var c := s.nodes[d].children[i]; c in s.nodes && c != s.root && Up(s, c) == d
    {
      assert s.nodes[d].children[i] in s.nodes[d].children;
    }
  }

  /** What a directory's listing shows: itself and its parent, then its children, newest first, each by its name and
      number and as a directory exactly when it is one. */
  lemma ListingShows<E>(s: Store<E>, d: E, self: nat, up: nat, i: nat)
    requires WellFormed(s) && d in s.nodes && i < |s.nodes[d].children|
    ensures var l := Readdir.Listing(self, up, DirentsOf(s, d));
            var c := s.nodes[d].children[i];
            && |l| == |s.nodes[d].children| + 2
            && l[0].name == "." && l[0].ino == self && l[0].kind == Readdir.DT_DIR
            && l[1].name == ".." && l[1].ino == up && l[1].kind == Readdir.DT_DIR
            && c in s.nodes && c != s.root && Up(s, c) == d
            && l[i + 2].name == s.nodes[c].name && l[i + 2].ino == s.nodes[c].ino
            && (l[i + 2].kind == Readdir.DT_DIR <==> s.nodes[c].dir)
  {
    ChildrenLive(s, d);
    DirentsAt(s.nodes, s.nodes[d].children);
    hide WellFormed;
  }

  /** No directory lists an entry twice, dots included: a scan of an unchanged directory shows each name once. */
  lemma ListingHasNoRepeats<E>(s: Store<E>, d: E, self: nat, up: nat, i: nat, j: nat)
    requires WellFormed(s) && d in s.nodes && i < j < |Readdir.Listing(self, up, DirentsOf(s, d))|
    ensures Readdir.Listing(self, up, DirentsOf(s, d))[i].name != Readdir.Listing(self, up, DirentsOf(s, d))[j].name
  {
    var l := s.nodes[d].children;
    ChildrenLive(s, d);
    DirentsAt(s.nodes, l);
    if j >= 2 {
      assert l[j - 2] in s.nodes && IsName(s.nodes[l[j - 2]].name);
      if i >= 2 {
        assert Siblings(s, l[i - 2], l[j - 2]) || s.nodes[l[i - 2]].name != s.nodes[l[j - 2]].name;
      }
    }
  }

  /** A create shows up as an insertion at the head of its directory's listing, and nowhere else. */
  lemma CreateInserts<E>(s: Store<E>, parent: E, name: string, dir: bool, ino: nat, mem: Option<E>, d: E)
    requires WellFormed(s) && CreateEntry(s, parent, name, dir, ino, mem).1 && d in s.nodes
    ensures var s' := CreateEntry(s, parent, name, dir, ino, mem).0;
            && d in s'.nodes && mem.Some? && mem.value in s'.nodes
            && DirentsOf(s', d) == (if d == parent then [AsDirent(s'.nodes[mem.value])] else []) + DirentsOf(s, d)
  {
    ChildrenLive(s, d);
    hide WellFormed;
    var s' := CreateEntry(s, parent, name, dir, ino, mem).0;
    var l, l' := s.nodes[d].children, s'.nodes[d].children;
    DirentsAt(s.nodes, l);
    DirentsAt(s'.nodes, l);
    assert Dirents(s.nodes, l) == Dirents(s'.nodes, l);
    if d == parent { assert l' == [mem.value] + l && l'[1..] == l; }
  }

  /** A delete removes one position of its directory's listing, and nothing else anywhere. */
  lemma DeleteRemoves<E>(s: Store<E>, e: E, d: E) returns (k: nat)
    requires WellFormed(s) && e in s.nodes && DeleteEntry(s, e).1 == OK && d in s.nodes && d != e
    ensures var s' := DeleteEntry(s, e).0;
            && d in s'.nodes
            && (d != Up(s, e) ==> DirentsOf(s', d) == DirentsOf(s, d))
            && (d == Up(s, e) ==>
                  && k < |s.nodes[d].children| == |DirentsOf(s, d)| && s.nodes[d].children[k] == e
                  && DirentsOf(s', d) == DirentsOf(s, d)[..k] + DirentsOf(s, d)[k + 1..])
  {
    hide WellFormed, NoDup, Remove, Dirents, AsDirent, DeleteEntry;
    NotRoot(s, e);
    k := Position(s, e, d);
    ChildrenLive(s, d);
    DeletedView(s, e, d);
    var s' := DeleteEntry(s, e).0;
    var l := s.nodes[d].children;
    var r := if d == Up(s, e) then l[..k] + l[k + 1..] else l;
    DirentsAt(s.nodes, l);
    DirentsAt(s'.nodes, r);
    if d == Up(s, e) {
      assert DirentsOf(s', d) == DirentsOf(s, d)[..k] + DirentsOf(s, d)[k + 1..];
    } else {
      assert DirentsOf(s', d) == DirentsOf(s, d);
    }
  }

  lemma NotRoot<E>(s: Store<E>, e: E)
    requires e in s.nodes && DeleteEntry(s, e).1 == OK
    ensures e != s.root
  {
  }

  lemma DeletedView<E>(s: Store<E>, e: E, d: E)
    requires e in s.nodes && DeleteEntry(s, e).1 == OK && d in s.nodes && d != e
    ensures var s' := DeleteEntry(s, e).0;
            && s'.nodes.Keys == s.nodes.Keys - {e}
            && s'.nodes[d].children == (if d == Up(s, e) then Remove(s.nodes[d].children, e) else s.nodes[d].children)
            && forall x {:trigger s'.nodes[x]} :: x in s'.nodes ==> AsDirent(s'.nodes[x]) == AsDirent(s.nodes[x])
  {
  }

  /** Where a child stands in its parent's list. */
  lemma Position<E>(s: Store<E>, e: E, d: E) returns (k: nat)
    requires WellFormed(s) && e in s.nodes && e != s.root && d in s.nodes && d != e
    ensures var l := s.nodes[d].children;
            if d == Up(s, e)
            then k < |l| && l[k] == e && Remove(l, e) == l[..k] + l[k + 1..] && e !in l[..k] + l[k + 1..]
            else e !in l
  {
    var l := s.nodes[d].children;
    k := 0;
    if d == Up(s, e) {
      assert e in l && NoDup(l);
      k :| 0 <= k < |l| && l[k] == e;
      RemoveAt(l, k);
      RemoveFacts(l, e);
    }
  }

  lemma {:induction false} RemoveAt<T>(l: seq<T>, k: nat)
    requires NoDup(l) && k < |l|
    ensures Remove(l, l[k]) == l[..k] + l[k + 1..]
  {
    if k > 0 {
      assert l[0] != l[k] && l[1..][k - 1] == l[k];
      RemoveAt(l[1..], k - 1);
    }
  }
}
