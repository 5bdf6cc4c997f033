/** Paths of entries: `build_path` against lookups from the root. */
module TreePaths {
  import opened Lists
  import opened Paths
  import opened Tree

  ghost function Depth<E>(s: Store<E>, e: E): nat {
    Rank(s.all, e)
  }

  /** Component names from the root down to an entry. */
  ghost function PathOf<E>(s: Store<E>, e: E): seq<string>
    requires WellFormed(s) && e in s.nodes
    decreases Depth(s, e)
  {
    if e == s.root then [] else PathOf(s, Up(s, e)) + [s.nodes[e].name]
  }

  /** `build_path`, with its special case for children of the root. */
  ghost function BuildPath<E>(s: Store<E>, e: E): string
    requires WellFormed(s) && e in s.nodes
    decreases Depth(s, e)
  {
    if e == s.root then "/"
    else if Up(s, e) != s.root then BuildPath(s, Up(s, e)) + "/" + s.nodes[e].name
    else "/" + s.nodes[e].name
  }

  /** The path that `fetch_from_remote` assembles for a name below `parent`. */
  ghost function FetchPath<E>(s: Store<E>, parent: E, name: string): string
    requires WellFormed(s) && parent in s.nodes
  {
    var p := BuildPath(s, parent);
    (if p != "/" then p + "/" else p) + name
  }

  /** Looking up components one by one, as path resolution does. */
  function Resolve<E>(s: Store<E>, from: E, cs: seq<string>): Option<E>
    decreases |cs|
  {
    if cs == [] then Some(from)
    else match Lookup(s, from, cs[0])
      case None => None
      case Some(c) => Resolve(s, c, cs[1..])
  }

  lemma {:induction false} PathHasNames<E>(s: Store<E>, e: E)
    requires WellFormed(s) && e in s.nodes
    ensures AreNames(PathOf(s, e))
    ensures e == s.root <==> PathOf(s, e) == []
    decreases Depth(s, e)
  {
    if e != s.root {
      PathHasNames(s, Up(s, e));
      assert IsName(s.nodes[e].name);
    }
  }

  /** `build_path` spells the component list canonically. */
  lemma {:induction false} BuildPathRenders<E>(s: Store<E>, e: E)
    requires WellFormed(s) && e in s.nodes
    ensures BuildPath(s, e) == Render(PathOf(s, e))
    decreases Depth(s, e)
  {
    if e != s.root {
      var p := Up(s, e);
      BuildPathRenders(s, p);
      PathHasNames(s, p);
      assert IsName(s.nodes[e].name);
      ParentOfChild(PathOf(s, p), s.nodes[e].name);
    }
  }

  lemma {:induction false} ResolveAppend<E>(s: Store<E>, from: E, cs: seq<string>, n: string)
    ensures Resolve(s, from, cs + [n]) ==
            match Resolve(s, from, cs) case None => None case Some(d) => Lookup(s, d, n)
    decreases |cs|
  {
    var l := cs + [n];
    if cs == [] {
      assert l == [n] && l[1..] == [];
    } else {
      assert l[0] == cs[0] && l[1..] == cs[1..] + [n];
      match Lookup(s, from, cs[0]) {
        case None =>
        case Some(c) => ResolveAppend(s, c, cs[1..], n);
      }
    }
  }

  /** Round trip: the components of an entry's path resolve from the root to that entry. */
  lemma {:induction false} ResolvePath<E>(s: Store<E>, e: E)
    requires WellFormed(s) && e in s.nodes
    ensures Resolve(s, s.root, PathOf(s, e)) == Some(e)
    ensures Resolve(s, s.root, Components(BuildPath(s, e))) == Some(e)
    decreases Depth(s, e)
  {
    if e != s.root {
      var p := Up(s, e);
      ResolvePath(s, p);
      ResolveAppend(s, s.root, PathOf(s, p), s.nodes[e].name);
      LookupFacts(s, p, s.nodes[e].name);
    }
    BuildPathRenders(s, e);
    PathHasNames(s, e);
    ComponentsOfRender(PathOf(s, e));
  }

  /** Conversely, whatever resolution reaches has the resolved components as its path. */
  lemma {:induction false} ResolvedHasPath<E>(s: Store<E>, cs: seq<string>)
    requires WellFormed(s) && Resolve(s, s.root, cs).Some?
    ensures var e := Resolve(s, s.root, cs).value; e in s.nodes && PathOf(s, e) == cs
    decreases |cs|
  {
    if cs != [] {
      var l, n := cs[..|cs| - 1], cs[|cs| - 1];
      assert cs == l + [n];
      ResolveAppend(s, s.root, l, n);
      ResolvedHasPath(s, l);
      LookupFacts(s, Resolve(s, s.root, l).value, n);
    }
  }

  /** Distinct entries have distinct path strings. */
  lemma PathsInjective<E>(s: Store<E>, e: E, f: E)
    requires WellFormed(s) && e in s.nodes && f in s.nodes && BuildPath(s, e) == BuildPath(s, f)
    ensures e == f
  {
    ResolvePath(s, e);
    ResolvePath(s, f);
  }

  /** Entries that two trees share, with all their ancestors, have the same path in both. */
  lemma {:induction false} PathFrame<E>(small: Store<E>, big: Store<E>, e: E)
    requires WellFormed(small) && WellFormed(big) && small.root == big.root
    requires small.nodes.Keys <= big.nodes.Keys && Kept(big, small)
    requires e in small.nodes
    ensures BuildPath(small, e) == BuildPath(big, e)
    decreases Depth(small, e)
  {
    if e != small.root {
      assert Up(small, e) == Up(big, e);
      PathFrame(small, big, Up(small, e));
    }
  }

  /** Paths of non-root entries: the parent's path is the server's `getParentPath`. */
  lemma PathOfChild<E>(s: Store<E>, e: E)
    requires WellFormed(s) && e in s.nodes && e != s.root
    ensures BuildPath(s, e) == FetchPath(s, Up(s, e), s.nodes[e].name)
    ensures BuildPath(s, e) != "/" && IsNormal(BuildPath(s, e))
    ensures ParentPath(BuildPath(s, e)) == BuildPath(s, Up(s, e))
  {
    BuildPathRenders(s, e);
    BuildPathRenders(s, Up(s, e));
    PathHasNames(s, e);
    PathHasNames(s, Up(s, e));
    assert IsName(s.nodes[e].name);
    ParentOfChild(PathOf(s, Up(s, e)), s.nodes[e].name);
    RenderInjective(PathOf(s, Up(s, e)), []);
  }

  /** A created entry gets the path `fetch_from_remote` asked the server about; the others keep theirs. */
  lemma CreatePaths<E>(s: Store<E>, parent: E, name: string, dir: bool, ino: nat, mem: Option<E>)
    requires WellFormed(s) && IsName(name) && CreateEntry(s, parent, name, dir, ino, mem).1
    requires WellFormed(CreateEntry(s, parent, name, dir, ino, mem).0)
    ensures var s' := CreateEntry(s, parent, name, dir, ino, mem).0;
            && BuildPath(s', mem.value) == FetchPath(s, parent, name)
            && forall x {:trigger BuildPath(s', x)} :: x in s.nodes ==> BuildPath(s', x) == BuildPath(s, x)
  {
    var s' := CreateEntry(s, parent, name, dir, ino, mem).0;
    hide WellFormed, CreateEntry;
    CreatedUnder(s, parent, name, dir, ino, mem);
    forall x {:trigger BuildPath(s', x)} | x in s.nodes ensures BuildPath(s', x) == BuildPath(s, x) {
      PathFrame(s, s', x);
    }
    PathOfChild(s', mem.value);
  }

  lemma CreatedUnder<E>(s: Store<E>, parent: E, name: string, dir: bool, ino: nat, mem: Option<E>)
    requires WellFormed(s) && CreateEntry(s, parent, name, dir, ino, mem).1
    ensures var s' := CreateEntry(s, parent, name, dir, ino, mem).0;
            && Kept(s', s) && s'.root == s.root && s.nodes.Keys <= s'.nodes.Keys && parent in s.nodes
            && mem.Some? && mem.value in s'.nodes && mem.value != s'.root
            && Up(s', mem.value) == parent && s'.nodes[mem.value].name == name
  {
    CreateListed(s, parent, name, dir, ino, mem);
    var s' := CreateEntry(s, parent, name, dir, ino, mem).0;
    forall x {:trigger Up(s, x)} | x in s.nodes && x in s'.nodes ensures Up(s, x) == Up(s', x) {
    }
  }

  /** Deleting an entry leaves every other path alone. */
  lemma DeletePaths<E>(s: Store<E>, e: E)
    requires WellFormed(s) && e in s.nodes && DeleteEntry(s, e).1 == OK
    ensures WellFormed(DeleteEntry(s, e).0)
    ensures var s' := DeleteEntry(s, e).0;
            forall x {:trigger BuildPath(s', x)} :: x in s'.nodes ==> BuildPath(s', x) == BuildPath(s, x)
  {
    var s' := DeleteEntry(s, e).0;
    DeleteWellFormed(s, e);
    if s.nodes[e].children != [] { ParentsAreDirectories(s, e); }
    DeleteLinked(s, e);
    forall x {:trigger BuildPath(s', x)} | x in s'.nodes ensures BuildPath(s', x) == BuildPath(s, x) {
      PathFrame(s', s, x);
    }
  }
}
