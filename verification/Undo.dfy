/** What one operation takes back of another. */
module Undo {
  import opened Lists
  import opened Paths
  import opened Tree
  import opened Counters

  lemma RootIsLive<E>(s: Store<E>)
    requires WellFormed(s)
    ensures s.root in s.nodes && s.nodes[s.root].dir
  {
  }

  lemma DetachUndoesInsert<E>(s: Store<E>, parent: E, name: string, dir: bool, mem: Option<E>, x: E, k: int)
    requires WellFormed(s) && CreateEntry(s, parent, name, dir, 0, mem).1 && x in s.nodes
    ensures Detached(CreateEntry(s, parent, name, dir, 0, mem).0, mem.value, x) == s.nodes[x]
    ensures Detached(SetNlink(CreateEntry(s, parent, name, dir, 0, mem).0, mem.value, k), mem.value, x) == s.nodes[x]
  {
    var s1 := CreateEntry(s, parent, name, dir, 0, mem).0;
    assert s.nodes[x].ino < s.nextIno;
    assert x == parent ==> s1.nodes[x].children[1..] == s.nodes[x].children;
  }

  /** The rollback of create, and of mkdir, whose entry has had its counter raised in between: only the inode
      number stays spent. */
  lemma DeleteUndoesCreate<E>(s: Store<E>, parent: E, name: string, dir: bool, mem: Option<E>, k: int)
    requires WellFormed(s) && CreateEntry(s, parent, name, dir, 0, mem).1
    ensures var s1 := CreateEntry(s, parent, name, dir, 0, mem).0;
            && DeleteEntry(s1, mem.value) == (s.(nextIno := s.nextIno + 1), OK)
            && DeleteEntry(SetNlink(s1, mem.value, k), mem.value) == (s.(nextIno := s.nextIno + 1), OK)
  {
    hide WellFormed;
    var e := mem.value;
    var s1 := CreateEntry(s, parent, name, dir, 0, mem).0;
    RootIsLive(s);
    assert s1.all[1..] == s.all;
    forall x | x in s.nodes
      ensures Detached(s1, e, x) == s.nodes[x] && Detached(SetNlink(s1, e, k), e, x) == s.nodes[x]
    {
      DetachUndoesInsert(s, parent, name, dir, mem, x, k);
    }
    assert DeleteEntry(s1, e).0.nodes == s.nodes;
    assert DeleteEntry(SetNlink(s1, e, k), e).0.nodes == s.nodes;
  }

  /** A create or mkdir that fails at the inode allocation leaves the tree as it was, less one number. */
  lemma RollbackRestores<E>(s: Store<E>, p: nat, n: string, mem: Option<E>)
    requires WellFormed(s)
    ensures CreateStep(s, p, n, mem, false).0 in {s, s.(nextIno := s.nextIno + 1)}
    ensures MkdirStep(s, p, n, mem, false).0 in {s, s.(nextIno := s.nextIno + 1)}
  {
    if GetByIno(s, p).Some? {
      var parent := GetByIno(s, p).value;
      if CreateEntry(s, parent, n, false, 0, mem).1 { DeleteUndoesCreate(s, parent, n, false, mem, 2); }
      if CreateEntry(s, parent, n, true, 0, mem).1 { DeleteUndoesCreate(s, parent, n, true, mem, 2); }
    }
  }

  lemma CreatedIsVictim<E>(s: Store<E>, parent: E, name: string, dir: bool, ino: nat, mem: Option<E>)
    requires WellFormed(s) && CreateEntry(s, parent, name, dir, ino, mem).1
    ensures Lookup(CreateEntry(s, parent, name, dir, ino, mem).0, parent, name) == mem
  {
  }

  lemma DetachUndoesLink<E>(s: Store<E>, target: E, parent: E, n: string, mem: Option<E>, made: set<E>, x: E)
    requires WellFormed(s) && Counted(s, made) && target in s.nodes && !s.nodes[target].dir && x in s.nodes
    requires CreateEntry(s, parent, n, false, s.nodes[target].ino, mem).1
    ensures var s2 := AddLink(CreateEntry(s, parent, n, false, s.nodes[target].ino, mem).0, target).0;
            && s.nodes[target].ino != 0
            && mem.value in s2.nodes && x in s2.nodes && Detached(s2, mem.value, x) == s.nodes[x]
  {
    var s1 := CreateEntry(s, parent, n, false, s.nodes[target].ino, mem).0;
    assert s.nodes[target].nlink == ExpectedNlink(s, made, target);
    assert s.nodes[x].nlink == ExpectedNlink(s, made, x);
    assert x == parent ==> s1.nodes[x].children[1..] == s.nodes[x].children;
  }

  /** Unlinking a fresh hard link restores the whole tree, counters of all the other names included. */
  lemma UnlinkUndoesLink<E>(s: Store<E>, t: nat, p: nat, n: string, mem: Option<E>, made: set<E>)
    requires WellFormed(s) && Counted(s, made) && IsName(n) && LinkStep(s, t, p, n, mem).1 == OK
    ensures mem.Some? && mem.value in LinkStep(s, t, p, n, mem).0.nodes
    ensures DeleteEntry(LinkStep(s, t, p, n, mem).0, mem.value) == (s, OK)
  {
    hide WellFormed, Counted;
    GetByInoFacts(s, t);
    RootIsLive(s);
    var target, parent := GetByIno(s, t).value, GetByIno(s, p).value;
    var e := mem.value;
    var s1 := CreateEntry(s, parent, n, false, s.nodes[target].ino, mem).0;
    var s2 := AddLink(s1, target).0;
    DetachUndoesLink(s, target, parent, n, mem, made, target);
    assert s1.all[1..] == s.all;
    forall x | x in s.nodes ensures x in s2.nodes && Detached(s2, e, x) == s.nodes[x] {
      DetachUndoesLink(s, target, parent, n, mem, made, x);
    }
    assert DeleteEntry(s2, e).0.nodes == s.nodes;
  }
}
