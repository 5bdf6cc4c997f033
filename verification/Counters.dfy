/** Link counters equal cardinalities, over every run. */
module Counters {
  import opened Lists
  import opened Paths
  import opened Tree

  /** The names of an inode: all entries that carry its number. */
  ghost function NamesOf<E>(s: Store<E>, ino: nat): set<E> {
    set x | x in s.nodes && s.nodes[x].ino == ino
  }

  ghost function Subdirs<E>(s: Store<E>, d: E): set<E> {
    set x | x in s.nodes && x != s.root && s.nodes[x].parent == d && s.nodes[x].dir
  }

  /** A directory made by mkdir (or the root) starts at 2; one fetched from the server is left at 1. */
  ghost function ExpectedNlink<E>(s: Store<E>, made: set<E>, x: E): int
    requires x in s.nodes
  {
    if s.nodes[x].dir then (if x in made then 2 else 1) + |Subdirs(s, x)| else |NamesOf(s, s.nodes[x].ino)|
  }

  ghost predicate Counted<E>(s: Store<E>, made: set<E>) {
    && s.root in made
    && forall x {:trigger ExpectedNlink(s, made, x)} :: x in s.nodes ==> s.nodes[x].nlink == ExpectedNlink(s, made, x)
  }

  /** Bookkeeping for the statement only: which live entries mkdir made. */
  ghost function MadeAfter<E>(s: Store<E>, op: Op<E>, made: set<E>): set<E> {
    if op.Mkdir? && op.mem.Some? then (if op.mem.value in s.nodes then made else made + {op.mem.value})
    else if op.Lookup_? && op.mem.Some? && op.mem.value !in s.nodes then made - {op.mem.value}
    else made
  }

  lemma FreshIsCounted<E>(root: E)
    ensures Counted(FreshStore(root), {root})
  {
    var s := FreshStore(root);
    assert Subdirs(s, root) == {};
  }

  lemma NoSubdirs<E>(s: Store<E>, e: E)
    requires WellFormed(s) && (e in s.nodes ==> s.nodes[e].children == [])
    ensures Subdirs(s, e) == {}
  {
    forall y {:trigger Up(s, y)} | y in s.nodes && y != s.root ensures Up(s, y) != e {
      assert Up(s, y) in s.nodes && y in s.nodes[Up(s, y)].children;
    }
    assert forall y :: y in s.nodes && y != s.root && s.nodes[y].parent == e ==> Up(s, y) == e;
  }

  /** What a new entry does to the two kinds of sets that are counted. */
  lemma CreateSets<E>(s: Store<E>, parent: E, name: string, dir: bool, ino: nat, mem: Option<E>, x: E, i: nat)
    requires WellFormed(s) && CreateEntry(s, parent, name, dir, ino, mem).1
    ensures var s' := CreateEntry(s, parent, name, dir, ino, mem).0;
            && Subdirs(s', x) == Subdirs(s, x) + (if dir && x == parent then {mem.value} else {})
            && NamesOf(s', i) == NamesOf(s, i) + (if i == s'.nodes[mem.value].ino then {mem.value} else {})
            && mem.value !in Subdirs(s, x) && mem.value !in NamesOf(s, i)
  {
    var s' := CreateEntry(s, parent, name, dir, ino, mem).0;
    forall y {:trigger s'.nodes[y]} | y in s.nodes
      ensures s'.nodes[y].parent == s.nodes[y].parent && s'.nodes[y].dir == s.nodes[y].dir && s'.nodes[y].ino == s.nodes[y].ino
    {
    }
  }

  /** A new number starts with one name; a new directory adds one to its parent. */
  lemma CreateCounted<E>(s: Store<E>, parent: E, name: string, dir: bool, mem: Option<E>, made: set<E>)
    requires WellFormed(s) && Counted(s, made) && CreateEntry(s, parent, name, dir, 0, mem).1
    ensures Counted(CreateEntry(s, parent, name, dir, 0, mem).0, made - {mem.value})
  {
    hide WellFormed, ExpectedNlink, Lookup;
    var s' := CreateEntry(s, parent, name, dir, 0, mem).0;
    RootStays(s, mem.value);
    forall x {:trigger ExpectedNlink(s', made - {mem.value}, x)} | x in s'.nodes
      ensures s'.nodes[x].nlink == ExpectedNlink(s', made - {mem.value}, x)
    {
      CreatedCount(s, parent, name, dir, mem, made, x);
    }
  }

  lemma RootStays<E>(s: Store<E>, e: E)
    requires WellFormed(s) && e !in s.nodes
    ensures s.root != e
  {
  }

  lemma CreatedCount<E>(s: Store<E>, parent: E, name: string, dir: bool, mem: Option<E>, made: set<E>, x: E)
    requires WellFormed(s) && Counted(s, made) && CreateEntry(s, parent, name, dir, 0, mem).1
    requires x in CreateEntry(s, parent, name, dir, 0, mem).0.nodes
    ensures var s' := CreateEntry(s, parent, name, dir, 0, mem).0;
            s'.nodes[x].nlink == ExpectedNlink(s', made - {mem.value}, x)
  {
    hide WellFormed, Subdirs, NamesOf, Lookup;
    var e := mem.value;
    var s' := CreateEntry(s, parent, name, dir, 0, mem).0;
    CreateSets(s, parent, name, dir, 0, mem, x, s'.nodes[x].ino);
    NothingCounted(s, e);
    if x != e { assert s.nodes[x].nlink == ExpectedNlink(s, made, x); }
  }

  /** An address and a number that are not in use yet. */
  lemma NothingCounted<E>(s: Store<E>, e: E)
    requires WellFormed(s) && e !in s.nodes
    ensures Subdirs(s, e) == {} && NamesOf(s, s.nextIno) == {}
    ensures forall x :: x in s.nodes ==> s.nodes[x].ino < s.nextIno
  {
    NoSubdirs(s, e);
  }

  /** Deleting an entry takes one name from its inode and one subdirectory from its parent, and nothing else. */
  lemma DeleteCounted<E>(s: Store<E>, e: E, made: set<E>)
    requires WellFormed(s) && Counted(s, made) && e in s.nodes && DeleteEntry(s, e).1 == OK
    ensures Counted(DeleteEntry(s, e).0, made)
  {
    hide Listed, Ordered, Named, NoDup, Remove;
    var s' := DeleteEntry(s, e).0;
    var n := s.nodes[e];
    assert Up(s, e) == n.parent;
    forall x {:trigger ExpectedNlink(s', made, x)} | x in s'.nodes
      ensures s'.nodes[x].nlink == ExpectedNlink(s', made, x)
    {
      assert s.nodes[x].nlink == ExpectedNlink(s, made, x);
      assert s'.nodes[x].dir == s.nodes[x].dir && s'.nodes[x].ino == s.nodes[x].ino;
      assert forall y {:trigger s'.nodes[y]} :: y in s'.nodes ==>
          s'.nodes[y].parent == s.nodes[y].parent && s'.nodes[y].dir == s.nodes[y].dir && s'.nodes[y].ino == s.nodes[y].ino;
      if s.nodes[x].dir {
        assert Subdirs(s', x) == Subdirs(s, x) - {e};
        assert s.nodes[x].ino != n.ino;
      } else {
        assert NamesOf(s', s.nodes[x].ino) == NamesOf(s, s.nodes[x].ino) - {e};
      }
    }
  }

  /** Making a fetched-style directory into a mkdir-made one is just its missing link. */
  lemma MkdirCounted<E>(s: Store<E>, e: E, made: set<E>)
    requires WellFormed(s) && Counted(s, made) && e in s.nodes && s.nodes[e].dir && e !in made && s.nodes[e].children == []
    ensures Counted(SetNlink(s, e, 2), made + {e})
  {
    var s' := SetNlink(s, e, 2);
    NoSubdirs(s, e);
    forall x {:trigger ExpectedNlink(s', made + {e}, x)} | x in s'.nodes
      ensures s'.nodes[x].nlink == ExpectedNlink(s', made + {e}, x)
    {
      assert Subdirs(s', x) == Subdirs(s, x);
      assert NamesOf(s', s'.nodes[x].ino) == NamesOf(s, s'.nodes[x].ino);
      assert s.nodes[x].nlink == ExpectedNlink(s, made, x);
    }
  }

  /** A hard link: the new entry and every older name show the grown count. */
  lemma LinkCounted<E>(s: Store<E>, target: E, parent: E, name: string, mem: Option<E>, made: set<E>)
    requires WellFormed(s) && Counted(s, made) && target in s.nodes && !s.nodes[target].dir
    requires CreateEntry(s, parent, name, false, s.nodes[target].ino, mem).1
    ensures Counted(AddLink(CreateEntry(s, parent, name, false, s.nodes[target].ino, mem).0, target).0, made)
  {
    var e, i := mem.value, s.nodes[target].ino;
    var s1 := CreateEntry(s, parent, name, false, i, mem).0;
    LinkTargetCount(s, target, parent, name, mem, made);
    forall x {:trigger ExpectedNlink(s1, made, x)} | x in s1.nodes && s1.nodes[x].ino != i
      ensures s1.nodes[x].nlink == ExpectedNlink(s1, made, x)
    {
      OthersStayCounted(s, parent, name, i, mem, made, x);
    }
    AddLinkCounted(s1, target, made);
  }

  lemma LinkTargetCount<E>(s: Store<E>, target: E, parent: E, name: string, mem: Option<E>, made: set<E>)
    requires WellFormed(s) && Counted(s, made) && target in s.nodes && !s.nodes[target].dir
    requires CreateEntry(s, parent, name, false, s.nodes[target].ino, mem).1
    ensures var i := s.nodes[target].ino;
            var s1 := CreateEntry(s, parent, name, false, i, mem).0;
            && |NamesOf(s1, i)| == s1.nodes[target].nlink + 1
            && s1.nodes[target] == s.nodes[target]
            && forall x {:trigger s1.nodes[x].ino} :: x in s1.nodes && s1.nodes[x].ino == i ==> !s1.nodes[x].dir
  {
    hide Listed, Ordered, Named, Linked, NoDup, Lookup;
    assert s.nodes[target].nlink == ExpectedNlink(s, made, target);
    CreateSets(s, parent, name, false, s.nodes[target].ino, mem, target, s.nodes[target].ino);
  }

  lemma OthersStayCounted<E>(s: Store<E>, parent: E, name: string, i: nat, mem: Option<E>, made: set<E>, x: E)
    requires WellFormed(s) && Counted(s, made) && i != 0 && CreateEntry(s, parent, name, false, i, mem).1
    requires x in s.nodes && s.nodes[x].ino != i
    ensures var s1 := CreateEntry(s, parent, name, false, i, mem).0;
            s1.nodes[x].nlink == ExpectedNlink(s1, made, x)
  {
    CreateSets(s, parent, name, false, i, mem, x, s.nodes[x].ino);
    assert s.nodes[x].nlink == ExpectedNlink(s, made, x);
  }

  /** `vtfs_storage_add_link` repairs exactly the inode that has gained a name. */
  lemma AddLinkCounted<E>(s: Store<E>, target: E, made: set<E>)
    requires target in s.nodes && !s.nodes[target].dir && s.root in made
    requires |NamesOf(s, s.nodes[target].ino)| == s.nodes[target].nlink + 1
    requires forall x {:trigger s.nodes[x].ino} :: x in s.nodes && s.nodes[x].ino == s.nodes[target].ino ==> !s.nodes[x].dir
    requires forall x {:trigger ExpectedNlink(s, made, x)} ::
               x in s.nodes && s.nodes[x].ino != s.nodes[target].ino ==> s.nodes[x].nlink == ExpectedNlink(s, made, x)
    ensures Counted(AddLink(s, target).0, made)
  {
    var s' := AddLink(s, target).0;
    forall x {:trigger ExpectedNlink(s', made, x)} | x in s'.nodes
      ensures s'.nodes[x].nlink == ExpectedNlink(s', made, x)
    {
      AddLinkSets(s, target, x, s.nodes[x].ino);
      if s.nodes[x].ino != s.nodes[target].ino { assert s.nodes[x].nlink == ExpectedNlink(s, made, x); }
    }
  }

  lemma AddLinkSets<E>(s: Store<E>, target: E, x: E, i: nat)
    requires target in s.nodes && !s.nodes[target].dir
    ensures var s' := AddLink(s, target).0; Subdirs(s', x) == Subdirs(s, x) && NamesOf(s', i) == NamesOf(s, i)
  {
  }

  lemma CountedIgnoresStrangers<E>(s: Store<E>, made: set<E>, made': set<E>)
    requires Counted(s, made) && s.root in made'
    requires forall x {:trigger x in made'} :: x in s.nodes ==> (x in made <==> x in made')
    ensures Counted(s, made')
  {
    forall x {:trigger ExpectedNlink(s, made', x)} | x in s.nodes ensures s.nodes[x].nlink == ExpectedNlink(s, made', x) {
      assert x in made <==> x in made';
      assert s.nodes[x].nlink == ExpectedNlink(s, made, x);
    }
  }

  lemma StepCounted<E>(s: Store<E>, op: Op<E>, made: set<E>)
    requires WellFormed(s) && NamesValid(op) && Counted(s, made)
    ensures Counted(Step(s, op), MadeAfter(s, op, made))
  {
    match op
    case Lookup_(p, n, m, r) => LookupCounted(s, p, n, m, r, made);
    case Create(p, n, m, i) => CreateStepCounted(s, p, n, m, i, made);
    case Mkdir(p, n, m, i) => MkdirStepCounted(s, p, n, m, i, made);
    case Unlink(p, n) => VictimCounted(s, p, n, made);
    case Rmdir(p, n) => VictimCounted(s, p, n, made);
    case Link(t, p, n, m) => LinkStepCounted(s, t, p, n, m, made);
  }

  /** Allocation failure burns a number and changes nothing else. */
  lemma FailedCreateCounted<E>(s: Store<E>, parent: E, name: string, dir: bool, ino: nat, mem: Option<E>, made: set<E>)
    requires Counted(s, made) && !CreateEntry(s, parent, name, dir, ino, mem).1
    ensures Counted(CreateEntry(s, parent, name, dir, ino, mem).0, made)
  {
    var s' := CreateEntry(s, parent, name, dir, ino, mem).0;
    forall x {:trigger ExpectedNlink(s', made, x)} | x in s'.nodes ensures s'.nodes[x].nlink == ExpectedNlink(s', made, x) {
      assert Subdirs(s', x) == Subdirs(s, x) && NamesOf(s', s.nodes[x].ino) == NamesOf(s, s.nodes[x].ino);
      assert s.nodes[x].nlink == ExpectedNlink(s, made, x);
    }
  }

  lemma LookupCounted<E>(s: Store<E>, p: nat, n: string, m: Option<E>, r: Option<bool>, made: set<E>)
    requires WellFormed(s) && IsName(n) && Counted(s, made)
    ensures Counted(LookupStep(s, p, n, m, r), MadeAfter(s, Lookup_(p, n, m, r), made))
  {
    var made' := MadeAfter(s, Lookup_(p, n, m, r), made);
    GetByInoFacts(s, p);
    CountedIgnoresStrangers(s, made, made');
    if GetByIno(s, p).Some? && r.Some? {
      var parent := GetByIno(s, p).value;
      if CreateEntry(s, parent, n, r.value, 0, m).1 {
        CreateCounted(s, parent, n, r.value, m, made);
      } else {
        FailedCreateCounted(s, parent, n, r.value, 0, m, made');
      }
    }
  }

  lemma CreateStepCounted<E>(s: Store<E>, p: nat, n: string, m: Option<E>, i: bool, made: set<E>)
    requires WellFormed(s) && IsName(n) && Counted(s, made)
    ensures Counted(CreateStep(s, p, n, m, i).0, made)
  {
    GetByInoFacts(s, p);
    if GetByIno(s, p).Some? {
      var parent := GetByIno(s, p).value;
      var (s1, ok) := CreateEntry(s, parent, n, false, 0, m);
      if ok {
        CreateCounted(s, parent, n, false, m, made);
        CreateWellFormed(s, parent, n, false, 0, m);
        FileCounted(s1, m.value, made);
        if !i { DeleteCounted(s1, m.value, made); }
      } else {
        FailedCreateCounted(s, parent, n, false, 0, m, made);
      }
    }
  }

  lemma FileCounted<E>(s: Store<E>, e: E, made: set<E>)
    requires Counted(s, made - {e}) && e in s.nodes && !s.nodes[e].dir && s.root != e
    ensures Counted(s, made)
  {
    forall x {:trigger ExpectedNlink(s, made, x)} | x in s.nodes ensures s.nodes[x].nlink == ExpectedNlink(s, made, x) {
      assert s.nodes[x].nlink == ExpectedNlink(s, made - {e}, x);
    }
  }

  lemma MkdirStepCounted<E>(s: Store<E>, p: nat, n: string, m: Option<E>, i: bool, made: set<E>)
    requires WellFormed(s) && IsName(n) && Counted(s, made)
    ensures Counted(MkdirStep(s, p, n, m, i).0, MadeAfter(s, Mkdir(p, n, m, i), made))
  {
    var made' := MadeAfter(s, Mkdir(p, n, m, i), made);
    GetByInoFacts(s, p);
    CountedIgnoresStrangers(s, made, made');
    if GetByIno(s, p).Some? {
      var parent := GetByIno(s, p).value;
      var (s1, ok) := CreateEntry(s, parent, n, true, 0, m);
      if ok {
        CreateCounted(s, parent, n, true, m, made);
        CreateWellFormed(s, parent, n, true, 0, m);
        MkdirCounted(s1, m.value, made - {m.value});
        assert made - {m.value} + {m.value} == made';
        SetNlinkWellFormed(s1, m.value, 2);
        if !i { DeleteCounted(SetNlink(s1, m.value, 2), m.value, made'); }
      } else {
        FailedCreateCounted(s, parent, n, true, 0, m, made');
      }
    }
  }

  lemma VictimCounted<E>(s: Store<E>, p: nat, n: string, made: set<E>)
    requires WellFormed(s) && Counted(s, made)
    ensures Counted(UnlinkStep(s, p, n).0, made) && Counted(RmdirStep(s, p, n).0, made)
  {
    VictimDeleted(s, p, n);
    var v := Victim(s, p, n);
    if v.Some? && DeleteEntry(s, v.value).1 == OK { DeleteCounted(s, v.value, made); }
  }

  lemma LinkStepCounted<E>(s: Store<E>, t: nat, p: nat, n: string, m: Option<E>, made: set<E>)
    requires WellFormed(s) && IsName(n) && Counted(s, made)
    ensures Counted(LinkStep(s, t, p, n, m).0, made)
  {
    GetByInoFacts(s, t);
    GetByInoFacts(s, p);
    if GetByIno(s, t).Some? && !s.nodes[GetByIno(s, t).value].dir && GetByIno(s, p).Some? {
      var target, parent := GetByIno(s, t).value, GetByIno(s, p).value;
      if CreateEntry(s, parent, n, false, s.nodes[target].ino, m).1 {
        LinkCounted(s, target, parent, n, m, made);
      } else {
        FailedCreateCounted(s, parent, n, false, s.nodes[target].ino, m, made);
      }
    }
  }

  ghost function MadeBy<E>(s: Store<E>, ops: seq<Op<E>>, made: set<E>): set<E>
    decreases |ops|
  {
    if ops == [] then made else MadeBy(Step(s, ops[0]), ops[1..], MadeAfter(s, ops[0], made))
  }

  /** Every counter is exact in every state reachable from a fresh mount. */
  lemma {:induction false} RunCounted<E>(s: Store<E>, ops: seq<Op<E>>, made: set<E>)
    requires WellFormed(s) && Counted(s, made) && forall i :: 0 <= i < |ops| ==> NamesValid(ops[i])
    ensures Counted(Run(s, ops), MadeBy(s, ops, made))
    decreases |ops|
  {
    if ops != [] {
      StepWellFormed(s, ops[0]);
      StepCounted(s, ops[0], made);
      RunCounted(Step(s, ops[0]), ops[1..], MadeAfter(s, ops[0], made));
    }
  }
}
