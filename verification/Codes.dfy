/** What the inode operations answer, said of live entries: each code, when it comes, and what a success leaves. */
module Codes {
  import opened Lists
  import opened Paths
  import opened Tree

  /** An entry that a call addresses by its directory's number and its name. */
  ghost predicate IsChild<E>(s: Store<E>, parentIno: nat, name: string, c: E)
    requires c in s.nodes
  {
    && c != s.root && s.nodes[c].name == name
    && Up(s, c) in s.nodes && s.nodes[Up(s, c)].ino == parentIno
  }

  ghost predicate HasChild<E>(s: Store<E>, parentIno: nat, name: string) {
    exists c {:trigger IsChild(s, parentIno, name, c)} :: c in s.nodes && IsChild(s, parentIno, name, c)
  }

  ghost predicate InUse<E>(s: Store<E>, ino: nat) {
    exists x {:trigger s.nodes[x].ino} :: x in s.nodes && s.nodes[x].ino == ino
  }

  ghost predicate IsDirectory<E>(s: Store<E>, ino: nat) {
    exists d {:trigger s.nodes[d].ino} :: d in s.nodes && s.nodes[d].ino == ino && s.nodes[d].dir
  }

  /** No entry lies directly in this one. */
  ghost predicate IsEmpty<E>(s: Store<E>, e: E) {
    forall x {:trigger Up(s, x)} :: x in s.nodes && x != s.root ==> Up(s, x) != e
  }

  /** Memory that the allocator could give for an entry. */
  ghost predicate Obtained<E>(s: Store<E>, mem: Option<E>) {
    mem.Some? && mem.value !in s.nodes
  }

  /** A name can be made: the directory is there, the name is free in it, and memory for the entry is had. */
  ghost predicate Makeable<E>(s: Store<E>, parentIno: nat, name: string, mem: Option<E>) {
    IsDirectory(s, parentIno) && !HasChild(s, parentIno, name) && Obtained(s, mem)
  }

  // ---------- The codes ----------

  ghost predicate RmdirAnswers<E>(s: Store<E>, parentIno: nat, name: string, err: Errno) {
    && (!HasChild(s, parentIno, name) ==> err == ENOENT)
    && forall c {:trigger IsChild(s, parentIno, name, c)} :: c in s.nodes && IsChild(s, parentIno, name, c) ==>
         err == if !s.nodes[c].dir then ENOTDIR else if !IsEmpty(s, c) then ENOTEMPTY else OK
  }

  ghost predicate UnlinkAnswers<E>(s: Store<E>, parentIno: nat, name: string, err: Errno) {
    && (!HasChild(s, parentIno, name) ==> err == ENOENT)
    && forall c {:trigger IsChild(s, parentIno, name, c)} :: c in s.nodes && IsChild(s, parentIno, name, c) ==>
         err == if IsEmpty(s, c) then OK else ENOTEMPTY
  }

  ghost predicate MakeAnswers<E>(s: Store<E>, parentIno: nat, name: string, mem: Option<E>, inodeOk: bool, err: Errno) {
    err == if !InUse(s, parentIno) then ENOENT
           else if !Makeable(s, parentIno, name, mem) then EEXIST
           else if inodeOk then OK else ENOMEM
  }

  ghost predicate LinkAnswers<E>(s: Store<E>, targetIno: nat, parentIno: nat, name: string, mem: Option<E>, err: Errno) {
    err == if !InUse(s, targetIno) then ENOENT
           else if IsDirectory(s, targetIno) then EPERM
           else if !InUse(s, parentIno) then ENOENT
           else if !Makeable(s, parentIno, name, mem) then EEXIST
           else OK
  }

  // ---------- The searches ----------

  lemma DirectoryFound<E>(s: Store<E>, ino: nat)
    requires WellFormed(s)
    ensures GetByIno(s, ino).Some? <==> InUse(s, ino)
    ensures GetByIno(s, ino).Some? && GetByIno(s, ino).value in s.nodes && s.nodes[GetByIno(s, ino).value].dir <==>
            IsDirectory(s, ino)
  {
    GetByInoFacts(s, ino);
    hide WellFormed, GetByIno;
  }

  /** The entry that unlink or rmdir picks is the child of that name, if there is one. */
  lemma VictimIsChild<E>(s: Store<E>, parentIno: nat, name: string, c: E)
    requires WellFormed(s) && c in s.nodes
    ensures Victim(s, parentIno, name) == Some(c) <==> IsChild(s, parentIno, name, c)
  {
    GetByInoFacts(s, parentIno);
    var d := GetByIno(s, parentIno);
    if d.Some? { LookupFacts(s, d.value, name); }
    if IsChild(s, parentIno, name, c) { assert d == Some(Up(s, c)); }
  }

  lemma VictimNone<E>(s: Store<E>, parentIno: nat, name: string)
    requires WellFormed(s)
    ensures Victim(s, parentIno, name).None? <==> !HasChild(s, parentIno, name)
  {
    hide WellFormed, Victim;
    VictimDeleted(s, parentIno, name);
    var v := Victim(s, parentIno, name);
    if v.Some? { VictimIsChild(s, parentIno, name, v.value); }
    if HasChild(s, parentIno, name) {
      var c :| c in s.nodes && IsChild(s, parentIno, name, c);
      VictimIsChild(s, parentIno, name, c);
    }
  }

  lemma ChildListEmpty<E>(s: Store<E>, e: E)
    requires WellFormed(s) && e in s.nodes
    ensures s.nodes[e].children == [] <==> IsEmpty(s, e)
    ensures !s.nodes[e].dir ==> IsEmpty(s, e)
  {
    var l := s.nodes[e].children;
    if l != [] {
      ParentsAreDirectories(s, e);
      assert l[0] in l && Up(s, l[0]) == e;
    }
  }

  lemma MakeableIs<E>(s: Store<E>, parentIno: nat, name: string, dir: bool, ino: nat, mem: Option<E>)
    requires WellFormed(s) && GetByIno(s, parentIno).Some?
    ensures Makeable(s, parentIno, name, mem) <==>
            CreateEntry(s, GetByIno(s, parentIno).value, name, dir, ino, mem).1
  {
    hide WellFormed, GetByIno, Lookup;
    DirectoryFound(s, parentIno);
    VictimNone(s, parentIno, name);
  }

  // ---------- The operations answer so ----------

  lemma RmdirCode<E>(s: Store<E>, parentIno: nat, name: string)
    requires WellFormed(s)
    ensures RmdirAnswers(s, parentIno, name, RmdirStep(s, parentIno, name).1)
  {
    hide WellFormed, Victim, IsChild, IsEmpty;
    VictimNone(s, parentIno, name);
    VictimDeleted(s, parentIno, name);
    forall c {:trigger IsChild(s, parentIno, name, c)} | c in s.nodes && IsChild(s, parentIno, name, c)
      ensures RmdirStep(s, parentIno, name).1 ==
              if !s.nodes[c].dir then ENOTDIR else if !IsEmpty(s, c) then ENOTEMPTY else OK
    {
      VictimIsChild(s, parentIno, name, c);
      ChildListEmpty(s, c);
    }
  }

  lemma UnlinkCode<E>(s: Store<E>, parentIno: nat, name: string)
    requires WellFormed(s)
    ensures UnlinkAnswers(s, parentIno, name, UnlinkStep(s, parentIno, name).1)
  {
    hide WellFormed, Victim, IsChild, IsEmpty;
    VictimNone(s, parentIno, name);
    VictimDeleted(s, parentIno, name);
    forall c {:trigger IsChild(s, parentIno, name, c)} | c in s.nodes && IsChild(s, parentIno, name, c)
      ensures UnlinkStep(s, parentIno, name).1 == if IsEmpty(s, c) then OK else ENOTEMPTY
    {
      VictimIsChild(s, parentIno, name, c);
      ChildListEmpty(s, c);
    }
  }

  lemma CreateCode<E>(s: Store<E>, parentIno: nat, name: string, mem: Option<E>, inodeOk: bool)
    requires WellFormed(s)
    ensures MakeAnswers(s, parentIno, name, mem, inodeOk, CreateStep(s, parentIno, name, mem, inodeOk).1)
  {
    hide WellFormed, Makeable;
    DirectoryFound(s, parentIno);
    if GetByIno(s, parentIno).Some? { MakeableIs(s, parentIno, name, false, 0, mem); }
  }

  lemma MkdirCode<E>(s: Store<E>, parentIno: nat, name: string, mem: Option<E>, inodeOk: bool)
    requires WellFormed(s)
    ensures MakeAnswers(s, parentIno, name, mem, inodeOk, MkdirStep(s, parentIno, name, mem, inodeOk).1)
  {
    hide WellFormed, Makeable;
    DirectoryFound(s, parentIno);
    if GetByIno(s, parentIno).Some? { MakeableIs(s, parentIno, name, true, 0, mem); }
  }

  lemma LinkCode<E>(s: Store<E>, targetIno: nat, parentIno: nat, name: string, mem: Option<E>)
    requires WellFormed(s)
    ensures LinkAnswers(s, targetIno, parentIno, name, mem, LinkStep(s, targetIno, parentIno, name, mem).1)
  {
    hide WellFormed, Makeable;
    GetByInoFacts(s, targetIno);
    DirectoryFound(s, targetIno);
    DirectoryFound(s, parentIno);
    if GetByIno(s, targetIno).Some? && GetByIno(s, parentIno).Some? {
      MakeableIs(s, parentIno, name, false, s.nodes[GetByIno(s, targetIno).value].ino, mem);
    }
  }

  /** `vtfs_storage_delete_entry` refuses the root and entries that others lie in. */
  lemma DeleteCode<E>(s: Store<E>, e: E)
    requires WellFormed(s) && e in s.nodes
    ensures DeleteEntry(s, e).1 == if e == s.root then EBUSY else if !IsEmpty(s, e) then ENOTEMPTY else OK
  {
    hide IsEmpty;
    ChildListEmpty(s, e);
    if s.nodes[e].children != [] { ParentsAreDirectories(s, e); }
  }

  // ---------- What the answers come with ----------

  /** A refused unlink or rmdir changes nothing; one that succeeds takes the child and no other entry. */
  lemma DropTakes<E>(s: Store<E>, parentIno: nat, name: string)
    requires WellFormed(s)
    ensures var (s', err) := UnlinkStep(s, parentIno, name);
            if err != OK then s' == s
            else exists c {:trigger IsChild(s, parentIno, name, c)} ::
                   c in s.nodes && IsChild(s, parentIno, name, c) && s'.nodes.Keys == s.nodes.Keys - {c}
    ensures var (s', err) := RmdirStep(s, parentIno, name);
            if err != OK then s' == s
            else exists c {:trigger IsChild(s, parentIno, name, c)} ::
                   c in s.nodes && IsChild(s, parentIno, name, c) && s'.nodes.Keys == s.nodes.Keys - {c}
  {
    hide WellFormed, Victim, IsChild;
    VictimDeleted(s, parentIno, name);
    var v := Victim(s, parentIno, name);
    if v.Some? { VictimIsChild(s, parentIno, name, v.value); }
  }

  /** What a create or mkdir that succeeds adds: the next number, one link for a file and two for a directory. */
  lemma MadeEntry<E>(s: Store<E>, parentIno: nat, name: string, mem: Option<E>, dir: bool)
    requires WellFormed(s) && Makeable(s, parentIno, name, mem)
    ensures var s' := if dir then MkdirStep(s, parentIno, name, mem, true).0
                      else CreateStep(s, parentIno, name, mem, true).0;
            && mem.value in s'.nodes && IsChild(s', parentIno, name, mem.value)
            && s'.nodes.Keys == s.nodes.Keys + {mem.value}
            && var e := s'.nodes[mem.value];
               e.ino == s.nextIno && e.dir == dir && e.nlink == (if dir then 2 else 1) && e.children == []
  {
    assert s.root in s.nodes;
    assert Obtained(s, mem) && IsDirectory(s, parentIno);
    hide WellFormed, GetByIno, Lookup, Makeable;
    DirectoryFound(s, parentIno);
    GetByInoFacts(s, parentIno);
    MakeableIs(s, parentIno, name, dir, 0, mem);
    var s' := if dir then MkdirStep(s, parentIno, name, mem, true).0 else CreateStep(s, parentIno, name, mem, true).0;
    assert mem.value in s'.nodes && Up(s', mem.value) == GetByIno(s, parentIno).value;
  }

  /** What a link that succeeds adds: another name of the target's inode, with the counter that every name then has. */
  lemma LinkedEntry<E>(s: Store<E>, targetIno: nat, parentIno: nat, name: string, mem: Option<E>)
    requires WellFormed(s) && LinkStep(s, targetIno, parentIno, name, mem).1 == OK
    ensures var s' := LinkStep(s, targetIno, parentIno, name, mem).0;
            && mem.Some? && mem.value in s'.nodes && s'.nodes.Keys == s.nodes.Keys + {mem.value}
            && IsChild(s', parentIno, name, mem.value)
            && var e := s'.nodes[mem.value];
               && e.ino == targetIno && !e.dir && e.children == []
               && forall x {:trigger s'.nodes[x].nlink} ::
                    x in s'.nodes && s'.nodes[x].ino == targetIno ==> s'.nodes[x].nlink == e.nlink
  {
    assert s.root in s.nodes;
    GetByInoFacts(s, targetIno);
    GetByInoFacts(s, parentIno);
    hide WellFormed, GetByIno, Lookup;
    var s' := LinkStep(s, targetIno, parentIno, name, mem).0;
    assert mem.value in s'.nodes && Up(s', mem.value) == GetByIno(s, parentIno).value;
  }
}
