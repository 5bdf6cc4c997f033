/** The in-memory tree of storage.c as a value: entries are addresses of type `E`. */
module Tree {
  import opened Lists
  import opened Paths

  const ROOT_INO: nat := 1000

  datatype Errno = OK | ENOENT | EEXIST | ENOTDIR | EISDIR | ENOTEMPTY | EBUSY | EPERM | EINVAL | EFBIG | ENOMEM

  datatype Node<E> = Node(name: string, ino: nat, dir: bool, nlink: int, parent: E, children: seq<E>)

  /** `all` is the global list, newest entry first; `nodes` holds the live entries. */
  datatype Store<E(==)> = Store(root: E, all: seq<E>, nodes: map<E, Node<E>>, nextIno: nat)

  // ---------- Operations ----------

  function FreshStore<E>(root: E): Store<E> {
    Store(root, [root], map[root := Node("/", ROOT_INO, true, 2, root, [])], ROOT_INO + 1)
  }

  function FindName<E>(nodes: map<E, Node<E>>, l: seq<E>, name: string): Option<E> {
    if l == [] then None
    else if l[0] in nodes && nodes[l[0]].name == name then Some(l[0])
    else FindName(nodes, l[1..], name)
  }

  function Lookup<E>(s: Store<E>, parent: E, name: string): Option<E> {
    if parent !in s.nodes || !s.nodes[parent].dir then None
    else FindName(s.nodes, s.nodes[parent].children, name)
  }

  function FindIno<E>(nodes: map<E, Node<E>>, l: seq<E>, ino: nat): Option<E> {
    if l == [] then None
    else if l[0] in nodes && nodes[l[0]].ino == ino then Some(l[0])
    else FindIno(nodes, l[1..], ino)
  }

  function GetByIno<E>(s: Store<E>, ino: nat): Option<E> {
    FindIno(s.nodes, s.all, ino)
  }

  /** `create_entry_internal`. `ino` 0 asks for a new number; `mem` is what the allocator returned. */
  function CreateEntry<E>(s: Store<E>, parent: E, name: string, dir: bool, ino: nat, mem: Option<E>)
    : (r: (Store<E>, bool))
  {
    if parent !in s.nodes || !s.nodes[parent].dir || Lookup(s, parent, name).Some? then (s, false)
    else
      var number := if ino == 0 then s.nextIno else ino;
      var next := if ino == 0 then s.nextIno + 1 else s.nextIno;
      if mem.None? || mem.value in s.nodes then (s.(nextIno := next), false)
      else
        var e := mem.value;
        var p := s.nodes[parent];
        var p' := p.(children := [e] + p.children, nlink := if dir then p.nlink + 1 else p.nlink);
        (Store(s.root, [e] + s.all, s.nodes[parent := p'][e := Node(name, number, dir, 1, parent, [])], next), true)
  }

  /** `vtfs_storage_delete_entry`: unlink from both lists, then lower the counters of the other names. */
  function DeleteEntry<E>(s: Store<E>, e: E): (Store<E>, Errno)
    requires e in s.nodes
  {
    var n := s.nodes[e];
    if e == s.root then (s, EBUSY)
    else if n.dir && n.children != [] then (s, ENOTEMPTY)
    else (Store(s.root, Remove(s.all, e), map x | x in s.nodes && x != e :: Detached(s, e, x), s.nextIno), OK)
  }

  function Detached<E>(s: Store<E>, e: E, x: E): Node<E>
    requires e in s.nodes && x in s.nodes
  {
    var n, m := s.nodes[e], s.nodes[x];
    var under := if x == n.parent
                 then m.(children := Remove(m.children, e), nlink := if n.dir then m.nlink - 1 else m.nlink)
                 else m;
    if m.ino == n.ino then under.(nlink := under.nlink - 1) else under
  }

  /** `vtfs_storage_add_link`: every name of the inode gets the target's counter plus one. */
  function AddLink<E>(s: Store<E>, target: E): (Store<E>, Errno)
    requires target in s.nodes
  {
    var t := s.nodes[target];
    if t.dir then (s, EPERM)
    else (s.(nodes := map x | x in s.nodes ::
              if s.nodes[x].ino == t.ino then s.nodes[x].(nlink := t.nlink + 1) else s.nodes[x]), OK)
  }

  function SetNlink<E>(s: Store<E>, e: E, n: int): Store<E>
    requires e in s.nodes
  {
    s.(nodes := s.nodes[e := s.nodes[e].(nlink := n)])
  }

  // ---------- The inode operations, one atomic step each ----------

  /** `inodeOk` says whether the VFS inode could be allocated; `remote` is the server's stat answer. */
  datatype Op<E> =
    | Lookup_(parentIno: nat, name: string, mem: Option<E>, remote: Option<bool>)
    | Create(parentIno: nat, name: string, mem: Option<E>, inodeOk: bool)
    | Mkdir(parentIno: nat, name: string, mem: Option<E>, inodeOk: bool)
    | Unlink(parentIno: nat, name: string)
    | Rmdir(parentIno: nat, name: string)
    | Link(targetIno: nat, parentIno: nat, name: string, mem: Option<E>)

  function LookupStep<E>(s: Store<E>, parentIno: nat, name: string, mem: Option<E>, remote: Option<bool>): Store<E> {
    match GetByIno(s, parentIno)
    case None => s
    case Some(parent) =>
      if Lookup(s, parent, name).Some? || remote.None? then s
      else CreateEntry(s, parent, name, remote.value, 0, mem).0
  }

  function CreateStep<E>(s: Store<E>, parentIno: nat, name: string, mem: Option<E>, inodeOk: bool): (Store<E>, Errno) {
    match GetByIno(s, parentIno)
    case None => (s, ENOENT)
    case Some(parent) =>
      var (s1, ok) := CreateEntry(s, parent, name, false, 0, mem);
      if !ok then (s1, EEXIST)
      else if !inodeOk then (DeleteEntry(s1, mem.value).0, ENOMEM)
      else (s1, OK)
  }

  function MkdirStep<E>(s: Store<E>, parentIno: nat, name: string, mem: Option<E>, inodeOk: bool): (Store<E>, Errno) {
    match GetByIno(s, parentIno)
    case None => (s, ENOENT)
    case Some(parent) =>
      var (s1, ok) := CreateEntry(s, parent, name, true, 0, mem);
      if !ok then (s1, EEXIST)
      else
        var s2 := SetNlink(s1, mem.value, 2);
        if !inodeOk then (DeleteEntry(s2, mem.value).0, ENOMEM) else (s2, OK)
  }

  /** The entry that unlink or rmdir would remove. */
  function Victim<E>(s: Store<E>, parentIno: nat, name: string): (r: Option<E>) {
    match GetByIno(s, parentIno)
    case None => None
    case Some(parent) => Lookup(s, parent, name)
  }

  function UnlinkStep<E>(s: Store<E>, parentIno: nat, name: string): (Store<E>, Errno) {
    match Victim(s, parentIno, name)
    case None => (s, ENOENT)
    case Some(child) => if child in s.nodes then DeleteEntry(s, child) else (s, ENOENT)
  }

  function RmdirStep<E>(s: Store<E>, parentIno: nat, name: string): (Store<E>, Errno) {
    match Victim(s, parentIno, name)
    case None => (s, ENOENT)
    case Some(child) =>
      if child !in s.nodes then (s, ENOENT)
      else if !s.nodes[child].dir then (s, ENOTDIR)
      else if s.nodes[child].children != [] then (s, ENOTEMPTY)
      else DeleteEntry(s, child)
  }

  function LinkStep<E>(s: Store<E>, targetIno: nat, parentIno: nat, name: string, mem: Option<E>): (Store<E>, Errno) {
    match GetByIno(s, targetIno)
    case None => (s, ENOENT)
    case Some(target) =>
      if target !in s.nodes then (s, ENOENT)
      else if s.nodes[target].dir then (s, EPERM)
      else
        match GetByIno(s, parentIno)
        case None => (s, ENOENT)
        case Some(parent) =>
          var (s1, ok) := CreateEntry(s, parent, name, false, s.nodes[target].ino, mem);
          if !ok then (s1, EEXIST) else AddLink(s1, target)
  }

  function Step<E>(s: Store<E>, op: Op<E>): Store<E> {
    match op
    case Lookup_(p, n, m, r) => LookupStep(s, p, n, m, r)
    case Create(p, n, m, i) => CreateStep(s, p, n, m, i).0
    case Mkdir(p, n, m, i) => MkdirStep(s, p, n, m, i).0
    case Unlink(p, n) => UnlinkStep(s, p, n).0
    case Rmdir(p, n) => RmdirStep(s, p, n).0
    case Link(t, p, n, m) => LinkStep(s, t, p, n, m).0
  }

  function Run<E>(s: Store<E>, ops: seq<Op<E>>): Store<E>
    decreases |ops|
  {
    if ops == [] then s else Run(Step(s, ops[0]), ops[1..])
  }

  // ---------- Well-formedness ----------

  ghost predicate Listed<E>(s: Store<E>) {
    && NoDup(s.all)
    && (forall e :: e in s.all ==> e in s.nodes)
    && (forall e :: e in s.nodes ==> e in s.all)
  }

  ghost predicate Rooted<E>(s: Store<E>) {
    && s.root in s.nodes && s.nodes[s.root].dir && s.nodes[s.root].ino == ROOT_INO && Up(s, s.root) == s.root
  }

  /** The parent pointer; the invariants below are keyed on it. */
  ghost function Up<E>(s: Store<E>, e: E): E
    requires e in s.nodes
  {
    s.nodes[e].parent
  }

  /** Parents exist, are directories and list each child; nothing else is listed, and nothing twice. */
  ghost predicate Linked<E>(s: Store<E>) {
    && (forall e {:trigger Up(s, e)} :: e in s.nodes ==> Up(s, e) in s.nodes && s.nodes[Up(s, e)].dir)
    && (forall e {:trigger Up(s, e)} :: e in s.nodes && e != s.root ==> e in s.nodes[Up(s, e)].children)
    && (forall d, c {:trigger c in s.nodes[d].children} ::
          d in s.nodes && c in s.nodes[d].children ==> c in s.nodes && c != s.root && Up(s, c) == d)
    && (forall d {:trigger s.nodes[d].children} :: d in s.nodes ==> NoDup(s.nodes[d].children))
  }

  /** Parents are older than their children in the global list, so parent chains end. */
  ghost predicate Ordered<E>(s: Store<E>) {
    forall e {:trigger Up(s, e)} :: e in s.nodes && e != s.root ==>
      Up(s, e) in s.nodes && Rank(s.all, Up(s, e)) < Rank(s.all, e)
  }

  ghost predicate Siblings<E>(s: Store<E>, e: E, f: E)
    requires e in s.nodes && f in s.nodes
  {
    e != s.root && f != s.root && s.nodes[e].parent == s.nodes[f].parent && s.nodes[e].name == s.nodes[f].name
  }

  ghost predicate Named<E>(s: Store<E>) {
    && (forall e {:trigger s.nodes[e].name} :: e in s.nodes && e != s.root ==> IsName(s.nodes[e].name))
    && (forall e, f {:trigger Siblings(s, e, f)} :: e in s.nodes && f in s.nodes && Siblings(s, e, f) ==> e == f)
  }

  ghost predicate Numbered<E>(s: Store<E>) {
    && (forall e {:trigger s.nodes[e].ino} :: e in s.nodes ==> ROOT_INO <= s.nodes[e].ino < s.nextIno)
    && (forall e, f {:trigger s.nodes[e].dir, s.nodes[f].ino} ::
          e in s.nodes && f in s.nodes && s.nodes[e].dir && s.nodes[e].ino == s.nodes[f].ino ==> e == f)
  }

  ghost predicate WellFormed<E>(s: Store<E>) {
    Listed(s) && Rooted(s) && Linked(s) && Ordered(s) && Named(s) && Numbered(s)
  }

  // ---------- Searches ----------

  lemma {:induction false} FindNameFacts<E>(nodes: map<E, Node<E>>, l: seq<E>, name: string)
    ensures var r := FindName(nodes, l, name);
            && (r.Some? ==> r.value in l && r.value in nodes && nodes[r.value].name == name)
            && (r.None? ==> forall c :: c in l && c in nodes ==> nodes[c].name != name)
  {
    if l != [] {
      FindNameFacts(nodes, l[1..], name);
      assert l == [l[0]] + l[1..];
    }
  }

  /** A lookup finds exactly the child with that name. */
  lemma LookupFacts<E>(s: Store<E>, parent: E, name: string)
    requires WellFormed(s) && parent in s.nodes
    ensures var r := Lookup(s, parent, name);
            && (forall e {:trigger s.nodes[e].name} ::
                  e in s.nodes && e != s.root && s.nodes[e].parent == parent && s.nodes[e].name == name ==> r == Some(e))
            && (r.Some? ==> r.value in s.nodes && r.value != s.root
                            && s.nodes[r.value].parent == parent && s.nodes[r.value].name == name)
  {
    FindNameFacts(s.nodes, s.nodes[parent].children, name);
    var r := Lookup(s, parent, name);
    if r.Some? {
      assert Up(s, r.value) == parent;
      forall e | e in s.nodes && e != s.root && s.nodes[e].parent == parent && s.nodes[e].name == name
        ensures r == Some(e)
      {
        assert Siblings(s, e, r.value);
      }
    } else {
      forall e | e in s.nodes && e != s.root && s.nodes[e].parent == parent
        ensures s.nodes[e].name != name
      {
        assert Up(s, e) == parent;
      }
    }
  }

  lemma {:induction false} FindInoFacts<E>(nodes: map<E, Node<E>>, l: seq<E>, ino: nat)
    ensures var r := FindIno(nodes, l, ino);
            && (r.Some? ==> r.value in l && r.value in nodes && nodes[r.value].ino == ino)
            && (forall x :: x in l && x in nodes && nodes[x].ino == ino ==>
                  r.Some? && Rank(l, x) <= Rank(l, r.value))
  {
    if l != [] {
      FindInoFacts(nodes, l[1..], ino);
      assert l == [l[0]] + l[1..];
    }
  }

  /** The first entry with an inode number: present exactly when the number is in use; unique for directories. */
  lemma GetByInoFacts<E>(s: Store<E>, ino: nat)
    requires WellFormed(s)
    ensures var r := GetByIno(s, ino);
            && (r.Some? ==> r.value in s.nodes && s.nodes[r.value].ino == ino)
            && (forall x :: x in s.nodes && s.nodes[x].ino == ino ==> r.Some? && Rank(s.all, x) <= Rank(s.all, r.value))
            && (forall d :: d in s.nodes && s.nodes[d].dir && s.nodes[d].ino == ino ==> r == Some(d))
  {
    FindInoFacts(s.nodes, s.all, ino);
  }

  // ---------- Every step keeps the tree well formed ----------

  lemma FreshIsWellFormed<E>(root: E)
    ensures WellFormed(FreshStore(root))
  {
  }

  /** What no operation ever changes about a live entry. */
  ghost predicate Kept<E>(s: Store<E>, s': Store<E>) {
    && (forall x {:trigger Up(s', x)} :: x in s.nodes && x in s'.nodes ==> Up(s', x) == Up(s, x))
    && (forall x {:trigger s'.nodes[x].name} :: x in s.nodes && x in s'.nodes ==> s'.nodes[x].name == s.nodes[x].name)
    && (forall x {:trigger s'.nodes[x].ino} :: x in s.nodes && x in s'.nodes ==> s'.nodes[x].ino == s.nodes[x].ino)
    && (forall x {:trigger s'.nodes[x].dir} :: x in s.nodes && x in s'.nodes ==> s'.nodes[x].dir == s.nodes[x].dir)
  }

  lemma CreateListed<E>(s: Store<E>, parent: E, name: string, dir: bool, ino: nat, mem: Option<E>)
    requires WellFormed(s) && CreateEntry(s, parent, name, dir, ino, mem).1
    ensures var s' := CreateEntry(s, parent, name, dir, ino, mem).0;
            Listed(s') && Ordered(s') && Rooted(s') && Kept(s, s')
  {
    var e := mem.value;
    var s' := CreateEntry(s, parent, name, dir, ino, mem).0;
    assert e !in s.all;
    forall x {:trigger Up(s', x)} | x in s'.nodes
      ensures x in s'.all
      ensures x in s.nodes ==> Up(s', x) == Up(s, x)
      ensures x != s'.root ==> Up(s', x) in s.nodes && Rank(s'.all, Up(s', x)) < Rank(s'.all, x)
    {
      assert x in [e] + s.all <==> x == e || x in s.all;
      if x in s.nodes { assert Up(s', x) == Up(s, x); }
      RankOfCons(e, s.all, x);
      RankOfCons(e, s.all, Up(s', x));
    }
  }

  lemma CreateLinked<E>(s: Store<E>, parent: E, name: string, dir: bool, ino: nat, mem: Option<E>)
    requires WellFormed(s) && CreateEntry(s, parent, name, dir, ino, mem).1
    requires Kept(s, CreateEntry(s, parent, name, dir, ino, mem).0)
    ensures Linked(CreateEntry(s, parent, name, dir, ino, mem).0)
  {
    var e := mem.value;
    var s' := CreateEntry(s, parent, name, dir, ino, mem).0;
    var l := s.nodes[parent].children;
    assert e !in l;
    assert s'.nodes[parent].children == [e] + l;
    forall d {:trigger s'.nodes[d].children} | d in s'.nodes
      ensures NoDup(s'.nodes[d].children)
      ensures forall c :: c in s'.nodes[d].children <==> (c == e && d == parent) || (d in s.nodes && c in s.nodes[d].children)
    {
      assert forall x :: x in [e] + l <==> x == e || x in l;
      if d == parent { assert NoDup(l); assert NoDup([e] + l); }
    }
    forall x {:trigger Up(s', x)} | x in s'.nodes
      ensures Up(s', x) in s'.nodes && s'.nodes[Up(s', x)].dir
      ensures x != s'.root ==> x in s'.nodes[Up(s', x)].children
    {
      if x == e { assert Up(s', x) == parent; } else { assert Up(s', x) == Up(s, x); }
    }
    forall d, c {:trigger c in s'.nodes[d].children} | d in s'.nodes && c in s'.nodes[d].children
      ensures c in s'.nodes && c != s'.root && Up(s', c) == d
    {
      if c != e { assert Up(s', c) == Up(s, c); }
    }
  }

  lemma CreateWellFormed<E>(s: Store<E>, parent: E, name: string, dir: bool, ino: nat, mem: Option<E>)
    requires WellFormed(s) && IsName(name)
    requires ino == 0 || (!dir && ROOT_INO <= ino < s.nextIno
                          && forall x :: x in s.nodes && s.nodes[x].ino == ino ==> !s.nodes[x].dir)
    ensures WellFormed(CreateEntry(s, parent, name, dir, ino, mem).0)
  {
    hide Listed, Rooted, Linked, Ordered, Named;
    var (s', ok) := CreateEntry(s, parent, name, dir, ino, mem);
    if ok {
      CreateListed(s, parent, name, dir, ino, mem);
      CreateLinked(s, parent, name, dir, ino, mem);
      CreateNamed(s, parent, name, dir, ino, mem);
    } else {
      SameShapeWellFormed(s, s');
    }
  }

  lemma CreateNamed<E>(s: Store<E>, parent: E, name: string, dir: bool, ino: nat, mem: Option<E>)
    requires WellFormed(s) && IsName(name) && CreateEntry(s, parent, name, dir, ino, mem).1
    requires Kept(s, CreateEntry(s, parent, name, dir, ino, mem).0)
    ensures Named(CreateEntry(s, parent, name, dir, ino, mem).0)
  {
    var s' := CreateEntry(s, parent, name, dir, ino, mem).0;
    assert Lookup(s, parent, name).None?;
    LookupFacts(s, parent, name);
    forall x {:trigger s'.nodes[x].name} | x in s'.nodes && x != s'.root ensures IsName(s'.nodes[x].name) {
      if x in s.nodes { assert s'.nodes[x].name == s.nodes[x].name; }
    }
    forall x, y {:trigger Siblings(s', x, y)} | x in s'.nodes && y in s'.nodes && Siblings(s', x, y) ensures x == y {
      assert Up(s', x) == Up(s', y);
      if x in s.nodes && y in s.nodes { assert Siblings(s, x, y); }
    }
  }

  lemma DeleteKept<E>(s: Store<E>, e: E)
    requires WellFormed(s) && e in s.nodes && DeleteEntry(s, e).1 == OK && s.nodes[e].children == []
    ensures Kept(s, DeleteEntry(s, e).0)
    ensures forall x {:trigger Up(s, x)} :: x in s.nodes && x != e ==> Up(s, x) != e
  {
    var s' := DeleteEntry(s, e).0;
    forall x {:trigger Up(s', x)} {:trigger Up(s, x)} | x in s'.nodes ensures Up(s', x) == Up(s, x) != e {
      assert x != s.root ==> x in s.nodes[Up(s, x)].children;
    }
  }

  /** A directory's list loses the deleted entry and nothing else. */
  lemma DeleteChildren<E>(s: Store<E>, e: E, d: E)
    requires WellFormed(s) && e in s.nodes && DeleteEntry(s, e).1 == OK && d in s.nodes && d != e
    ensures var s' := DeleteEntry(s, e).0;
            && d in s'.nodes && NoDup(s'.nodes[d].children)
            && forall c {:trigger c in s'.nodes[d].children} {:trigger c in s.nodes[d].children} ::
                 c in s'.nodes[d].children <==> c in s.nodes[d].children && c != e
  {
    RemoveFacts(s.nodes[d].children, e);
    assert e in s.nodes[d].children ==> Up(s, e) == d;
  }

  lemma DeleteLinked<E>(s: Store<E>, e: E)
    requires WellFormed(s) && e in s.nodes && DeleteEntry(s, e).1 == OK && s.nodes[e].children == []
    ensures var s' := DeleteEntry(s, e).0; Kept(s, s') && Linked(s')
    ensures forall x {:trigger Up(s, x)} :: x in s.nodes && x != e ==> Up(s, x) != e
  {
    hide NoDup, Remove, Detached, Named, Ordered, Numbered;
    var s' := DeleteEntry(s, e).0;
    DeleteKept(s, e);
    forall d {:trigger s'.nodes[d].children} | d in s'.nodes
      ensures NoDup(s'.nodes[d].children)
      ensures forall c :: c in s'.nodes[d].children <==> c in s.nodes[d].children && c != e
    {
      DeleteChildren(s, e, d);
    }
    forall x {:trigger Up(s', x)} | x in s'.nodes
      ensures Up(s', x) in s'.nodes && s'.nodes[Up(s', x)].dir
      ensures x != s'.root ==> x in s'.nodes[Up(s', x)].children
    {
      assert Up(s', x) == Up(s, x) && Up(s, x) in s.nodes;
      assert s'.nodes[Up(s, x)].dir == s.nodes[Up(s, x)].dir;
    }
    forall d, c {:trigger c in s'.nodes[d].children} | d in s'.nodes && c in s'.nodes[d].children
      ensures c in s'.nodes && c != s'.root && Up(s', c) == d
    {
      assert Up(s', c) == Up(s, c);
    }
  }

  lemma DeleteListed<E>(s: Store<E>, e: E)
    requires Listed(s) && e in s.nodes && DeleteEntry(s, e).1 == OK
    ensures Listed(DeleteEntry(s, e).0)
  {
    RemoveFacts(s.all, e);
    var s' := DeleteEntry(s, e).0;
    assert s'.nodes.Keys == s.nodes.Keys - {e};
    assert s'.all == Remove(s.all, e);
  }

  lemma DeleteOrdered<E>(s: Store<E>, e: E)
    requires WellFormed(s) && e in s.nodes && DeleteEntry(s, e).1 == OK && s.nodes[e].children == []
    ensures var s' := DeleteEntry(s, e).0; Ordered(s') && Named(s')
  {
    var s' := DeleteEntry(s, e).0;
    DeleteLinked(s, e);
    forall x {:trigger Up(s', x)} | x in s'.nodes && x != s'.root
      ensures Up(s', x) in s'.nodes && Rank(s'.all, Up(s', x)) < Rank(s'.all, x)
    {
      assert Up(s', x) == Up(s, x) != e;
      RemoveKeepsOrder(s.all, e, Up(s, x), x);
    }
    forall x, y {:trigger Siblings(s', x, y)} | x in s'.nodes && y in s'.nodes && Siblings(s', x, y) ensures x == y {
      assert Siblings(s, x, y);
    }
  }

  lemma DeleteWellFormed<E>(s: Store<E>, e: E)
    requires WellFormed(s) && e in s.nodes
    ensures WellFormed(DeleteEntry(s, e).0)
  {
    if DeleteEntry(s, e).1 == OK {
      if s.nodes[e].children != [] { ParentsAreDirectories(s, e); }
      DeleteListed(s, e);
      DeleteLinked(s, e);
      DeleteOrdered(s, e);
    }
  }

  /** Only directories have children. */
  lemma ParentsAreDirectories<E>(s: Store<E>, e: E)
    requires WellFormed(s) && e in s.nodes && s.nodes[e].children != []
    ensures s.nodes[e].dir
  {
    var c := s.nodes[e].children[0];
    assert c in s.nodes[e].children;
    assert Up(s, c) == e;
  }

  lemma SetNlinkWellFormed<E>(s: Store<E>, e: E, n: int)
    requires WellFormed(s) && e in s.nodes
    ensures WellFormed(SetNlink(s, e, n))
  {
    SameShapeWellFormed(s, SetNlink(s, e, n));
  }

  lemma AddLinkKept<E>(t: Store<E>, target: E)
    requires target in t.nodes
    ensures var t' := AddLink(t, target).0;
            Kept(t, t') && Kept(t', t) && t'.root == t.root && t'.nodes.Keys == t.nodes.Keys
  {
  }

  lemma AddLinkWellFormed<E>(s: Store<E>, e: E)
    requires WellFormed(s) && e in s.nodes
    ensures WellFormed(AddLink(s, e).0)
  {
    SameShapeWellFormed(s, AddLink(s, e).0);
  }

  lemma SameShapeWellFormed<E>(s: Store<E>, s': Store<E>)
    requires WellFormed(s) && s'.root == s.root && s'.all == s.all && s.nextIno <= s'.nextIno
    requires s'.nodes.Keys == s.nodes.Keys && Kept(s, s')
    requires forall x {:trigger s'.nodes[x].children} :: x in s.nodes ==> s'.nodes[x].children == s.nodes[x].children
    ensures WellFormed(s')
  {
    forall x {:trigger Up(s', x)} | x in s'.nodes
      ensures Up(s', x) == Up(s, x) && Up(s, x) in s'.nodes && s'.nodes[Up(s', x)].dir
      ensures x != s'.root ==> x in s'.nodes[Up(s', x)].children
    {
      assert s'.nodes[Up(s, x)].dir == s.nodes[Up(s, x)].dir;
      assert s'.nodes[Up(s, x)].children == s.nodes[Up(s, x)].children;
    }
    forall x, y {:trigger Siblings(s', x, y)} | x in s'.nodes && y in s'.nodes && Siblings(s', x, y) ensures x == y {
      assert Up(s', x) == Up(s', y);
      assert Siblings(s, x, y);
    }
    forall d, c {:trigger c in s'.nodes[d].children} | d in s'.nodes && c in s'.nodes[d].children
      ensures c in s'.nodes && c != s'.root && Up(s', c) == d
    {
      assert Up(s', c) == Up(s, c);
    }
  }

  ghost predicate NamesValid<E>(op: Op<E>) {
    (op.Lookup_? || op.Create? || op.Mkdir? || op.Link?) ==> IsName(op.name)
  }

  lemma StepWellFormed<E>(s: Store<E>, op: Op<E>)
    requires WellFormed(s) && NamesValid(op)
    ensures WellFormed(Step(s, op))
  {
    match op
    case Lookup_(p, n, m, r) =>
      GetByInoFacts(s, p);
      if GetByIno(s, p).Some? && r.Some? { CreateWellFormed(s, GetByIno(s, p).value, n, r.value, 0, m); }
    case Create(p, n, m, i) => CreateStepWellFormed(s, p, n, m, i);
    case Mkdir(p, n, m, i) => MkdirStepWellFormed(s, p, n, m, i);
    case Unlink(p, n) => VictimDeleted(s, p, n);
    case Rmdir(p, n) => VictimDeleted(s, p, n);
    case Link(t, p, n, m) => LinkStepWellFormed(s, t, p, n, m);
  }

  lemma CreateStepWellFormed<E>(s: Store<E>, p: nat, n: string, m: Option<E>, i: bool)
    requires WellFormed(s) && IsName(n)
    ensures WellFormed(CreateStep(s, p, n, m, i).0)
  {
    GetByInoFacts(s, p);
    if GetByIno(s, p).Some? {
      var parent := GetByIno(s, p).value;
      CreateWellFormed(s, parent, n, false, 0, m);
      var (s1, ok) := CreateEntry(s, parent, n, false, 0, m);
      if ok { DeleteWellFormed(s1, m.value); }
    }
  }

  lemma MkdirStepWellFormed<E>(s: Store<E>, p: nat, n: string, m: Option<E>, i: bool)
    requires WellFormed(s) && IsName(n)
    ensures WellFormed(MkdirStep(s, p, n, m, i).0)
  {
    GetByInoFacts(s, p);
    if GetByIno(s, p).Some? {
      var parent := GetByIno(s, p).value;
      CreateWellFormed(s, parent, n, true, 0, m);
      var (s1, ok) := CreateEntry(s, parent, n, true, 0, m);
      if ok {
        var s2 := SetNlink(s1, m.value, 2);
        SetNlinkWellFormed(s1, m.value, 2);
        DeleteWellFormed(s2, m.value);
      }
    }
  }

  lemma LinkStepWellFormed<E>(s: Store<E>, t: nat, p: nat, n: string, m: Option<E>)
    requires WellFormed(s) && IsName(n)
    ensures WellFormed(LinkStep(s, t, p, n, m).0)
  {
    hide Listed, Rooted, Linked, Ordered, Named, GetByIno;
    GetByInoFacts(s, t);
    GetByInoFacts(s, p);
    if GetByIno(s, t).Some? && !s.nodes[GetByIno(s, t).value].dir && GetByIno(s, p).Some? {
      var target, parent := GetByIno(s, t).value, GetByIno(s, p).value;
      CreateWellFormed(s, parent, n, false, s.nodes[target].ino, m);
      var (s1, ok) := CreateEntry(s, parent, n, false, s.nodes[target].ino, m);
      if ok { AddLinkWellFormed(s1, target); }
    }
  }

  lemma VictimDeleted<E>(s: Store<E>, p: nat, n: string)
    requires WellFormed(s)
    ensures var v := Victim(s, p, n);
            v.Some? ==> v.value in s.nodes && v.value != s.root && WellFormed(DeleteEntry(s, v.value).0)
  {
    GetByInoFacts(s, p);
    if GetByIno(s, p).Some? {
      LookupFacts(s, GetByIno(s, p).value, n);
      var v := Victim(s, p, n);
      if v.Some? {
        DeleteWellFormed(s, v.value);
      }
    }
  }

  /** Every reachable tree is well formed. */
  lemma {:induction false} ReachableWellFormed<E>(s: Store<E>, ops: seq<Op<E>>)
    requires WellFormed(s) && forall i :: 0 <= i < |ops| ==> NamesValid(ops[i])
    ensures WellFormed(Run(s, ops))
    decreases |ops|
  {
    if ops != [] {
      StepWellFormed(s, ops[0]);
      ReachableWellFormed(Step(s, ops[0]), ops[1..]);
    }
  }
}
