/** Resumable enumeration by position (module/dir_ops.c). */
module Readdir {
  import opened Lists

  datatype Kind = DT_DIR | DT_REG

  datatype Dirent = Dirent(name: string, ino: nat, kind: Kind)

  /** `dir_context`: accepts `room` more entries and then refuses. */
  class DirContext {
    var pos: nat
    var emitted: seq<Dirent>
    var room: nat

    constructor (pos: nat, room: nat)
      ensures this.pos == pos && this.room == room && emitted == []
    {
      this.pos, this.room, emitted := pos, room, [];
    }

    method Emit(d: Dirent) returns (ok: bool)
      modifies this
      ensures pos == old(pos) && ok == (old(room) > 0)
      ensures emitted == if ok then old(emitted) + [d] else old(emitted)
      ensures room == if ok then old(room) - 1 else 0
    {
      ok := room > 0;
      if ok {
        emitted := emitted + [d];
        room := room - 1;
      }
    }
  }

  function Dots(self: nat, up: nat): seq<Dirent> {
    [Dirent(".", self, DT_DIR), Dirent("..", up, DT_DIR)]
  }

  /** What a directory enumerates, in order. */
  function Listing(self: nat, up: nat, children: seq<Dirent>): seq<Dirent> {
    Dots(self, up) + children
  }

  /** How many entries one call emits. */
  function Batch(list: seq<Dirent>, pos: nat, room: nat): (n: nat)
    ensures n <= room && (n > 0 ==> pos + n <= |list|)
  {
    if pos + room <= |list| then room else if pos <= |list| then |list| - pos else 0
  }

  /** The entries one call emits. */
  function Emitted(list: seq<Dirent>, pos: nat, room: nat): (r: seq<Dirent>)
    ensures |r| == Batch(list, pos, room)
  {
    var n := Batch(list, pos, room);
    if n == 0 then [] else list[pos..pos + n]
  }

  /** The loop over the children: counts `offset` down to 2 before it emits. */
  method EmitChildren(ctx: DirContext, children: seq<Dirent>, start: nat) returns (stored: nat)
    requires start == ctx.pos >= 2
    modifies ctx
    ensures stored == Batch(children, start - 2, old(ctx.room))
    ensures ctx.pos == start + stored && ctx.room == old(ctx.room) - stored
    ensures ctx.emitted == old(ctx.emitted) + Emitted(children, start - 2, old(ctx.room))
  {
    var offset := start;
    stored := 0;
    for i := 0 to |children|
      invariant offset >= 2 && ctx.pos == start + stored && ctx.room + stored == old(ctx.room)
      invariant if offset > 2 then stored == 0 && offset == start - i else ctx.pos == i + 2
      invariant start - 2 + stored <= |children| || stored == 0
      invariant ctx.emitted == old(ctx.emitted) + if stored == 0 then [] else children[start - 2..start - 2 + stored]
    {
      if offset > 2 {
        offset := offset - 1;
        continue;
      }
      var ok := ctx.Emit(children[i]);
      if !ok { return; }
      ctx.pos, stored := ctx.pos + 1, stored + 1;
    }
  }

  /** The two leading branches; `ok` says that none was refused. */
  method EmitDots(ctx: DirContext, self: nat, up: nat) returns (stored: nat, ok: bool)
    modifies ctx
    ensures stored == Batch(Dots(self, up), old(ctx.pos), old(ctx.room))
    ensures ctx.pos == old(ctx.pos) + stored && ctx.room == old(ctx.room) - stored
    ensures ctx.emitted == old(ctx.emitted) + Emitted(Dots(self, up), old(ctx.pos), old(ctx.room))
    ensures ok <==> ctx.pos >= 2
  {
    stored, ok := 0, true;
    if ctx.pos == 0 {
      ok := ctx.Emit(Dirent(".", self, DT_DIR));
      if !ok { return; }
      ctx.pos, stored := ctx.pos + 1, stored + 1;
    }
    if ctx.pos == 1 {
      ok := ctx.Emit(Dirent("..", up, DT_DIR));
      if !ok { return; }
      ctx.pos, stored := ctx.pos + 1, stored + 1;
    }
  }

  /** `vtfs_iterate` past its checks: emits the listing from the position on until refused, and moves the
      position by what was accepted. */
  method Iterate(ctx: DirContext, self: nat, up: nat, children: seq<Dirent>) returns (stored: nat)
    modifies ctx
    ensures stored == Batch(Listing(self, up, children), old(ctx.pos), old(ctx.room))
    ensures ctx.pos == old(ctx.pos) + stored && ctx.room == old(ctx.room) - stored
    ensures ctx.emitted == old(ctx.emitted) + Emitted(Listing(self, up, children), old(ctx.pos), old(ctx.room))
  {
    hide Emitted, Batch;
    ghost var start, room := ctx.pos, ctx.room;
    var dots, ok := EmitDots(ctx, self, up);
    stored := dots;
    ListingParts(self, up, children, start, room);
    if !ok { return; }
    var more := EmitChildren(ctx, children, ctx.pos);
    stored := stored + more;
  }

  /** A call's batch is its dots and then, if it gets past them, its children. */
  lemma ListingParts(self: nat, up: nat, children: seq<Dirent>, start: nat, room: nat)
    ensures var list, dots := Listing(self, up, children), Dots(self, up);
            var n := Batch(dots, start, room);
            && n <= room
            && if start + n < 2 then Batch(list, start, room) == n && Emitted(list, start, room) == Emitted(dots, start, room)
               else && Batch(list, start, room) == n + Batch(children, start + n - 2, room - n)
                    && Emitted(list, start, room) == Emitted(dots, start, room) + Emitted(children, start + n - 2, room - n)
  {
    BatchParts(self, up, children, start, room);
    hide Batch, Listing, Dots, Emitted;
    var list, dots := Listing(self, up, children), Dots(self, up);
    var n := Batch(dots, start, room);
    var l := Emitted(list, start, room);
    if start + n < 2 {
      forall k | 0 <= k < |l| ensures l[k] == Emitted(dots, start, room)[k] { PartAt(self, up, children, start, room, k); }
      assert l == Emitted(dots, start, room);
    } else {
      var r := Emitted(dots, start, room) + Emitted(children, start + n - 2, room - n);
      forall k | 0 <= k < |l| ensures l[k] == r[k] { PartAt(self, up, children, start, room, k); }
      assert l == r;
    }
  }

  /** The k-th entry of a batch, from the dots or from the children. */
  lemma PartAt(self: nat, up: nat, children: seq<Dirent>, start: nat, room: nat, k: nat)
    requires k < Batch(Listing(self, up, children), start, room)
    ensures var n := Batch(Dots(self, up), start, room);
            var e := Emitted(Listing(self, up, children), start, room)[k];
            && n <= room
            && (k < n ==> e == Emitted(Dots(self, up), start, room)[k])
            && (k >= n ==> start + n >= 2 && k - n < Batch(children, start + n - 2, room - n)
                           && e == Emitted(children, start + n - 2, room - n)[k - n])
  {
    hide Batch, Listing, Dots;
    BatchParts(self, up, children, start, room);
    ListingAt(self, up, children, start + k);
  }

  lemma ListingAt(self: nat, up: nat, children: seq<Dirent>, k: nat)
    ensures |Listing(self, up, children)| == |children| + 2 && |Dots(self, up)| == 2
    ensures k < 2 ==> Listing(self, up, children)[k] == Dots(self, up)[k]
    ensures 2 <= k < |children| + 2 ==> Listing(self, up, children)[k] == children[k - 2]
  {
  }

  lemma BatchParts(self: nat, up: nat, children: seq<Dirent>, start: nat, room: nat)
    ensures var n := Batch(Dots(self, up), start, room);
            && n <= room
            && Batch(Listing(self, up, children), start, room) ==
               if start + n < 2 then n else n + Batch(children, start + n - 2, room - n)
  {
  }

  // ---------- Sequences of calls, with changes in between ----------

  datatype Event =
    | Call(room: nat)
    | Insert(child: Dirent)
    | Remove(index: nat)

  /** `added` collects the children that were created during the enumeration. */
  datatype Scan = Scan(children: seq<Dirent>, pos: nat, emitted: seq<Dirent>, added: set<Dirent>)

  function Next(s: Scan, self: nat, up: nat, e: Event): Scan {
    match e
    case Call(room) =>
      var list := Listing(self, up, s.children);
      s.(pos := s.pos + Batch(list, s.pos, room), emitted := s.emitted + Emitted(list, s.pos, room))
    case Insert(c) => s.(children := [c] + s.children, added := s.added + {c})
    case Remove(k) =>
      if k < |s.children| then s.(children := s.children[..k] + s.children[k + 1..]) else s
  }

  function Scans(s: Scan, self: nat, up: nat, es: seq<Event>): Scan
    decreases |es|
  {
    if es == [] then s else Scans(Next(s, self, up, es[0]), self, up, es[1..])
  }

  /** A call that comes back with room left has not been refused. */
  predicate Unrefused(s: Scan, self: nat, up: nat, room: nat) {
    Batch(Listing(self, up, s.children), s.pos, room) < room
  }

  predicate HasUnrefused(s: Scan, self: nat, up: nat, es: seq<Event>)
    decreases |es|
  {
    es != [] && ((es[0].Call? && Unrefused(s, self, up, es[0].room))
                 || HasUnrefused(Next(s, self, up, es[0]), self, up, es[1..]))
  }

  /** What the callers of a run have room for in all. */
  function Rooms(es: seq<Event>): nat
    decreases |es|
  {
    if es == [] then 0 else (if es[0].Call? then es[0].room else 0) + Rooms(es[1..])
  }

  /** An unchanged directory: calls of any sizes emit the listing in order, each entry once, as far as their rooms
      add up; the listing is complete as soon as one of them is not refused. */
  lemma {:induction false} UnchangedDirectory(s: Scan, self: nat, up: nat, es: seq<Event>)
    requires forall k :: 0 <= k < |es| ==> es[k].Call?
    requires s.pos <= |s.children| + 2 && s.emitted == Listing(self, up, s.children)[..s.pos]
    ensures var r := Scans(s, self, up, es);
            && r.children == s.children
            && r.pos == (if s.pos + Rooms(es) <= |s.children| + 2 then s.pos + Rooms(es) else |s.children| + 2)
            && r.emitted == Listing(self, up, s.children)[..r.pos]
            && (HasUnrefused(s, self, up, es) ==> r.emitted == Listing(self, up, s.children))
    decreases |es|
  {
    var list := Listing(self, up, s.children);
    assert list[..|list|] == list;
    if es != [] {
      var t := Next(s, self, up, es[0]);
      assert t.emitted == list[..t.pos];
      UnchangedDirectory(t, self, up, es[1..]);
    }
  }

  /** Every child before the position has been emitted or is new. */
  ghost predicate Covered(s: Scan) {
    forall k :: 0 <= k < |s.children| && k + 2 < s.pos ==> s.children[k] in s.emitted || s.children[k] in s.added
  }

  lemma CallCovered(s: Scan, self: nat, up: nat, room: nat)
    requires Covered(s)
    ensures Covered(Next(s, self, up, Call(room)))
  {
    var list := Listing(self, up, s.children);
    var t := Next(s, self, up, Call(room));
    forall k | 0 <= k < |s.children| && k + 2 < t.pos
      ensures s.children[k] in t.emitted || s.children[k] in s.added
    {
      if k + 2 >= s.pos {
        assert list[k + 2] == s.children[k] && Emitted(list, s.pos, room)[k + 2 - s.pos] == list[k + 2];
      }
    }
  }

  lemma InsertCovered(s: Scan, self: nat, up: nat, c: Dirent)
    requires Covered(s)
    ensures Covered(Next(s, self, up, Insert(c)))
  {
    var t := Next(s, self, up, Insert(c));
    forall k | 0 <= k < |t.children| && k + 2 < s.pos
      ensures t.children[k] in s.emitted || t.children[k] in t.added
    {
      if k > 0 { assert t.children[k] == s.children[k - 1]; }
    }
  }

  /** Removing a child loses nothing exactly when the scan has not passed it, or no unseen child slides over the
      position. */
  lemma RemoveCovered(s: Scan, self: nat, up: nat, j: nat)
    requires Covered(s) && j < |s.children|
    ensures Covered(Next(s, self, up, Remove(j))) <==>
            || j + 2 >= s.pos
            || s.pos - 2 >= |s.children|
            || s.children[s.pos - 2] in s.emitted || s.children[s.pos - 2] in s.added
  {
    var t := Next(s, self, up, Remove(j));
    forall k | 0 <= k < |t.children| ensures t.children[k] == s.children[if k < j then k else k + 1] {
    }
    if j + 2 < s.pos && s.pos - 2 < |s.children| {
      assert t.children[s.pos - 3] == s.children[s.pos - 2];
    }
  }

  /** The guard for removals during an enumeration: only children the scan has not passed yet. */
  predicate Ahead(s: Scan, e: Event) {
    e.Remove? ==> e.index + 2 >= s.pos
  }

  predicate AllAhead(s: Scan, self: nat, up: nat, es: seq<Event>)
    decreases |es|
  {
    es == [] || (Ahead(s, es[0]) && AllAhead(Next(s, self, up, es[0]), self, up, es[1..]))
  }

  lemma {:induction false} ScanCovers(s: Scan, self: nat, up: nat, es: seq<Event>)
    requires Covered(s) && AllAhead(s, self, up, es)
    ensures Covered(Scans(s, self, up, es))
    decreases |es|
  {
    if es != [] {
      match es[0] {
        case Call(room) => CallCovered(s, self, up, room);
        case Insert(c) => InsertCovered(s, self, up, c);
        case Remove(k) => if k < |s.children| { RemoveCovered(s, self, up, k); }
      }
      ScanCovers(Next(s, self, up, es[0]), self, up, es[1..]);
    }
  }

  /** A changing directory: whatever is created between calls, and whatever is removed ahead of the scan, once a
      call has not been refused every child that was there from start to end has been shown. */
  lemma NothingMissed(children: seq<Dirent>, self: nat, up: nat, es: seq<Event>, room: nat)
    requires AllAhead(Scan(children, 0, [], {}), self, up, es)
    ensures var r := Scans(Scan(children, 0, [], {}), self, up, es);
            var last := Next(r, self, up, Call(room));
            Unrefused(r, self, up, room) ==>
              forall c :: c in children && c in r.children && c !in r.added ==> c in last.emitted
  {
    var s := Scan(children, 0, [], {});
    ScanCovers(s, self, up, es);
    var r := Scans(s, self, up, es);
    CallCovered(r, self, up, room);
    var last := Next(r, self, up, Call(room));
    if Unrefused(r, self, up, room) {
      forall c | c in children && c in r.children && c !in r.added ensures c in last.emitted {
        var k :| 0 <= k < |r.children| && r.children[k] == c;
        assert k + 2 < last.pos;
      }
    }
  }

  /** Without the guard the claim fails: removing a child already shown hides the next one. */
  lemma RemovalHidesChild(a: Dirent, b: Dirent, self: nat, up: nat)
    requires a != b && b.name != "." && b.name != ".."
    ensures var s := Scan([a, b], 0, [], {});
            var r := Scans(s, self, up, [Call(3), Remove(0), Call(9)]);
            b in r.children && b !in r.emitted
  {
    var s := Scan([a, b], 0, [], {});
    var l := Listing(self, up, [a, b]);
    var s1 := Next(s, self, up, Call(3));
    assert l[0..3] == [l[0], l[1], a];
    var s2 := Next(s1, self, up, Remove(0));
    assert s2.children == [b];
    var s3 := Next(s2, self, up, Call(9));
    assert s3 == s2;
    var es := [Call(3), Remove(0), Call(9)];
    assert es[1..] == [Remove(0), Call(9)] && es[1..][1..] == [Call(9)] && es[1..][1..][1..] == [];
    assert Scans(s2, self, up, es[1..][1..]) == Scans(s3, self, up, []);
    assert Scans(s1, self, up, es[1..]) == s3;
  }
}
