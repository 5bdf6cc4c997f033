/** Absolute path strings: how both sides spell a list of components, and how the server normalises
    and takes parents. */
module Paths {

  /** What a directory entry may be called: VFS names, and the server's components after normalisation. */
  predicate IsName(n: string) {
    n != "" && '/' !in n && n != "." && n != ".."
  }

  predicate AreNames(cs: seq<string>) {
    forall i :: 0 <= i < |cs| ==> IsName(cs[i])
  }

  function Joined(cs: seq<string>): string {
    if cs == [] then "" else Joined(cs[..|cs| - 1]) + "/" + cs[|cs| - 1]
  }

  /** The canonical absolute path of a list of components. */
  function Render(cs: seq<string>): string {
    if cs == [] then "/" else Joined(cs)
  }

  /** The pieces between slashes, left to right; a leading slash gives a leading empty piece. */
  function Segments(p: string): (r: seq<string>)
    ensures |r| > 0
  {
    if p == "" then [""]
    else
      var r := Segments(p[..|p| - 1]);
      var c := p[|p| - 1];
      if c == '/' then r + [""] else r[..|r| - 1] + [r[|r| - 1] + [c]]
  }

  /** Absolute normalisation as a component stack: "" and "." vanish, ".." pops (and stays at the root). */
  function Stack(segs: seq<string>): seq<string> {
    if segs == [] then []
    else
      var below := Stack(segs[..|segs| - 1]);
      var s := segs[|segs| - 1];
      if s == "" || s == "." then below
      else if s == ".." then (if below == [] then [] else below[..|below| - 1])
      else below + [s]
  }

  function Components(p: string): seq<string> {
    Stack(Segments(p))
  }

  predicate IsAbsolute(p: string) {
    p == "" || p[0] == '/'
  }

  /** `normalizePath` on the absolute paths the kernel client sends. */
  function NormalizePath(p: string): string {
    Render(Components(p))
  }

  function LastSlash(p: string): (i: nat)
    ensures i <= |p|
    ensures i < |p| ==> p[i] == '/'
  {
    if p == "" then 0 else if p[|p| - 1] == '/' then |p| - 1
    else
      var i := LastSlash(p[..|p| - 1]);
      if i == |p| - 1 then |p| else i
  }

  /** `getParentPath` of a normalised path: the root is its own parent. */
  function ParentPath(p: string): string {
    if p == "/" then "/"
    else
      var i := LastSlash(p);
      if i == 0 || i == |p| then "/" else p[..i]
  }

  ghost predicate IsNormal(p: string) {
    exists cs :: AreNames(cs) && p == Render(cs)
  }

  // ---------- Normalisation and rendering ----------

  lemma {:induction false} SegmentsAppend(q: string, n: string)
    requires '/' !in n
    ensures Segments(q + "/" + n) == Segments(q) + [n]
  {
    var p := q + "/" + n;
    if n == "" {
      assert p == q + ['/'] && p[..|p| - 1] == q;
    } else {
      var m := n[..|n| - 1];
      assert p[..|p| - 1] == q + "/" + m;
      assert p[|p| - 1] == n[|n| - 1] && n == m + [n[|n| - 1]];
      SegmentsAppend(q, m);
      var r := Segments(q) + [m];
      assert r[..|r| - 1] == Segments(q);
    }
  }

  lemma {:induction false} SegmentsOfJoined(cs: seq<string>)
    requires AreNames(cs)
    ensures Segments(Joined(cs)) == [""] + cs
  {
    if cs != [] {
      var l := cs[..|cs| - 1];
      SegmentsOfJoined(l);
      SegmentsAppend(Joined(l), cs[|cs| - 1]);
      assert [""] + cs == [""] + l + [cs[|cs| - 1]];
    }
  }

  lemma {:induction false} StackOfNames(cs: seq<string>)
    requires AreNames(cs)
    ensures Stack([""] + cs) == cs
  {
    var s := [""] + cs;
    if cs == [] {
      assert s[..0] == [];
    } else {
      var l := cs[..|cs| - 1];
      assert s[..|s| - 1] == [""] + l;
      StackOfNames(l);
    }
  }

  /** Rendering loses nothing: the components come back. */
  lemma ComponentsOfRender(cs: seq<string>)
    requires AreNames(cs)
    ensures Components(Render(cs)) == cs
  {
    if cs == [] {
      SegmentsAppend("", "");
      assert "" + "/" + "" == "/";
      var s: seq<string> := ["", ""];
      assert s[..1] == [""] && [""][..0] == [];
      assert Stack([""]) == [];
    } else {
      SegmentsOfJoined(cs);
      StackOfNames(cs);
    }
  }

  lemma RenderInjective(a: seq<string>, b: seq<string>)
    requires AreNames(a) && AreNames(b)
    ensures Render(a) == Render(b) <==> a == b
  {
    ComponentsOfRender(a);
    ComponentsOfRender(b);
  }

  lemma {:induction false} SegmentsAreSlashFree(p: string)
    ensures forall i :: 0 <= i < |Segments(p)| ==> '/' !in Segments(p)[i]
  {
    if p != "" {
      SegmentsAreSlashFree(p[..|p| - 1]);
    }
  }

  lemma {:induction false} StackGivesNames(segs: seq<string>)
    requires forall i :: 0 <= i < |segs| ==> '/' !in segs[i]
    ensures AreNames(Stack(segs))
  {
    if segs != [] {
      StackGivesNames(segs[..|segs| - 1]);
    }
  }

  /** Every path normalises to a canonical spelling, and canonical spellings are fixed points. */
  lemma NormalizeIsCanonical(p: string)
    ensures AreNames(Components(p)) && IsNormal(NormalizePath(p))
    ensures NormalizePath(NormalizePath(p)) == NormalizePath(p)
    ensures IsNormal(p) <==> NormalizePath(p) == p
  {
    SegmentsAreSlashFree(p);
    StackGivesNames(Segments(p));
    ComponentsOfRender(Components(p));
    if IsNormal(p) {
      var cs :| AreNames(cs) && p == Render(cs);
      ComponentsOfRender(cs);
    }
  }

  /** Normalisation piece by piece: a name goes one down, `..` one up and stays at the root, and an empty piece or a
      dot goes nowhere. Every absolute path is built from the empty one by such pieces. */
  lemma NormalizeStep(p: string, piece: string)
    requires '/' !in piece
    ensures NormalizePath("") == "/"
    ensures var q, at := NormalizePath(p + "/" + piece), NormalizePath(p);
            if piece == "" || piece == "." then q == at
            else if piece == ".." then q == ParentPath(at)
            else q == if at == "/" then "/" + piece else at + "/" + piece
  {
    assert [""][..0] == [];
    SegmentsAreSlashFree(p);
    StackGivesNames(Segments(p));
    SegmentsAppend(p, piece);
    var segs, cs := Segments(p), Components(p);
    assert (segs + [piece])[..|segs|] == segs;
    RenderInjective(cs, []);
    hide Segments, Render;
    if piece == ".." {
      if cs != [] {
        assert cs == cs[..|cs| - 1] + [cs[|cs| - 1]];
        ParentOfChild(cs[..|cs| - 1], cs[|cs| - 1]);
      }
    } else if piece != "" && piece != "." {
      ParentOfChild(cs, piece);
    }
  }

  lemma {:induction false} NormalIsAbsolute(p: string)
    requires IsNormal(p)
    ensures IsAbsolute(p)
  {
    var cs :| AreNames(cs) && p == Render(cs);
    if cs != [] { JoinedIsAbsolute(cs); }
  }

  lemma {:induction false} JoinedIsAbsolute(cs: seq<string>)
    ensures cs != [] ==> Joined(cs) != "" && Joined(cs)[0] == '/'
  {
    if cs != [] { JoinedIsAbsolute(cs[..|cs| - 1]); }
  }

  // ---------- Parents ----------

  lemma {:induction false} LastSlashOfAppend(q: string, n: string)
    requires '/' !in n
    ensures LastSlash(q + "/" + n) == |q|
  {
    var p := q + "/" + n;
    if n != "" {
      var m := n[..|n| - 1];
      assert p[..|p| - 1] == q + "/" + m;
      LastSlashOfAppend(q, m);
    }
  }

  /** Cutting at the last slash drops exactly the last component. */
  lemma ParentOfChild(cs: seq<string>, n: string)
    requires AreNames(cs) && IsName(n)
    ensures ParentPath(Render(cs + [n])) == Render(cs)
    ensures Render(cs + [n]) == (if cs == [] then "/" else Render(cs) + "/") + n
    ensures Render(cs + [n]) != "/"
  {
    var all := cs + [n];
    assert all[..|all| - 1] == cs;
    var p := Joined(cs) + "/" + n;
    assert Render(all) == p;
    LastSlashOfAppend(Joined(cs), n);
    assert p[..|Joined(cs)|] == Joined(cs);
    assert |p| > 1;
    if cs == [] {
      assert Joined(cs) == "" && "" + "/" + n == "/" + n;
    } else {
      assert |Joined(cs)| > 0;
    }
  }

  /** Every non-root canonical path is its parent's path and a name, and its parent is canonical and shorter. */
  lemma NormalHasParent(p: string)
    requires IsNormal(p) && p != "/"
    ensures var cs := Components(p);
            cs != [] && AreNames(cs) && p == Render(cs) && ParentPath(p) == Render(cs[..|cs| - 1])
  {
    NormalizeIsCanonical(p);
    var cs := Components(p);
    assert cs == cs[..|cs| - 1] + [cs[|cs| - 1]];
    ParentOfChild(cs[..|cs| - 1], cs[|cs| - 1]);
  }
}
