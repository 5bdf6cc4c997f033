/** Sequences used as the kernel's doubly linked lists, and the options returned by searches. */
module Lists {

  type Bytes = seq<bv8>

  datatype Option<+T> = None | Some(value: T)

  ghost predicate NoDup<T>(l: seq<T>) {
    forall i, j :: 0 <= i < j < |l| ==> l[i] != l[j]
  }

  /** `list_del`: the list without the (first) occurrence of an element. */
  function Remove<T(==)>(l: seq<T>, x: T): seq<T> {
    if l == [] then [] else if l[0] == x then l[1..] else [l[0]] + Remove(l[1..], x)
  }

  /** The length of the suffix that starts at an element; 0 when it is absent. List heads rank highest. */
  function Rank<T(==)>(l: seq<T>, x: T): (r: nat)
    ensures r > 0 <==> x in l
    ensures r <= |l|
  {
    if l == [] then 0 else if l[0] == x then |l| else Rank(l[1..], x)
  }

  /** `r` has exactly the members of `l` other than `x`. */
  ghost predicate IsWithout<T>(r: seq<T>, l: seq<T>, x: T) {
    && (forall y :: y in r ==> y in l && y != x)
    && (forall y :: y in l && y != x ==> y in r)
  }

  lemma {:induction false} RemoveFacts<T>(l: seq<T>, x: T)
    requires NoDup(l)
    ensures NoDup(Remove(l, x))
    ensures IsWithout(Remove(l, x), l, x)
    ensures |Remove(l, x)| == if x in l then |l| - 1 else |l|
  {
    if l == [] {
    } else {
      assert l == [l[0]] + l[1..];
      RemoveFacts(l[1..], x);
      if l[0] == x {
        assert x !in l[1..];
      } else {
        assert l[0] !in l[1..];
        var r := Remove(l[1..], x);
        assert Remove(l, x) == [l[0]] + r;
      }
    }
  }

  /** Removing an element keeps the relative order of the others. */
  lemma {:induction false} RemoveKeepsOrder<T>(l: seq<T>, x: T, y: T, z: T)
    requires y != x && z != x
    requires Rank(l, y) < Rank(l, z)
    ensures Rank(Remove(l, x), y) < Rank(Remove(l, x), z)
  {
    if l == [] {
    } else if l[0] == x {
    } else {
      var r := Remove(l[1..], x);
      assert ([l[0]] + r)[1..] == r;
      if l[0] == z {
      } else {
        RemoveKeepsOrder(l[1..], x, y, z);
      }
    }
  }

  lemma RankOfCons<T>(e: T, l: seq<T>, x: T)
    ensures Rank([e] + l, x) == if x == e then |l| + 1 else Rank(l, x)
  {
    assert ([e] + l)[1..] == l;
  }
}
