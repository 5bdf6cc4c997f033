/** Bytes of one file: the two write algorithms against one splice, buffer growth, and chunked access. */
module FileData {
  import opened Lists
  import Server

  const MAX_FILE_SIZE: nat := 1024 * 1024

  function Max(a: int, b: int): int {
    if a < b then b else a
  }

  // ---------- One specification of a write ----------

  /** Content after a write, with the given bytes between the old end and the offset. */
  function GapSplice(cur: Bytes, gap: Bytes, offset: nat, data: Bytes): (r: Bytes)
    requires |gap| == Max(0, offset - |cur|)
  {
    (cur + gap)[..offset] + data + (if offset + |data| < |cur| then cur[offset + |data|..] else [])
  }

  /** A write in the POSIX sense: whatever lies between the old end and the offset reads as zero. */
  function Splice(cur: Bytes, offset: nat, data: Bytes): Bytes {
    GapSplice(cur, Server.Zeros(Max(0, offset - |cur|)), offset, data)
  }

  /** The splice byte by byte: new data where it was written, old bytes elsewhere, zeros in the gap. */
  lemma SpliceAt(cur: Bytes, offset: nat, data: Bytes, k: nat)
    requires k < |Splice(cur, offset, data)|
    ensures |Splice(cur, offset, data)| == Max(|cur|, offset + |data|)
    ensures Splice(cur, offset, data)[k] ==
            if offset <= k < offset + |data| then data[k - offset] else if k < |cur| then cur[k] else 0
  {
  }

  /** What a read of at most `len` bytes at `pos` returns: nothing at or past the end. */
  function ReadAt(c: Bytes, pos: nat, len: nat): Bytes {
    if pos >= |c| then [] else if pos + len < |c| then c[pos..pos + len] else c[pos..]
  }

  ghost predicate AllZero(b: Bytes) {
    forall i :: 0 <= i < |b| ==> b[i] == 0
  }

  // ---------- The server's three copies ----------

  /** The server's write is the splice except that at offset 0 it forgets the old tail. */
  lemma ServerWriteIsSplice(cur: Bytes, offset: nat, data: Bytes)
    ensures |Server.Patched(cur, offset, data)| == |Splice(cur, offset, data)| == Max(|cur|, offset + |data|)
    ensures Server.Patched(cur, offset, data) == Splice(cur, offset, data) <==>
            offset > 0 || |data| >= |cur| || AllZero(cur[|data|..])
  {
    var p, q := Server.Patched(cur, offset, data), Splice(cur, offset, data);
    if offset > 0 {
      assert p == q;
    } else {
      assert |p| == |q|;
      forall k | 0 <= k < |p|
        ensures p[k] == if k < |data| then data[k] else 0
        ensures q[k] == if k < |data| then data[k] else cur[k]
      {
        SpliceAt(cur, 0, data, k);
      }
      if p == q && |data| < |cur| {
        forall i | 0 <= i < |cur| - |data| ensures cur[|data|..][i] == 0 {
          assert p[|data| + i] == q[|data| + i];
        }
      }
      if |data| >= |cur| || AllZero(cur[|data|..]) {
        forall k | 0 <= k < |p| ensures p[k] == q[k] {
          if |data| <= k < |cur| { assert cur[|data|..][k - |data|] == 0; }
        }
        assert p == q;
      }
    }
  }

  // ---------- The kernel's growing buffer ----------

  function NewCapacity(capacity: nat, newSize: nat): nat {
    var c := Max(newSize, capacity * 2);
    if c < 64 then 64 else c
  }

  /** What the buffer holds after `krealloc` and the gap's memset; `junk` is uninitialised memory. */
  function Regrown(buf: Bytes, size: nat, offset: nat, capacity: nat, junk: Bytes): (r: Bytes)
    requires size <= |buf| <= capacity && |junk| == capacity - |buf| && offset <= capacity
    ensures |r| == capacity && r[..size] == buf[..size]
    ensures offset > size ==> r[size..offset] == Server.Zeros(offset - size)
  {
    var b := buf + junk;
    if offset > size then b[..size] + Server.Zeros(offset - size) + b[offset..] else b
  }

  /** The memcpy into the buffer. */
  function Overlaid(buf: Bytes, offset: nat, data: Bytes): (r: Bytes)
    requires offset + |data| <= |buf|
    ensures |r| == |buf|
  {
    buf[..offset] + data + buf[offset + |data|..]
  }

  /** Writing into a buffer that is large enough splices, with the buffer's own bytes in the gap. */
  lemma OverlaidIsGapSplice(buf: Bytes, size: nat, offset: nat, data: Bytes)
    requires size <= |buf| && offset + |data| <= |buf|
    ensures var newSize := Max(size, offset + |data|);
            Overlaid(buf, offset, data)[..newSize] ==
            GapSplice(buf[..size], if offset > size then buf[size..offset] else [], offset, data)
  {
    var gap := if offset > size then buf[size..offset] else [];
    var end := offset + |data|;
    assert (buf[..size] + gap)[..offset] == buf[..offset];
    var l, r := Overlaid(buf, offset, data)[..Max(size, end)], GapSplice(buf[..size], gap, offset, data);
    assert |l| == |r|;
    forall k | 0 <= k < |l| ensures l[k] == r[k] {
      if k >= end { assert buf[..size][end..][k - end] == buf[k]; }
    }
    assert l == r;
  }

  /** Without growth the kernel's write is the splice exactly when the gap, if any, happens to be zero. */
  lemma InPlaceIsSplice(buf: Bytes, size: nat, offset: nat, data: Bytes)
    requires size <= |buf| && offset + |data| <= |buf|
    ensures Overlaid(buf, offset, data)[..Max(size, offset + |data|)] == Splice(buf[..size], offset, data) <==>
            offset <= size || AllZero(buf[size..offset])
  {
    var l := Overlaid(buf, offset, data)[..Max(size, offset + |data|)];
    var r := Splice(buf[..size], offset, data);
    OverlaidIsGapSplice(buf, size, offset, data);
    if offset > size {
      forall k | size <= k < offset ensures l[k] == buf[k] && r[k] == 0 {
      }
      if l == r {
        forall i | 0 <= i < offset - size ensures buf[size..offset][i] == 0 {
          assert l[size + i] == r[size + i];
        }
      }
      if AllZero(buf[size..offset]) {
        assert buf[size..offset] == Server.Zeros(offset - size);
      }
    }
  }

  /** With growth it always is: the gap is cleared. */
  lemma GrownIsSplice(buf: Bytes, size: nat, offset: nat, data: Bytes, junk: Bytes)
    requires size <= |buf| < offset + |data| && |junk| == NewCapacity(|buf|, offset + |data|) - |buf|
    ensures var grown := Regrown(buf, size, offset, NewCapacity(|buf|, offset + |data|), junk);
            Overlaid(grown, offset, data)[..offset + |data|] == Splice(buf[..size], offset, data)
  {
    var grown := Regrown(buf, size, offset, NewCapacity(|buf|, offset + |data|), junk);
    OverlaidIsGapSplice(grown, size, offset, data);
    assert grown[..size] == buf[..size];
  }

  /** Kernel and server agree on a write that neither shortcut affects. */
  lemma TwoImplementationsAgree(buf: Bytes, size: nat, offset: nat, data: Bytes, junk: Bytes)
    requires size <= |buf| && |junk| == Max(0, NewCapacity(|buf|, offset + |data|) - |buf|)
    requires offset <= size || offset + |data| > |buf|
    requires offset > 0 || |data| >= size
    ensures (if offset + |data| > |buf|
             then Overlaid(Regrown(buf, size, offset, NewCapacity(|buf|, offset + |data|), junk), offset, data)[..offset + |data|]
             else Overlaid(buf, offset, data)[..Max(size, offset + |data|)])
            == Server.Patched(buf[..size], offset, data)
  {
    ServerWriteIsSplice(buf[..size], offset, data);
    if offset + |data| > |buf| {
      GrownIsSplice(buf, size, offset, data, junk);
    } else {
      InPlaceIsSplice(buf, size, offset, data);
    }
  }

  // ---------- Growth over any sequence of writes ----------

  /** `moves` counts reallocations, `copied` sums the capacities they had to copy. */
  datatype Growth = Growth(size: nat, capacity: nat, moves: nat, copied: nat)

  /** What a write of `len` bytes at `offset` does to size and capacity. */
  function Grow(g: Growth, offset: nat, len: nat): Growth {
    var newSize := offset + len;
    if newSize > MAX_FILE_SIZE then g
    else
      var size' := Max(g.size, newSize);
      if newSize > g.capacity then Growth(size', NewCapacity(g.capacity, newSize), g.moves + 1, g.copied + g.capacity)
      else g.(size := size')
  }

  function GrowAll(g: Growth, writes: seq<(nat, nat)>): Growth
    decreases |writes|
  {
    if writes == [] then g else GrowAll(Grow(g, writes[0].0, writes[0].1), writes[1..])
  }

  function Pow2(n: nat): nat {
    if n == 0 then 1 else 2 * Pow2(n - 1)
  }

  lemma {:induction false} Pow2Grows(m: nat, n: nat)
    requires m <= n
    ensures Pow2(m) <= Pow2(n)
  {
    if m < n { Pow2Grows(m, n - 1); }
  }

  ghost predicate GrowthOk(g: Growth) {
    && g.size <= MAX_FILE_SIZE
    && (g.moves == 0 ==> g.size == g.capacity == g.copied == 0)
    && (g.moves > 0 ==> g.size <= g.capacity <= Max(64, 2 * g.size))
    && (g.moves > 0 ==> Pow2(g.moves + 5) <= g.capacity)
    && g.copied <= g.capacity
    && g.moves <= 15
  }

  lemma GrowOk(g: Growth, offset: nat, len: nat)
    requires GrowthOk(g)
    ensures GrowthOk(Grow(g, offset, len))
  {
    assert Pow2(6) == 64;
    assert Pow2(20) == MAX_FILE_SIZE;
    if g.moves >= 15 { Pow2Grows(20, g.moves + 5); }
  }

  /** Doubling pays: capacity stays within twice the size, all copying together costs at most the final
      capacity, and a buffer moves at most 15 times in its life. */
  lemma {:induction false} GrowthBounds(g: Growth, writes: seq<(nat, nat)>)
    requires GrowthOk(g)
    ensures GrowthOk(GrowAll(g, writes))
    decreases |writes|
  {
    if writes != [] {
      GrowOk(g, writes[0].0, writes[0].1);
      GrowthBounds(Grow(g, writes[0].0, writes[0].1), writes[1..]);
    }
  }

  /** One-byte writes that each land just past the buffer. */
  function Doublings(k: nat): (r: seq<(nat, nat)>)
    ensures |r| == k
  {
    if k == 0 then [] else Doublings(k - 1) + [(if k == 1 then 0 else Pow2(k + 4), 1)]
  }

  lemma {:induction false} GrowAllAppend(g: Growth, ws: seq<(nat, nat)>, w: (nat, nat))
    ensures GrowAll(g, ws + [w]) == Grow(GrowAll(g, ws), w.0, w.1)
    decreases |ws|
  {
    if ws != [] {
      assert (ws + [w])[1..] == ws[1..] + [w];
      GrowAllAppend(Grow(g, ws[0].0, ws[0].1), ws[1..], w);
    }
  }

  /** The bound of 15 is attained. */
  lemma {:induction false} MovesAttained(k: nat)
    requires k <= 15
    ensures var g := GrowAll(Growth(0, 0, 0, 0), Doublings(k));
            g.moves == k && g.capacity == (if k == 0 then 0 else Pow2(k + 5))
  {
    if k > 0 {
      MovesAttained(k - 1);
      GrowAllAppend(Growth(0, 0, 0, 0), Doublings(k - 1), Doublings(k)[k - 1]);
      assert Pow2(6) == 64 && Pow2(20) == MAX_FILE_SIZE;
      Pow2Grows(k + 5, 20);
    }
  }
}
