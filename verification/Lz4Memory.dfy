/** The copying primitives of lz4.c on byte arrays.  A pointer is an index into its array. */
module Lz4Memory {
  import opened Lz4Block

  /** Nothing from `from` on has changed. */
  twostate predicate KeepsFrom(dst: array<byte>, from: nat)
    reads dst
  {
    forall i :: from <= i < dst.Length ==> dst[i] == old(dst[i])
  }

  /** Where the writes of a wild copy from d0 to e end at the latest. */
  function WildEnd(d0: nat, e: nat): nat { if e <= d0 then d0 + 8 else e + 7 }

  /** LZ4_wildCopy between distinct buffers: eight bytes at a time, at least once, so it may write
      up to seven bytes past e (eight when there is nothing to copy) and no further. */
  method WildCopyLiterals(dst: array<byte>, d0: nat, src: array<byte>, s0: nat, e: nat)
    requires dst != src
    requires d0 <= e && e + 7 <= dst.Length && d0 + 8 <= dst.Length && s0 + (e - d0) + 8 <= src.Length
    modifies dst
    ensures dst[..e] == old(dst[..d0]) + src[s0..s0 + (e - d0)]
    ensures KeepsFrom(dst, WildEnd(d0, e))
  {
    var d, s := d0, s0;
    var first := true;
    while first || d < e
      invariant d0 <= d <= dst.Length && s - s0 == d - d0
      invariant d <= e + 7 || d <= d0 + 8
      invariant first ==> d == d0
      invariant forall i :: d0 <= i < d ==> dst[i] == src[s0 + (i - d0)]
      invariant dst[..d0] == old(dst[..d0])
      invariant KeepsFrom(dst, WildEnd(d0, e))
      decreases first, e - d
    {
      forall i | 0 <= i < 8 { dst[d + i] := src[s + i]; }
      d, s, first := d + 8, s + 8, false;
    }
  }

  /** memcpy between distinct buffers. */
  method CopyBytes(dst: array<byte>, d: nat, src: array<byte>, s: nat, n: nat)
    requires dst != src && d + n <= dst.Length && s + n <= src.Length
    modifies dst
    ensures dst[..d + n] == old(dst[..d]) + src[s..s + n]
    ensures KeepsFrom(dst, d + n)
  {
    forall i | 0 <= i < n { dst[d + i] := src[s + i]; }
  }

  /** Bytes lo..hi of a repeat the ones `period` places before them. */
  ghost predicate Periodic(a: seq<byte>, lo: nat, hi: int, period: nat)
    requires hi <= |a| && period <= lo
  {
    forall i :: lo <= i < hi ==> a[i] == a[i - period]
  }

  /** LZ4_wildCopy within the output buffer, from s0 to d0.  Each eight-byte copy reads before it
      writes, so at distance eight or more it repeats the text. */
  method WildCopyMatch(dst: array<byte>, d0: nat, s0: nat, e: nat)
    requires s0 < d0 && d0 + 8 <= dst.Length && e + 7 <= dst.Length
    modifies dst
    ensures dst[..d0] == old(dst[..d0]) && KeepsFrom(dst, WildEnd(d0, e))
    ensures d0 - s0 >= 8 ==> Periodic(dst[..], d0, e, d0 - s0)
  {
    var d, s := d0, s0;
    var first := true;
    while first || d < e
      invariant d0 <= d && d - s == d0 - s0
      invariant if first then d == d0 else d <= dst.Length && d0 + 8 <= d
      invariant d <= d0 + 8 || d <= e + 7
      invariant dst[..d0] == old(dst[..d0]) && KeepsFrom(dst, WildEnd(d0, e))
      invariant d0 - s0 >= 8 ==> forall i :: d0 <= i < d ==> dst[i] == dst[i - (d0 - s0)]
      decreases first, e - d
    {
      forall i | 0 <= i < 8 { dst[d + i] := dst[s + i]; }
      d, s, first := d + 8, s + 8, false;
    }
  }

  /** Distance between the write and read pointers after the eight-byte start of a match copy. */
  function StartDistance(offset: nat): (d: nat)
    ensures 1 <= offset ==> 8 <= d
    ensures 4 <= d <= offset + 8
  {
    if offset >= 8 then offset
    else [4, 8, 8, 9, 8, 10, 12, 14][offset]
  }

  /** Four single bytes of a match, one after the other. */
  method CopyFour(dst: array<byte>, op: nat, match0: nat)
    requires match0 <= op && op + 4 <= dst.Length
    modifies dst
    ensures dst[..op] == old(dst[..op]) && (match0 < op ==> Periodic(dst[..], op, op + 4, op - match0))
  {
    dst[op] := dst[match0];
    dst[op + 1] := dst[match0 + 1];
    dst[op + 2] := dst[match0 + 2];
    dst[op + 3] := dst[match0 + 3];
  }

  /** The table-driven start for distances below eight: four single bytes, then four bytes from an
      adjusted pointer.  Returns the read pointer that goes with op + 8. */
  method StartOverlappingMatch(dst: array<byte>, op: nat, match0: nat) returns (m: nat)
    requires match0 <= op < match0 + 8 && op + 8 <= dst.Length
    modifies dst
    ensures dst[..op] == old(dst[..op])
    ensures op + 8 - m == StartDistance(op - match0)
    ensures match0 < op ==> Periodic(dst[..], op, op + 8, op - match0)
  {
    var dec32table, dec64table := [4, 1, 2, 1, 4, 4, 4, 4], [0, 0, 0, -1, 0, 1, 2, 3];
    var dec64 := dec64table[op - match0];
    CopyFour(dst, op, match0);
    ghost var half := dst[..op + 4];
    assert half == dst[..][..op + 4];
    m := match0 + dec32table[op - match0];
    forall i | 0 <= i < 4 { dst[op + 4 + i] := dst[m + i]; }
    assert dst[..op + 4] == half;
    ghost var d := op - match0;
    if d > 0 {
      assert half[op] == half[op - d] && half[op + 1] == half[op + 1 - d];
      assert half[op + 2] == half[op + 2 - d] && half[op + 3] == half[op + 3 - d];
    }
    m := m - dec64;
  }

  /** The first eight bytes of a match. */
  method StartMatch(dst: array<byte>, op: nat, match0: nat) returns (m: nat)
    requires match0 <= op && op + 8 <= dst.Length
    modifies dst
    ensures dst[..op] == old(dst[..op])
    ensures op + 8 - m == StartDistance(op - match0)
    ensures match0 < op ==> Periodic(dst[..], op, op + 8, op - match0)
  {
    if op - match0 < 8 {
      m := StartOverlappingMatch(dst, op, match0);
    } else {
      forall i | 0 <= i < 8 { dst[op + i] := dst[match0 + i]; }
      m := match0 + 8;
    }
  }

  /** Walking down k periods. */
  lemma {:induction false} PeriodChain(a: seq<byte>, lo: nat, hi: nat, period: nat, i: nat, k: nat)
    requires 1 <= period <= lo && hi <= |a| && Periodic(a, lo, hi, period)
    requires k * period <= i < hi
    requires k > 0 ==> lo + (k - 1) * period <= i
    ensures a[i] == a[i - k * period]
    decreases k
  {
    if k > 0 {
      assert (k - 1) * period == k * period - period;
      if k > 1 {
        assert (k - 2) * period == (k - 1) * period - period;
      }
      PeriodChain(a, lo, hi, period, i - period, k - 1);
    }
  }

  /** A start of period `offset`, continued at distance k * offset, has period `offset`. */
  lemma {:induction false} PeriodExtends(a: seq<byte>, op: nat, hi: nat, offset: nat, k: nat)
    requires 1 <= offset <= op && k >= 1 && 8 <= k * offset <= offset + 8 && op + 8 <= hi <= |a|
    requires Periodic(a, op, op + 8, offset)
    requires k * offset <= op + 8 && Periodic(a, op + 8, hi, k * offset)
    ensures Periodic(a, op, hi, offset)
    decreases hi
  {
    if hi > op + 8 {
      PeriodExtends(a, op, hi - 1, offset, k);
      var i := hi - 1;
      assert (k - 1) * offset == k * offset - offset;
      if k >= 2 {
        assert (k - 2) * offset == (k - 1) * offset - offset;
      }
      PeriodChain(a, op, hi - 1, offset, i - offset, k - 1);
      assert a[i] == a[i - k * offset];
    }
  }

  /** How many offsets make up the start distance. */
  function StartFactor(offset: nat): (k: nat)
    requires offset >= 1
    ensures k >= 1 && k * offset == StartDistance(offset)
  {
    if offset >= 8 then 1 else [0, 8, 4, 3, 2, 2, 2, 2][offset]
  }

  /** A start of period `offset` and a continuation at the start distance are the copied match. */
  lemma PeriodsMakeTheMatch(out: seq<byte>, a: seq<byte>, offset: nat, cpy: nat)
    requires 1 <= offset <= |out| && out <= a && |out| + 8 <= |a| && |out| <= cpy <= |a|
    requires Periodic(a, |out|, |out| + 8, offset)
    requires StartDistance(offset) <= |out| + 8 && Periodic(a, |out| + 8, cpy, StartDistance(offset))
    ensures a[..cpy] == CopyMatch(out, offset, cpy - |out|)
  {
    hide CopyMatch, StartDistance;
    if cpy >= |out| + 8 {
      var k := StartFactor(offset);
      assert k * offset == StartDistance(offset);
      hide StartFactor;
      PeriodExtends(a, |out|, cpy, offset, k);
    }
    assert forall i :: |out| <= i < cpy ==> a[i] == a[i - offset];
    hide Periodic;
    PeriodicIsCopyMatch(out, offset, cpy - |out|, a[..cpy]);
  }

  /** The rest of a match, from op to cpy: a wild copy, kept off the last eight bytes of the buffer
      and finished byte by byte when cpy is near them. */
  method FinishMatch(dst: array<byte>, op0: nat, m0: nat, cpy: nat)
    requires m0 < op0 && op0 + MFLIMIT <= dst.Length + 8 && op0 <= cpy + 4
    requires cpy <= dst.Length - LASTLITERALS
    modifies dst
    ensures dst[..op0] == old(dst[..op0])
    ensures op0 - m0 >= 8 ==> Periodic(dst[..], op0, cpy, op0 - m0)
  {
    var oend := dst.Length;
    if cpy > oend - 12 {
      var op, m := op0, m0;
      if op < oend - 8 {
        WildCopyMatch(dst, op, m, oend - 8);
        m := m + (oend - 8 - op);
        op := oend - 8;
      }
      while op < cpy
        invariant op0 <= op && op - m == op0 - m0
        invariant op <= oend - 8 || op <= cpy || op == op0
        invariant dst[..op0] == old(dst[..op0])
        invariant op0 - m0 >= 8 && op <= oend ==> Periodic(dst[..], op0, op, op0 - m0)
      {
        dst[op] := dst[m];
        op, m := op + 1, m + 1;
      }
    } else {
      WildCopyMatch(dst, op0, m0, cpy);
    }
  }

  /** The copy of a match of at least four bytes ending at cpy, in an output buffer that ends at
      dst.Length.  Fails when the match would reach into the last five bytes. */
  method CopyMatchFast(dst: array<byte>, op: nat, match0: nat, cpy: nat) returns (ok: bool)
    requires match0 <= op && op + MFLIMIT <= dst.Length && op + MINMATCH <= cpy
    modifies dst
    ensures ok <==> cpy <= dst.Length - LASTLITERALS
    ensures dst[..op] == old(dst[..op])
    ensures ok && match0 < op ==> dst[..cpy] == CopyMatch(old(dst[..op]), op - match0, cpy - op)
  {
    hide StartDistance;
    var m := StartMatch(dst, op, match0);
    ghost var start := dst[..op + 8];
    if cpy > dst.Length - LASTLITERALS { return false; }
    FinishMatch(dst, op + 8, m, cpy);
    ok := true;
    if match0 < op {
      assert start == dst[..][..op + 8];
      PeriodsMakeTheMatch(old(dst[..op]), dst[..], op - match0, cpy);
    }
  }
}
