/** The match search and the progress of a compression, shared by the two compressors. */
module Lz4Search {
  import opened Lz4Block
  import opened Lz4Memory
  import opened Lz4Emit

  /** A usable match of at least four bytes for position ip: it lies before ip, within reach of a
      two-byte offset, and far enough from the end of the source. */
  ghost predicate MatchAt(src: seq<byte>, ip: nat, m: nat) {
    m < ip && ip - m <= MAX_DISTANCE && ip + MFLIMIT <= |src| && Periodic(src, ip, ip + MINMATCH, ip - m)
  }

  /** Is the position m from the hash table a usable match for ip? */
  method IsMatch(src: array<byte>, ip: nat, m: nat) returns (yes: bool)
    requires m < ip && ip + MFLIMIT <= src.Length
    ensures yes <==> MatchAt(src[..], ip, m)
  {
    yes := m + MAX_DISTANCE >= ip;
    if yes { yes := SameWord(src, m, ip, 4); }
  }

  /** All bytes are equal. */
  ghost predicate Uniform(src: seq<byte>) { forall i, j :: 0 <= i < j < |src| ==> src[i] == src[j] }

  /** No four bytes of the source come twice within reach. */
  ghost predicate NoRepeats(src: seq<byte>) { forall ip: nat, m: nat :: !MatchAt(src, ip, m) }

  /** How far the match at ip goes beyond its four bytes. */
  ghost function FullLength(src: seq<byte>, m: nat, ip: nat): nat
    requires m <= ip && ip + MFLIMIT <= |src|
  {
    Common(src, m + MINMATCH, ip + MINMATCH, |src| - LASTLITERALS)
  }

  lemma UniformLength(src: seq<byte>)
    requires Uniform(src) && |src| > LZ4_MINLENGTH
    ensures FullLength(src, 0, 1) == |src| - 10
  {
    CommonIs(src, MINMATCH, 1 + MINMATCH, |src| - LASTLITERALS, |src| - 10);
  }

  /** The size of a block of n bytes that is one run of literals. */
  function LiteralSize(n: nat): nat { 1 + LenCost(n) + n }

  /** The size of a compressed source of n equal bytes: a literal, one match for all but the last five, and these. */
  function UniformSize(n: nat): nat { if n > LZ4_MINLENGTH then 10 + LenCost(n - 10) else LiteralSize(n) }

  /** No position but the first is in the table. */
  ghost predicate AllZero(table: array<nat>) reads table { forall i :: 0 <= i < table.Length ==> table[i] == 0 }

  /** The first round of a compression, with nothing but the first position in the table. */
  ghost predicate FirstRound(op: nat, anchor: nat, ip: nat, table: array<nat>)
    reads table
  {
    op == 0 && anchor == 0 && ip == 1 && AllZero(table)
  }

  lemma MatchFacts(src: seq<byte>, ip: nat, m: nat)
    requires MatchAt(src, ip, m)
    ensures m < ip && ip - m <= MAX_DISTANCE && ip + MFLIMIT <= |src|
  {
  }

  /** What the table holds for the bytes at p. */
  ghost function SlotFor(src: seq<byte>, table: array<nat>, tt: TableType, p: nat): nat
    requires p + 8 <= |src| && table.Length == TableSize(tt)
    reads table
  {
    table[SlotOf(src, tt, p)]
  }

  /** In a text of equal bytes the first position is a match for every one within reach. */
  lemma UniformMatches(src: seq<byte>, table: array<nat>, tt: TableType, ip: nat)
    requires Uniform(src) && AllZero(table) && table.Length == TableSize(tt)
    requires 1 <= ip <= MAX_DISTANCE && ip + MFLIMIT <= |src|
    ensures SlotFor(src, table, tt, ip) == 0 && MatchAt(src, ip, 0)
  {
    hide SlotOf;
  }

  // ---------------------------------------------------------------- the search

  /** How far probe k is ahead of the first: by ones up to the 65th, then by twos, and so on. */
  function Skipped(k: nat): nat { if k == 0 then 0 else Skipped(k - 1) + if k == 1 then 1 else (62 + k) / 64 }

  lemma {:induction false} SkippedGrows(j: nat, k: nat)
    requires j < k
    ensures Skipped(j) < Skipped(k)
  {
    if j + 1 < k { SkippedGrows(j, k - 1); }
  }

  /** What slot h holds behind k probes: the last of them with that hash, or what it held before. */
  ghost function SlotAfter(src: seq<byte>, table: seq<nat>, tt: TableType, ip: nat, k: nat, h: nat): nat
    requires h < |table|
  {
    if k == 0 then table[h] else
    var p := ip + Skipped(k - 1);
    if p + 8 <= |src| && SlotOf(src, tt, p) == h then p else SlotAfter(src, table, tt, ip, k - 1, h)
  }

  /** Probe k meets a usable match. */
  ghost predicate Hit(src: seq<byte>, table: seq<nat>, tt: TableType, ip: nat, k: nat)
    requires |table| == TableSize(tt)
  {
    var p := ip + Skipped(k);
    p + 8 <= |src| && MatchAt(src, p, SlotAfter(src, table, tt, ip, k, SlotOf(src, tt, p)))
  }

  /** The search ends before a probe behind which the next one would be too near the end. */
  predicate Probed(n: nat, ip: nat, k: nat) { ip + Skipped(k + 1) + MFLIMIT <= n }

  /** The first probe that meets a match is k, at p, and meets m; table' is what the table has become. */
  ghost predicate FirstHit(src: seq<byte>, table: seq<nat>, table': seq<nat>, tt: TableType, ip: nat, k: nat, p: nat,
                           m: nat)
    requires |table| == |table'| == TableSize(tt)
  {
    && Probed(|src|, ip, k) && p == ip + Skipped(k) && p + 8 <= |src|
    && m == SlotAfter(src, table, tt, ip, k, SlotOf(src, tt, p)) && MatchAt(src, p, m)
    && (forall j: nat :: j < k ==> !Hit(src, table, tt, ip, j))
    && Entered(src, table, table', tt, ip, k + 1)
  }

  lemma StartProbe(src: seq<byte>, table: array<nat>, tt: TableType, ip: nat)
    requires table.Length == TableSize(tt) && ip + 8 <= |src|
    ensures Hit(src, table[..], tt, ip, 0) <==> MatchAt(src, ip, SlotFor(src, table, tt, ip))
    ensures Skipped(0) == 0 && (Probed(|src|, ip, 0) <==> ip + MFLIMIT < |src|)
    ensures SlotAfter(src, table[..], tt, ip, 0, SlotOf(src, tt, ip)) == SlotFor(src, table, tt, ip)
  {
  }

  lemma NotEntered(src: seq<byte>, table: seq<nat>, tt: TableType, ip: nat)
    ensures Entered(src, table, table, tt, ip, 0)
  {
  }

  lemma NoMoreProbes(n: nat, ip: nat, k: nat)
    requires !Probed(n, ip, k)
    ensures forall j: nat :: j >= k ==> !Probed(n, ip, j)
  {
    forall j: nat | j > k ensures !Probed(n, ip, j) { SkippedGrows(k + 1, j + 1); }
  }

  /** The table behind k probes. */
  ghost predicate Entered(src: seq<byte>, before: seq<nat>, table: seq<nat>, tt: TableType, ip: nat, k: nat) {
    |table| == |before| && forall h: nat :: h < |table| ==> table[h] == SlotAfter(src, before, tt, ip, k, h)
  }

  lemma EntersProbe(src: seq<byte>, before: seq<nat>, table: seq<nat>, tt: TableType, ip: nat, k: nat)
    requires |table| == TableSize(tt) && Entered(src, before, table, tt, ip, k) && ip + Skipped(k) + 8 <= |src|
    ensures var p := ip + Skipped(k); Entered(src, before, table[SlotOf(src, tt, p) := p], tt, ip, k + 1)
  {
    hide Skipped, SlotOf;
  }

  lemma HitIs(src: seq<byte>, before: seq<nat>, table: seq<nat>, tt: TableType, ip: nat, k: nat)
    requires |before| == TableSize(tt) && Entered(src, before, table, tt, ip, k) && ip + Skipped(k) + 8 <= |src|
    ensures var p := ip + Skipped(k);
            var h := SlotOf(src, tt, p);
            SlotAfter(src, before, tt, ip, k, h) == table[h]
            && (Hit(src, before, tt, ip, k) <==> MatchAt(src, p, table[h]))
  {
    hide Skipped, SlotOf, MatchAt;
  }

  lemma NextProbe(k: nat)
    ensures Skipped(k) < Skipped(k + 1) == Skipped(k) + if k == 0 then 1 else (63 + k) / 64
  {
  }

  /** The search loop: steps forward, ever faster, to the first probe for which the table yields a match. */
  method FindMatch(src: array<byte>, table: array<nat>, tt: TableType, ip0: nat)
      returns (found: bool, ip: nat, m: nat)
    requires table.Length == TableSize(tt) && Below(table, ip0) && ip0 + 8 <= src.Length
    requires tt.ByU16? ==> src.Length < LZ4_64KLIMIT
    modifies table
    ensures found ==> ip0 <= ip && ip + 1 + MFLIMIT <= src.Length && MatchAt(src[..], ip, m) && Below(table, ip + 1)
    ensures found ==> exists k: nat :: FirstHit(src[..], old(table[..]), table[..], tt, ip0, k, ip, m)
    ensures !found ==>
              forall k: nat :: Probed(src.Length, ip0, k) ==> !Hit(src[..], old(table[..]), tt, ip0, k)
    ensures ip0 + MFLIMIT < src.Length && old(MatchAt(src[..], ip0, SlotFor(src[..], table, tt, ip0))) ==>
              found && ip == ip0 && m == old(SlotFor(src[..], table, tt, ip0))
  {
    hide SlotOf, Skipped, SlotAfter, SlotFor, Periodic, Hit, Entered;
    ghost var before := table[..];
    NotEntered(src[..], before, tt, ip0);
    StartProbe(src[..], table, tt, ip0);
    ghost var k: nat := 0;
    NextProbe(k);
    var forwardIp, step, searchMatchNb := ip0, 1, 64;
    var forwardH := HashPosition(src, ip0, tt);
    while true
      invariant forwardIp == ip0 + Skipped(k) && forwardIp + 8 <= src.Length && Below(table, forwardIp)
      invariant forwardH == SlotOf(src[..], tt, forwardIp)
      invariant step == Skipped(k + 1) - Skipped(k) && searchMatchNb == 64 + k
      invariant Entered(src[..], before, table[..], tt, ip0, k)
      invariant forall j: nat :: j < k ==> !Hit(src[..], before, tt, ip0, j)
      decreases src.Length - forwardIp
    {
      var h := forwardH;
      ip := forwardIp;
      NextProbe(k);
      NextProbe(k + 1);
      forwardIp := forwardIp + step;
      step := searchMatchNb / 64;
      searchMatchNb := searchMatchNb + 1;
      if forwardIp > src.Length - MFLIMIT {
        NoMoreProbes(src.Length, ip0, k);
        return false, 0, 0;
      }
      m := table[h];
      HitIs(src[..], before, table[..], tt, ip0, k);
      EntersProbe(src[..], before, table[..], tt, ip0, k);
      forwardH := HashPosition(src, forwardIp, tt);
      label L:
      PutPositionOnHash(table, tt, ip, h);
      assert table[..] == old@L(table[..])[h := ip];
      if tt.ByU16? || m + MAX_DISTANCE >= ip {
        var same := SameWord(src, m, ip, 4);
        if same {
          assert FirstHit(src[..], before, table[..], tt, ip0, k, ip, m);
          return true, ip, m;
        }
      }
      k := k + 1;
    }
  }

  /** Extending the match backwards over equal literals, as far as they go. */
  method CatchUp(src: array<byte>, ip0: nat, m0: nat, anchor: nat) returns (ip: nat, m: nat)
    requires MatchAt(src[..], ip0, m0) && anchor <= ip0
    ensures anchor <= ip <= ip0 && ip - m == ip0 - m0
    ensures ip == anchor || m == 0 || src[ip - 1] != src[m - 1]
    ensures Periodic(src[..], ip, ip0 + MINMATCH, ip - m)
  {
    ip, m := ip0, m0;
    while ip > anchor && m > 0 && src[ip - 1] == src[m - 1]
      invariant anchor <= ip <= ip0 && ip - m == ip0 - m0
      invariant Periodic(src[..], ip, ip0 + MINMATCH, ip - m)
    {
      ip, m := ip - 1, m - 1;
    }
  }

  // ---------------------------------------------------------------- progress

  /** dst holds the encoding of sequences that stand for the source up to anchor. */
  ghost predicate Progress(src: seq<byte>, dst: seq<byte>, qs: seq<Sequence>, op: nat, anchor: nat) {
    && anchor <= |src| && op <= |dst|
    && Valid(qs) && Expand(qs) == src[..anchor]
    && dst[..op] == Encode(qs)
  }

  /** As Progress, with the token and literals of the next sequence written, whose match starts at ip. */
  ghost predicate Pending(src: seq<byte>, dst: seq<byte>, qs: seq<Sequence>, token: nat, op: nat, anchor: nat,
                          ip: nat)
  {
    && anchor <= ip <= |src| && token < op <= |dst|
    && Valid(qs) && Expand(qs) == src[..anchor] && |Encode(qs)| == token
    && dst[..op] == Encode(qs) + LiteralBytes(0, src[anchor..ip])
  }

  /** The last sequence starts its match MFLIMIT before n and ends it LASTLITERALS before n. */
  ghost predicate Clear(qs: seq<Sequence>, anchor: nat, n: nat) {
    qs != [] ==>
      anchor + LASTLITERALS <= n && anchor - (qs[|qs| - 1].mlen + MINMATCH) + MFLIMIT <= n
  }

  /** Writing a repeated stretch of the source as one more sequence keeps Progress. */
  lemma SequenceDone(src: seq<byte>, qs: seq<Sequence>, anchor: nat, ip: nat, m: nat, mlen: nat)
    requires Valid(qs) && anchor <= ip && m < ip && ip - m <= MAX_DISTANCE && ip + MINMATCH + mlen <= |src|
    requires Expand(qs) == src[..anchor] && Periodic(src, ip, ip + MINMATCH + mlen, ip - m)
    ensures var q := Sequence(src[anchor..ip], ip - m, mlen);
            Valid(qs + [q]) && Expand(qs + [q]) == src[..ip + MINMATCH + mlen]
            && Encode(qs + [q]) == Encode(qs) + EncodeSeq(q)
  {
    hide CopyMatch, EncodeSeq, Expand, Encode, Valid;
    var q := Sequence(src[anchor..ip], ip - m, mlen);
    assert src[..anchor] + src[anchor..ip] == src[..ip];
    ExpandSnoc(qs, q);
    EncodeSnoc(qs, q);
    PeriodicIsCopyMatch(src[..ip], ip - m, mlen + MINMATCH, src[..ip + MINMATCH + mlen]);
  }

  /** A sequence's token and literals. */
  method StartSequence(src: array<byte>, dst: array<byte>, op0: nat, anchor: nat, ip: nat, ghost qs: seq<Sequence>)
      returns (op: nat)
    requires src != dst && anchor <= ip && ip + 8 <= src.Length
    requires op0 + 1 + LenCost(ip - anchor) + WildLength(ip - anchor) <= dst.Length
    requires Progress(src[..], dst[..], qs, op0, anchor)
    modifies dst
    ensures op == op0 + 1 + LenCost(ip - anchor) + (ip - anchor)
    ensures Pending(src[..], dst[..], qs, op0, op, anchor, ip)
    ensures KeepsFrom(dst, op + 8)
  {
    assert dst[..][..op0] == dst[..op0];
    op := PutLiterals(src, dst, op0, anchor, ip);
    assert dst[..][..op] == dst[..op];
    assert src[..][anchor..ip] == src[anchor..ip];
  }

  /** A token for a sequence without literals. */
  method StartEmptySequence(src: array<byte>, dst: array<byte>, op0: nat, ip: nat, ghost qs: seq<Sequence>)
      returns (op: nat)
    requires src != dst && op0 < dst.Length && Progress(src[..], dst[..], qs, op0, ip)
    modifies dst
    ensures op == op0 + 1 && Pending(src[..], dst[..], qs, op0, op, ip, ip) && KeepsFrom(dst, op)
  {
    hide Valid, Expand, Encode;
    dst[op0] := 0;
    op := op0 + 1;
    assert LiteralBytes(0, []) == [0];
    assert src[..][ip..ip] == [];
    assert dst[..][..op] == old(dst[..][..op0]) + [0];
  }

  /** Offset and match length end a sequence. */
  method EndSequence(src: array<byte>, dst: array<byte>, token: nat, op0: nat, anchor: nat, ip: nat, m: nat,
                     mlen: nat, byPairs: bool, ghost qs: seq<Sequence>) returns (op: nat, ghost qs': seq<Sequence>)
    requires src != dst && Pending(src[..], dst[..], qs, token, op0, anchor, ip)
    requires m < ip && ip - m <= MAX_DISTANCE && ip + MINMATCH + mlen <= src.Length
    requires Periodic(src[..], ip, ip + MINMATCH + mlen, ip - m)
    requires op0 + 2 + LenCost(mlen) <= dst.Length
    modifies dst
    ensures op == op0 + 2 + LenCost(mlen)
    ensures Progress(src[..], dst[..], qs', op, ip + MINMATCH + mlen)
    ensures qs' != [] && qs'[|qs'| - 1].mlen == mlen
    ensures KeepsFrom(dst, op)
  {
    hide LiteralBytes, EncodeSeq, Encode, Expand, Valid;
    ghost var lits := src[..][anchor..ip];
    assert dst[..][..op0] == dst[..op0];
    op := PutOffset(dst, op0, ip - m);
    op := PutMatchLength(dst, token, op, mlen, byPairs, Encode(qs), lits, ip - m);
    SequenceDone(src[..], qs, anchor, ip, m, mlen);
    assert dst[..][..op] == dst[..op];
    qs' := qs + [Sequence(lits, ip - m, mlen)];
  }

  /** The last literals complete a block. */
  method Finish(src: array<byte>, dst: array<byte>, op0: nat, anchor: nat, n: nat, ghost qs: seq<Sequence>)
      returns (op: nat)
    requires src != dst && anchor + n <= src.Length && op0 + 1 + LenCost(n) + n <= dst.Length
    requires Progress(src[..], dst[..], qs, op0, anchor) && Clear(qs, anchor, anchor + n)
    modifies dst
    ensures op == op0 + 1 + LenCost(n) + n
    ensures IsBlockOf(dst[..op], src[..anchor + n])
    ensures KeepsFrom(dst, op)
  {
    hide LiteralBytes, Encode, Expand, Valid;
    ghost var last := src[anchor..anchor + n];
    assert dst[..][..op0] == dst[..op0];
    op := PutLastLiterals(src, dst, op0, anchor, n);
    assert src[..][..anchor] + last == src[..anchor + n];
    assert EndsWell(qs, last);
    assert Valid(qs) && EndsWell(qs, last) && dst[..op] == Encode(qs) + EncodeLast(last)
        && src[..anchor + n] == Expand(qs) + last;
  }
}
