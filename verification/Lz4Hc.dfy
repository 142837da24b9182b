/** The hash-chain match search of lz4hc.c (LZ4HC_Insert, LZ4HC_InsertAndFindBestMatch), without a
    dictionary: the tables hold, for every position inserted, the nearest earlier one with the same
    hash, and the search returns the longest match among the candidates it visits.  Then
    LZ4HC_encodeSequence, which turns such a match into a sequence of the block. */
module Lz4Hc {
  import opened Lz4Block
  import opened Lz4Memory
  import opened Lz4Emit
  import opened Lz4Search
  import opened Lz4Encoder
  import opened Lz4Limited

  const MAXD := 65536
  const HASHTABLESIZE := 32768
  const START := 65536    // index of the first byte: base lies 64 KB before it

  /** HASH_FUNCTION of the four bytes at p. */
  function HashAt(src: seq<byte>, p: nat): (h: nat)
    requires p + 4 <= |src|
    ensures h < HASHTABLESIZE
  {
    var v := Le16(src[p], src[p + 1]) + 0x1_0000 * Le16(src[p + 2], src[p + 3]);
    v * 2654435761 % 0x1_0000_0000 / 0x2_0000
  }

  /** The last position below n with hash h, or -1. */
  function LastWith(src: seq<byte>, h: nat, n: nat): (p: int)
    requires n + 3 <= |src|
    ensures -1 <= p < n && (p >= 0 ==> HashAt(src, p) == h)
    ensures forall q: nat :: p < q < n ==> HashAt(src, q) != h
  {
    if n == 0 then -1 else if HashAt(src, n - 1) == h then n - 1 else LastWith(src, h, n - 1)
  }

  /** The nearest earlier position with the hash of p. */
  function Earlier(src: seq<byte>, p: nat): (q: int)
    requires p + 4 <= |src|
    ensures -1 <= q < p
  {
    LastWith(src, HashAt(src, p), p)
  }

  /** A position as the tables hold it; 0 for none. */
  function IndexOf(p: int): nat
    requires p >= -1
  {
    if p < 0 then 0 else p + START
  }

  /** The chain entry of p: the distance to the nearest earlier position with its hash, at most 65535. */
  function Delta(src: seq<byte>, p: nat): (d: nat)
    requires p + 4 <= |src|
    ensures 1 <= d <= MAX_DISTANCE
  {
    var d := p + START - IndexOf(Earlier(src, p));
    if d > MAX_DISTANCE then MAX_DISTANCE else d
  }

  // ---------------------------------------------------------------- matches

  lemma {:induction false} CommonIsPeriodic(src: seq<byte>, m: nat, p: nat, limit: nat)
    requires m <= p <= limit <= |src|
    ensures Periodic(src, p, p + Common(src, m, p, limit), p - m)
    decreases limit - p
  {
    if p < limit && src[m] == src[p] {
      CommonIsPeriodic(src, m + 1, p + 1, limit);
    }
  }

  /** What the search credits a candidate with: the common prefix, if it has four bytes. */
  function Agreement(src: seq<byte>, m: nat, ip: nat, limit: nat): nat
    requires m <= ip <= limit <= |src|
  {
    var n := Common(src, m, ip, limit);
    if n >= MINMATCH then n else 0
  }

  /** The positions visited from p on: each the nearest earlier one with the same hash, none below low, at most n. */
  function Candidates(src: seq<byte>, p: int, low: nat, n: nat): (cs: seq<nat>)
    requires p < 0 || p + 4 <= |src|
    ensures |cs| <= n
    decreases n
  {
    if p < low || n == 0 then [] else [p] + Candidates(src, Earlier(src, p), low, n - 1)
  }

  /** They go strictly down and all have the hash of ip. */
  lemma {:induction false} CandidatesDescend(src: seq<byte>, p: int, low: nat, n: nat)
    requires p < 0 || p + 4 <= |src|
    ensures forall i :: 0 <= i < |Candidates(src, p, low, n)| ==>
              (low <= Candidates(src, p, low, n)[i] <= p
               && HashAt(src, Candidates(src, p, low, n)[i]) == HashAt(src, p))
    ensures forall i, j :: 0 <= i < j < |Candidates(src, p, low, n)| ==>
              Candidates(src, p, low, n)[i] > Candidates(src, p, low, n)[j]
    decreases n
  {
    if p >= low && n > 0 { CandidatesDescend(src, Earlier(src, p), low, n - 1); }
  }

  /** With attempts enough, every position of the window with the hash is visited. */
  lemma {:induction false} CandidatesComplete(src: seq<byte>, p: int, low: nat, n: nat, q: nat)
    requires p + 4 <= |src| && low <= q <= p && HashAt(src, q) == HashAt(src, p) && n > p - low
    ensures q in Candidates(src, p, low, n)
    decreases n
  {
    if q < p {
      CandidatesComplete(src, Earlier(src, p), low, n - 1, q);
    }
  }

  /** The window: no further back than 65535. */
  function LowLimit(ip: nat): nat { if ip < MAXD then 0 else ip - MAX_DISTANCE }

  /** Every position of the window that agrees with ip on four bytes is visited, with attempts enough. */
  lemma EveryMatchIsACandidate(src: seq<byte>, ip: nat, limit: nat, low: nat, n: nat, q: nat)
    requires ip + 4 <= limit <= |src| && low <= q < ip && n > Earlier(src, ip) - low
    requires Agreement(src, q, ip, limit) > 0
    ensures q in Candidates(src, Earlier(src, ip), low, n)
  {
    CommonIsPeriodic(src, q, ip, limit);
    assert src[ip] == src[ip - (ip - q)] && src[ip + 1] == src[ip + 1 - (ip - q)];
    assert src[ip] == src[q] && src[ip + 1] == src[q + 1] && src[ip + 2] == src[q + 2] && src[ip + 3] == src[q + 3];
    assert HashAt(src, q) == HashAt(src, ip);
    CandidatesComplete(src, Earlier(src, ip), low, n, q);
  }

  /** So with attempts enough the best of the candidates is the best of the window. */
  lemma LongestOfWindow(src: seq<byte>, ip: nat, limit: nat, n: nat, ml: nat, matchpos: nat)
    requires ip + 4 <= limit <= |src| && n > Earlier(src, ip) - LowLimit(ip)
    requires IsBest(src, ip, limit, Candidates(src, Earlier(src, ip), LowLimit(ip), n), ml, matchpos)
    ensures forall q: nat :: LowLimit(ip) <= q < ip ==> Agreement(src, q, ip, limit) <= ml
  {
    hide Agreement, Candidates, HashAt, LastWith, Earlier, LowLimit;
    forall q: nat | LowLimit(ip) <= q < ip ensures Agreement(src, q, ip, limit) <= ml {
      if Agreement(src, q, ip, limit) > 0 { EveryMatchIsACandidate(src, ip, limit, LowLimit(ip), n, q); }
    }
  }

  /** Following a chain entry: to the next candidate, or below the window. */
  lemma NextInChain(src: seq<byte>, p: nat, ip: nat)
    requires p < ip && p + 4 <= |src|
    ensures var e, index := Earlier(src, p), p + START - Delta(src, p);
            && (index >= LowLimit(ip) + START <==> e >= LowLimit(ip))
            && (e >= LowLimit(ip) ==> index == e + START)
  {
  }

  /** A byte that differs bounds the common prefix. */
  lemma DifferenceBounds(src: seq<byte>, m: nat, ip: nat, limit: nat, k: nat)
    requires m <= ip && ip + k <= limit < |src| && src[m + k] != src[ip + k]
    ensures Common(src, m, ip, limit) <= k
  {
    CommonIsPeriodic(src, m, ip, limit);
    assert !Periodic(src, ip, ip + k + 1, ip - m) by {
      var at := ip + k;
      assert src[at] != src[at - (ip - m)];
    }
  }

  /** Of the candidates cs, none agrees with ip on more than ml bytes, and matchpos on just as many. */
  ghost predicate IsBest(src: seq<byte>, ip: nat, limit: nat, cs: seq<nat>, ml: nat, matchpos: nat)
    requires ip <= limit <= |src|
  {
    && (forall c :: c in cs ==> c < ip && Agreement(src, c, ip, limit) <= ml)
    && (ml > 0 ==> matchpos in cs && Agreement(src, matchpos, ip, limit) == ml)
  }

  /** One candidate against the best length so far: the byte just past that length first, then four
      bytes, then the count. */
  method TryCandidate(src: array<byte>, m: nat, ip: nat, iLimit: nat, ml: nat) returns (mlt: nat)
    requires m < ip && ip + MINMATCH <= iLimit < src.Length && ip + ml <= iLimit
    ensures ip + mlt <= iLimit && (mlt > ml <==> Agreement(src[..], m, ip, iLimit) > ml)
    ensures mlt > ml ==> mlt == Agreement(src[..], m, ip, iLimit)
  {
    hide HashAt;
    mlt := 0;
    if src[m + ml] != src[ip + ml] {
      DifferenceBounds(src[..], m, ip, iLimit, ml);
      return;
    }
    var same := SameWord(src, m, ip, MINMATCH);
    if same {
      var n := Count(src, ip + MINMATCH, m + MINMATCH, iLimit);
      mlt := n + MINMATCH;
      CommonIs(src[..], m, ip, iLimit, mlt);
    } else {
      CommonIsPeriodic(src[..], m, ip, iLimit);
      assert !Periodic(src[..], ip, ip + MINMATCH, ip - m);
    }
  }

  lemma VisitOne(src: seq<byte>, p: nat, low: nat, n: nat)
    requires p + 4 <= |src| && p >= low && n > 0
    ensures Candidates(src, p, low, n) == [p] + Candidates(src, Earlier(src, p), low, n - 1)
  {
  }

  lemma NoneLeft(src: seq<byte>, p: int, low: nat, n: nat)
    requires (p < 0 || p + 4 <= |src|) && (p < low || n == 0)
    ensures Candidates(src, p, low, n) == []
  {
  }

  /** A table or chain value that leads to candidate cur, or out of the window when there is none. */
  predicate Leads(index: int, cur: int, ip: nat) {
    && (index >= LowLimit(ip) + START <==> cur >= LowLimit(ip))
    && (cur >= LowLimit(ip) ==> index == cur + START)
  }

  lemma BestOfNone(src: seq<byte>, ip: nat, limit: nat)
    requires ip <= limit <= |src|
    ensures IsBest(src, ip, limit, [], 0, 0)
  {
  }

  lemma BestOfMore(src: seq<byte>, ip: nat, limit: nat, cs: seq<nat>, ml: nat, matchpos: nat, m: nat, mlt: nat)
    requires m < ip <= limit <= |src| && IsBest(src, ip, limit, cs, ml, matchpos)
    requires mlt > ml <==> Agreement(src, m, ip, limit) > ml
    requires mlt > ml ==> mlt == Agreement(src, m, ip, limit)
    ensures IsBest(src, ip, limit, cs + [m], if mlt > ml then mlt else ml, if mlt > ml then m else matchpos)
  {
    hide Agreement;
  }

  /** The match reported is one. */
  lemma ReportedMatch(src: seq<byte>, cs: seq<nat>, m: nat, ip: nat, limit: nat, ml: nat)
    requires ip <= limit <= |src| && IsBest(src, ip, limit, cs, ml, m) && ml > 0
    ensures m < ip && ml >= MINMATCH && ip + ml <= limit && Periodic(src, ip, ip + ml, ip - m)
  {
    CommonIsPeriodic(src, m, ip, limit);
  }

  // ---------------------------------------------------------------- writing a match

  /** The first literal run and match for which the checks against the output limit, by a 256th, allow for less than
      is written. */
  const LONG_RUN := 4095
  const LONGEST_CHECKED := 330495

  lemma ChecksSuffice(litLength: nat, mlen: nat)
    ensures litLength < LONG_RUN ==> LenCost(litLength) + WildLength(litLength) <= litLength / 256 + litLength + 8
    ensures litLength <= WildLength(litLength) <= litLength + 8
    ensures mlen < LONGEST_CHECKED ==> LenCost(mlen) <= mlen / 256 + (1 + LASTLITERALS)
    ensures litLength / 256 <= LenCost(litLength) && mlen / 256 <= LenCost(mlen)
  {
  }

  /** The bytes of a sequence. */
  function SequenceSize(litLength: nat, mlen: nat): nat { 1 + LenCost(litLength) + litLength + 2 + LenCost(mlen) }

  /** With compressBound bytes there is room for a sequence, overshoot of the wild copy included. */
  lemma BudgetSuffices(op: nat, anchor: nat, ip: nat, mlen: nat, n: nat)
    requires WithinBudget(op, anchor) && anchor <= ip && ip + MFLIMIT <= n <= LZ4_MAX_INPUT_SIZE
    requires ip + MINMATCH + mlen <= n
    ensures op + 1 + LenCost(ip - anchor) + WildLength(ip - anchor) <= CompressBound(n)
    ensures op + SequenceSize(ip - anchor, mlen) <= CompressBound(n)
    ensures WithinBudget(op + SequenceSize(ip - anchor, mlen), ip + MINMATCH + mlen)
  {
    LiteralBudget(op, anchor, ip, n);
    SequenceBudget(op, anchor, ip - anchor, mlen);
    LastBudget(op + SequenceSize(ip - anchor, mlen), ip + MINMATCH + mlen, n);
  }

  /** LZ4HC_encodeSequence: whatever match of at least four bytes is chosen, the block goes on to stand for the source
      up to its end; within the size bound without output limit; with one inside the buffer, or given up, or stopped
      with `Overrun` where the checks let a long literal run or match through that may not fit. */
  method EncodeSequence(src: array<byte>, dst: array<byte>, op0: nat, anchor: nat, ip0: nat, matchLength: nat, m: nat,
                        limited: bool, ghost qs0: seq<Sequence>)
      returns (done: Emission, op: nat, ip: nat, ghost qs: seq<Sequence>)
    requires src != dst && src.Length <= LZ4_MAX_INPUT_SIZE && Progress(src[..], dst[..], qs0, op0, anchor)
    requires !limited ==> dst.Length >= CompressBound(src.Length) && WithinBudget(op0, anchor)
    requires anchor <= ip0 && ip0 + MFLIMIT <= src.Length && m < ip0 && ip0 - m <= MAX_DISTANCE
    requires matchLength >= MINMATCH && ip0 + matchLength + LASTLITERALS <= src.Length
    requires Periodic(src[..], ip0, ip0 + matchLength, ip0 - m)
    modifies dst
    ensures done == Written ==>
              ip == ip0 + matchLength && Progress(src[..], dst[..], qs, op, ip) && Clear(qs, ip, src.Length)
    ensures !limited ==> done == Written && WithinBudget(op, ip) && KeepsFrom(dst, CompressBound(src.Length))
    ensures done == Overrun ==> ip0 - anchor >= LONG_RUN || matchLength - MINMATCH >= LONGEST_CHECKED
    ensures op0 + SequenceSize(ip0 - anchor, matchLength - MINMATCH) + (1 + LASTLITERALS) <= dst.Length ==>
              done == Written
  {
    hide Valid, Expand, Encode, LiteralBytes;
    done, op, ip, qs := GivenUp, op0, ip0, qs0;
    var length, mlen := ip0 - anchor, matchLength - MINMATCH;
    ChecksSuffice(length, mlen);
    if !limited { BudgetSuffices(op0, anchor, ip0, mlen, src.Length); }
    hide LenCost, WildLength, Progress, Clear, Pending, WithinBudget, CompressBound;
    if limited && op0 + 1 + length / 256 + length + (2 + 1 + LASTLITERALS) > dst.Length { return; }
    if op0 + 1 + LenCost(length) + WildLength(length) > dst.Length {
      done := Overrun;
      return;
    }
    op := StartSequence(src, dst, op0, anchor, ip0, qs0);
    if limited && op + 2 + mlen / 256 + (1 + LASTLITERALS) > dst.Length { return; }
    if op + 2 + LenCost(mlen) > dst.Length {
      done := Overrun;
      return;
    }
    op, qs := EndSequence(src, dst, op0, op, anchor, ip0, m, mlen, true, qs0);
    done, ip := Written, ip0 + matchLength;
  }

  // ---------------------------------------------------------------- the tables

  class HashChain {
    const hashTable: array<nat>
    const chainTable: array<nat>
    var nextToUpdate: nat

    /** All positions below nextToUpdate, and only those, have been inserted. */
    ghost predicate Valid(src: seq<byte>)
      reads this, hashTable, chainTable
    {
      && hashTable.Length == HASHTABLESIZE && chainTable.Length == MAXD && hashTable != chainTable
      && START <= nextToUpdate && nextToUpdate - START + 3 <= |src|
      && var next := nextToUpdate - START;
         && (forall h: nat :: h < HASHTABLESIZE ==> hashTable[h] == IndexOf(LastWith(src, h, next)))
         && (forall p: nat :: p < next <= p + MAXD ==> chainTable[(p + START) % MAXD] == Delta(src, p))
    }

    /** LZ4HC_init. */
    constructor (ghost src: seq<byte>)
      requires |src| >= 3
      ensures Valid(src) && nextToUpdate == START && fresh(hashTable) && fresh(chainTable)
    {
      hashTable := new nat[HASHTABLESIZE](_ => 0);
      chainTable := new nat[MAXD](_ => 0xFFFF);
      nextToUpdate := START;
    }

    /** One round of LZ4HC_Insert. */
    method InsertOne(src: array<byte>)
      requires Valid(src[..]) && nextToUpdate - START + 4 <= src.Length
      modifies this`nextToUpdate, hashTable, chainTable
      ensures Valid(src[..]) && nextToUpdate == old(nextToUpdate) + 1
    {
      hide HashAt;
      var idx := nextToUpdate;
      var h := HashAt(src[..], idx - START);
      var delta := idx - hashTable[h];
      if delta > MAX_DISTANCE { delta := MAX_DISTANCE; }
      chainTable[idx % MAXD] := delta;
      hashTable[h] := idx;
      nextToUpdate := idx + 1;
    }

    /** LZ4HC_Insert: the chains are brought up to ip, which they must not have passed. */
    method Insert(src: array<byte>, ip: nat)
      requires Valid(src[..]) && nextToUpdate - START <= ip && ip + 3 <= src.Length
      modifies this`nextToUpdate, hashTable, chainTable
      ensures Valid(src[..]) && nextToUpdate == ip + START
    {
      while nextToUpdate < ip + START
        invariant Valid(src[..]) && nextToUpdate - START <= ip
      {
        InsertOne(src);
      }
    }

    /** The table entry of the bytes at ip leads to the first candidate. */
    method FirstIndex(src: array<byte>, ip: nat) returns (index: int)
      requires Valid(src[..]) && nextToUpdate == ip + START && ip + 4 <= src.Length
      ensures Leads(index, Earlier(src[..], ip), ip)
    {
      hide HashAt;
      index := hashTable[HashAt(src[..], ip)];
    }

    /** The chain entry of a candidate leads to the next. */
    method NextIndex(src: array<byte>, m: nat, ip: nat) returns (index: int)
      requires Valid(src[..]) && nextToUpdate == ip + START && LowLimit(ip) <= m < ip && ip + 4 <= src.Length
      ensures Leads(index, Earlier(src[..], m), ip)
    {
      hide HashAt;
      index := m + START - chainTable[(m + START) % MAXD];
      NextInChain(src[..], m, ip);
    }

    /** LZ4HC_InsertAndFindBestMatch: among the candidates visited none agrees with ip on more bytes
        than reported, up to iLimit, and the one reported agrees on exactly as many.  With attempts enough
        that is the longest agreement of any position in the window. */
    method FindBestMatch(src: array<byte>, ip: nat, iLimit: nat, maxNbAttempts: nat) returns (ml: nat, matchpos: nat)
      requires Valid(src[..]) && nextToUpdate - START <= ip && ip + MINMATCH <= iLimit < src.Length
      modifies this`nextToUpdate, hashTable, chainTable
      ensures Valid(src[..]) && nextToUpdate == ip + START
      ensures IsBest(src[..], ip, iLimit, Candidates(src[..], Earlier(src[..], ip), LowLimit(ip), maxNbAttempts),
                     ml, matchpos)
      ensures ml > 0 ==> ml >= MINMATCH && matchpos < ip && ip - matchpos <= MAX_DISTANCE
      ensures ml > 0 ==> ip + ml <= iLimit && Periodic(src[..], ip, ip + ml, ip - matchpos)
      ensures maxNbAttempts > Earlier(src[..], ip) - LowLimit(ip) ==>
                forall q: nat :: LowLimit(ip) <= q < ip ==> Agreement(src[..], q, ip, iLimit) <= ml
    {
      hide Valid, HashAt, LastWith, Earlier, LowLimit, IsBest, Candidates, Agreement;
      Insert(src, ip);
      ml, matchpos := WalkChain(src, ip, iLimit, maxNbAttempts);
      if maxNbAttempts > Earlier(src[..], ip) - LowLimit(ip) {
        LongestOfWindow(src[..], ip, iLimit, maxNbAttempts, ml, matchpos);
      }
    }

    /** The search along the chain, all positions below ip being inserted. */
    method WalkChain(src: array<byte>, ip: nat, iLimit: nat, maxNbAttempts: nat) returns (ml: nat, matchpos: nat)
      requires Valid(src[..]) && nextToUpdate == ip + START && ip + MINMATCH <= iLimit < src.Length
      ensures IsBest(src[..], ip, iLimit, Candidates(src[..], Earlier(src[..], ip), LowLimit(ip), maxNbAttempts),
                     ml, matchpos)
      ensures ml > 0 ==> ml >= MINMATCH && matchpos < ip && ip - matchpos <= MAX_DISTANCE
      ensures ml > 0 ==> ip + ml <= iLimit && Periodic(src[..], ip, ip + ml, ip - matchpos)
    {
      hide HashAt, Common, Candidates, Agreement, IsBest, Earlier, LastWith, Delta, Valid;
      ghost var text, lowest := src[..], LowLimit(ip);
      var lowLimit := if ip < MAXD then START else ip + START - MAX_DISTANCE;
      var matchIndex := FirstIndex(src, ip);
      var nbAttempts := maxNbAttempts;
      ml, matchpos := 0, 0;
      ghost var cur := Earlier(text, ip);
      ghost var seen: seq<nat> := [];
      BestOfNone(text, ip, iLimit);
      while matchIndex >= lowLimit && nbAttempts > 0
        invariant -1 <= cur < ip && Leads(matchIndex, cur, ip)
        invariant Candidates(text, Earlier(text, ip), lowest, maxNbAttempts) ==
                    seen + Candidates(text, cur, lowest, nbAttempts)
        invariant ip + ml <= iLimit && IsBest(text, ip, iLimit, seen, ml, matchpos)
        invariant ml > 0 ==> lowest <= matchpos
        decreases nbAttempts
      {
        var m := matchIndex - START;
        VisitOne(text, cur, lowest, nbAttempts);
        nbAttempts := nbAttempts - 1;
        var mlt := TryCandidate(src, m, ip, iLimit, ml);
        BestOfMore(text, ip, iLimit, seen, ml, matchpos, m, mlt);
        if mlt > ml { ml, matchpos := mlt, m; }
        matchIndex := NextIndex(src, m, ip);
        cur, seen := Earlier(text, m), seen + [m];
      }
      NoneLeft(text, cur, lowest, nbAttempts);
      assert seen + [] == seen;
      if ml > 0 { ReportedMatch(text, seen, matchpos, ip, iLimit, ml); }
    }
  }
}
