/** LZ4_compress_generic with the output limit checked: what LZ4_compress_default runs when the output buffer may be too
    small.  The check before a match allows for a 256th of its length, while the length bytes go by 255, and the token
    and offset of a match that follows directly are not checked; so on a long source a byte may be written behind the
    buffer.  Where the source would do so the methods stop with `Overrun`, and it is said when that cannot happen. */
module Lz4Limited {
  import opened Lz4Block
  import opened Lz4Memory
  import opened Lz4Emit
  import opened Lz4Search
  import Lz4Encoder

  /** The first length (beyond four) after which a directly following match may not fit. */
  const LONG_MATCH := 134655

  /** The first source on which that may happen. */
  const LONG_SOURCE := LONG_MATCH + 10

  // ---------------------------------------------------------------- the check

  /** The check before the length bytes of a match are written at op. */
  predicate Checked(op: nat, mlen: nat, limit: nat) { op + (1 + LASTLITERALS) + mlen / 256 <= limit }

  /** The length bytes fit, and `after` more. */
  predicate FitsWith(op: nat, mlen: nat, limit: nat, after: nat) { op + LenCost(mlen) + after <= limit }

  /** The check makes sure of the length bytes and `after` more, wherever the buffer ends, if and only if they are not
      more than it allows for. */
  lemma CheckSuffices(mlen: nat, after: nat)
    ensures (forall op: nat, limit: nat :: Checked(op, mlen, limit) ==> FitsWith(op, mlen, limit, after)) <==>
            LenCost(mlen) + after <= mlen / 256 + (1 + LASTLITERALS)
  {
    if LenCost(mlen) + after > mlen / 256 + (1 + LASTLITERALS) {
      var limit := mlen / 256 + (1 + LASTLITERALS);
      assert Checked(0, mlen, limit) && !FitsWith(0, mlen, limit, after);
    }
  }

  /** Shorter matches leave a token and an offset. */
  lemma CheckedRoom(op: nat, mlen: nat, limit: nat)
    requires Checked(op, mlen, limit) && mlen < LONG_MATCH
    ensures FitsWith(op, mlen, limit, 3)
  {
    assert LenCost(mlen) <= mlen / 256 + 3;
  }

  // ---------------------------------------------------------------- sequences

  datatype Emission = Written | GivenUp | Overrun

  /** What becomes of the length bytes of a match that are to be written at op. */
  function Outcome(op: nat, mlen: nat, limit: nat): Emission {
    if op > limit then Overrun
    else if !Checked(op, mlen, limit) then GivenUp
    else if FitsWith(op, mlen, limit, 0) then Written
    else Overrun
  }

  /** What a sequence written within the limit leaves: in a short source the next token and offset fit unchecked. */
  predicate LeavesRoom(op: nat, limit: nat, n: nat) { n < LONG_SOURCE ==> op + 3 <= limit }

  /** Offset and match length for the match at ip; given up when they would come too near the limit. */
  method EmitMatch(src: array<byte>, dst: array<byte>, token: nat, op0: nat, anchor: nat, ip0: nat, m: nat,
                   ghost found: nat, ghost qs0: seq<Sequence>)
      returns (done: Emission, op: nat, ip: nat, ghost qs: seq<Sequence>)
    requires src != dst && (src.Length < LONG_SOURCE ==> op0 + 2 <= dst.Length)
    requires Pending(src[..], dst[..], qs0, token, op0, anchor, ip0)
    requires m < ip0 <= found && ip0 - m <= MAX_DISTANCE && found + MFLIMIT <= src.Length
    requires Periodic(src[..], ip0, found + MINMATCH, ip0 - m)
    modifies dst
    ensures done == Outcome(op0 + 2, FullLength(src[..], m, ip0), dst.Length)
    ensures done == Overrun ==> src.Length >= LONG_SOURCE
    ensures done == Written ==>
              var mlen := FullLength(src[..], m, ip0); ip == ip0 + MINMATCH + mlen && op == op0 + 2 + LenCost(mlen)
    ensures done == Written ==>
              found + MINMATCH <= ip && Progress(src[..], dst[..], qs, op, ip) && Clear(qs, ip, src.Length)
    ensures done == Written ==> LeavesRoom(op, dst.Length, src.Length)
    ensures done == Written ==> (ip == src.Length - LASTLITERALS || src[ip] != src[ip - (ip0 - m)])
  {
    hide Valid, Expand, Encode, LiteralBytes, Common;
    done, op, ip, qs := Overrun, op0, ip0, qs0;
    if op0 + 2 > dst.Length { return; }
    var mlen := Count(src, ip0 + MINMATCH, m + MINMATCH, src.Length - LASTLITERALS);
    CommonIs(src[..], m + MINMATCH, ip0 + MINMATCH, src.Length - LASTLITERALS, mlen);
    if op0 + 2 + (1 + LASTLITERALS) + mlen / 256 > dst.Length {
      done := GivenUp;
      return;
    }
    if mlen < LONG_MATCH { CheckedRoom(op0 + 2, mlen, dst.Length); }
    if op0 + 2 + LenCost(mlen) > dst.Length { return; }
    op, qs := EndSequence(src, dst, token, op0, anchor, ip0, m, mlen, true, qs0);
    done, ip := Written, ip0 + MINMATCH + mlen;
  }

  /** From a found match: writes its sequence, and those of matches that follow it directly. */
  method EmitChain(src: array<byte>, dst: array<byte>, table: array<nat>, tt: TableType,
                   token0: nat, op0: nat, anchor0: nat, ip0: nat, m0: nat, ghost found0: nat, ghost qs0: seq<Sequence>)
      returns (done: Emission, op: nat, anchor: nat, atEnd: bool, ghost qs: seq<Sequence>)
    requires src != dst && op0 + 2 <= dst.Length
    requires table.Length == TableSize(tt) && (tt.ByU16? ==> src.Length < LZ4_64KLIMIT)
    requires Pending(src[..], dst[..], qs0, token0, op0, anchor0, ip0)
    requires m0 < ip0 <= found0 && ip0 - m0 <= MAX_DISTANCE && found0 + MFLIMIT <= src.Length
    requires Periodic(src[..], ip0, found0 + MINMATCH, ip0 - m0) && Below(table, found0 + 1)
    modifies dst, table
    ensures done == Overrun ==> src.Length >= LONG_SOURCE
    ensures var mlen := FullLength(src[..], m0, ip0);
            var first := Outcome(op0 + 2, mlen, dst.Length);
            && (first != Written ==> done == first)
            && (first == Written && ip0 + MINMATCH + mlen > src.Length - MFLIMIT ==>
                  done == Written && atEnd && anchor == ip0 + MINMATCH + mlen && op == op0 + 2 + LenCost(mlen))
    ensures done == Written ==>
              Progress(src[..], dst[..], qs, op, anchor) && Clear(qs, anchor, src.Length) && anchor > found0
    ensures done == Written && !atEnd ==> anchor + MFLIMIT <= src.Length && Below(table, anchor + 1)
  {
    hide Valid, Expand, Encode, Clear, Progress;
    var token, ip, m := token0, ip0, m0;
    ghost var found := found0;
    done, op, anchor, atEnd, qs := Written, op0, anchor0, false, qs0;
    while true
      invariant Pending(src[..], dst[..], qs, token, op, anchor, ip)
      invariant src.Length < LONG_SOURCE ==> op + 2 <= dst.Length
      invariant 0 <= m < ip <= found && ip - m <= MAX_DISTANCE && found + MFLIMIT <= src.Length && found0 <= found
      invariant Periodic(src[..], ip, found + MINMATCH, ip - m) && Below(table, found + 1)
      invariant (ip == ip0 && m == m0 && op == op0)
                || (Outcome(op0 + 2, FullLength(src[..], m0, ip0), dst.Length) == Written
                    && ip0 + MINMATCH + FullLength(src[..], m0, ip0) <= src.Length - MFLIMIT)
      decreases src.Length - ip
    {
      done, op, ip, qs := EmitMatch(src, dst, token, op, anchor, ip, m, found, qs);
      if done != Written { return; }
      anchor := ip;
      if ip > src.Length - MFLIMIT {
        atEnd := true;
        return;
      }
      var again;
      again, m := Lz4Encoder.NextMatch(src, table, tt, ip);
      if !again { return; }
      if op >= dst.Length {
        done := Overrun;
        return;
      }
      token := op;
      op := StartEmptySequence(src, dst, op, ip, qs);
      found := ip;
    }
  }

  // ---------------------------------------------------------------- whole sources

  /** In a source of n equal bytes one match covers all but the first and the last five; its length bytes pass the check
      and do not fit. */
  predicate UniformOverrun(n: nat, limit: nat) {
    n >= LZ4_MINLENGTH && Checked(4, n - 10, limit) && !FitsWith(4, n - 10, limit, 0)
  }

  /** 330505 equal bytes into a buffer of 1300. */
  lemma CheckMissed()
    ensures UniformOverrun(330505, 1300) && 1300 < CompressBound(330505)
  {
  }

  /** What becomes of that match, whose token and literal take the first two bytes. */
  function UniformOutcome(n: nat, limit: nat): Emission {
    if n <= LZ4_MINLENGTH then Written else if limit < 10 then GivenUp else Outcome(4, n - 10, limit)
  }

  lemma UniformOutcomeIs(n: nat, limit: nat)
    ensures UniformOutcome(n, limit) == Overrun <==> UniformOverrun(n, limit)
    ensures n <= LZ4_MINLENGTH ==> UniformOutcome(n, limit) == Written
    ensures n > LZ4_MINLENGTH ==> (UniformOutcome(n, limit) == GivenUp <==> !Checked(4, n - 10, limit))
  {
  }

  /** One round of the main loop: a match is searched and written, and those that follow it directly.  In a source of
      equal bytes the first round is the last, as it is where nothing comes twice. */
  method CompressRound(src: array<byte>, dst: array<byte>, table: array<nat>, tt: TableType,
                       op0: nat, anchor0: nat, ip0: nat, ghost qs0: seq<Sequence>)
      returns (done: Emission, op: nat, anchor: nat, atEnd: bool, ghost qs: seq<Sequence>)
    requires src != dst && table.Length == TableSize(tt) && (tt.ByU16? ==> src.Length < LZ4_64KLIMIT)
    requires Progress(src[..], dst[..], qs0, op0, anchor0) && Clear(qs0, anchor0, src.Length)
    requires anchor0 <= ip0 && ip0 + 8 <= src.Length && Below(table, ip0)
    modifies dst, table
    ensures done == Overrun ==> src.Length >= LONG_SOURCE
    ensures done == Written ==> Progress(src[..], dst[..], qs, op, anchor) && Clear(qs, anchor, src.Length)
    ensures done == Written && !atEnd ==>
              anchor > ip0 && anchor + MFLIMIT <= src.Length && Below(table, anchor + 1)
    ensures NoRepeats(src[..]) || ip0 + MFLIMIT >= src.Length ==>
              done == Written && atEnd && op == op0 && anchor == anchor0
    ensures Uniform(src[..]) && src.Length > LZ4_MINLENGTH && old(FirstRound(op0, anchor0, ip0, table)) ==>
              done == UniformOutcome(src.Length, dst.Length)
              && (done == Written ==>
                    atEnd && op == 4 + LenCost(src.Length - 10) && anchor == src.Length - LASTLITERALS)
  {
    hide Progress, Clear, FullLength, Outcome;
    ghost var uniform := Uniform(src[..]) && src.Length > LZ4_MINLENGTH && FirstRound(op0, anchor0, ip0, table);
    if uniform {
      UniformLength(src[..]);
      UniformMatches(src[..], table, tt, ip0);
    }
    hide Uniform, SlotFor, MatchAt, FirstRound, SlotOf, FirstHit, Hit, Probed;
    done, op, anchor, atEnd, qs := Written, op0, anchor0, true, qs0;
    var found, foundIp, m := FindMatch(src, table, tt, ip0);
    if !found { return; }
    MatchFacts(src[..], foundIp, m);
    var ip;
    ip, m := CatchUp(src, foundIp, m, anchor);
    var litLength := ip - anchor;
    if op + 1 + litLength + (2 + 1 + LASTLITERALS) + litLength / 255 > dst.Length {
      done := GivenUp;
      return;
    }
    hide NoRepeats;
    var token := op;
    op := StartSequence(src, dst, op, anchor, ip, qs);
    done, op, anchor, atEnd, qs := EmitChain(src, dst, table, tt, token, op, anchor, ip, m, foundIp, qs);
  }

  /** What a compression of n equal bytes ends in: it overruns exactly where the check is passed by length bytes that do
      not fit, and yields nothing exactly where the check fails or the last literals do not fit. */
  predicate UniformResult(n: nat, limit: nat, r: nat, overrun: bool) {
    && (overrun <==> UniformOverrun(n, limit))
    && (!overrun ==>
          r == if (n > LZ4_MINLENGTH ==> Checked(4, n - 10, limit)) && UniformSize(n) <= limit then UniformSize(n)
               else 0)
  }

  /** The result is 0 or the length of a block of the whole source, and every byte written is inside the buffer, unless
      the source is long and the method stops with `overrun`; exactly when it does so on a source of equal bytes. */
  method CompressLimited(src: array<byte>, dst: array<byte>, tt: TableType) returns (r: nat, overrun: bool)
    requires src != dst
    modifies dst
    ensures overrun ==> src.Length >= LONG_SOURCE
    ensures src.Length > LZ4_MAX_INPUT_SIZE || (tt.ByU16? && src.Length >= LZ4_64KLIMIT) ==> r == 0 && !overrun
    ensures !overrun ==> r <= dst.Length && (r > 0 ==> IsBlockOf(dst[..r], src[..]))
    ensures src.Length <= LZ4_MAX_INPUT_SIZE && (tt.ByU16? ==> src.Length < LZ4_64KLIMIT) ==>
              (Uniform(src[..]) ==> UniformResult(src.Length, dst.Length, r, overrun))
              && (NoRepeats(src[..]) ==>
                    !overrun && r == if LiteralSize(src.Length) <= dst.Length then LiteralSize(src.Length) else 0)
  {
    hide IsBlockOf, EncodeSeq, LiteralBytes, CopyMatch, UniformOutcome, UniformOverrun, Uniform;
    overrun := false;
    if src.Length > LZ4_MAX_INPUT_SIZE { return 0, false; }
    if tt.ByU16? && src.Length >= LZ4_64KLIMIT { return 0, false; }
    UniformOutcomeIs(src.Length, dst.Length);
    hide Checked;
    var op: nat, anchor: nat := 0, 0;
    ghost var qs: seq<Sequence> := [];
    if src.Length >= LZ4_MINLENGTH {
      var table := new nat[TableSize(tt)](_ => 0);
      PutPosition(src, table, tt, 0);
      var ip := 1;
      var atEnd := false;
      while !atEnd
        invariant Progress(src[..], dst[..], qs, op, anchor) && Clear(qs, anchor, src.Length)
        invariant !atEnd ==> anchor <= ip && ip + 8 <= src.Length && Below(table, ip)
        invariant table.Length == TableSize(tt) && fresh(table)
        invariant Uniform(src[..]) ==>
                    if !atEnd then FirstRound(op, anchor, ip, table)
                    else if src.Length == LZ4_MINLENGTH then op == anchor == 0
                    else UniformOutcome(src.Length, dst.Length) == Written && op == 4 + LenCost(src.Length - 10)
                         && anchor == src.Length - LASTLITERALS
        invariant NoRepeats(src[..]) ==> op == anchor == 0
        decreases !atEnd, src.Length - ip
      {
        hide Progress, Clear, AllZero;
        var done;
        done, op, anchor, atEnd, qs := CompressRound(src, dst, table, tt, op, anchor, ip, qs);
        if done != Written { return 0, done == Overrun; }
        ip := anchor + 1;
      }
    }
    var lastRun := src.Length - anchor;
    if op + lastRun + 1 + (lastRun + 255 - RUN_MASK) / 255 > dst.Length { return 0, false; }
    r := Finish(src, dst, op, anchor, lastRun, qs);
    assert src[..src.Length] == src[..];
  }

  /** LZ4_compress_default: 0 where it fails, else the length of a block of the source; it never fails when the
      output buffer has at least LZ4_compressBound bytes. */
  method CompressDefault(src: array<byte>, dst: array<byte>) returns (r: nat, overrun: bool)
    requires src != dst
    modifies dst
    ensures overrun ==> src.Length >= LONG_SOURCE && dst.Length < CompressBound(src.Length)
    ensures src.Length > LZ4_MAX_INPUT_SIZE ==> r == 0 && !overrun
    ensures !overrun ==> r <= dst.Length && (r > 0 ==> IsBlockOf(dst[..r], src[..]))
    ensures src.Length <= LZ4_MAX_INPUT_SIZE && dst.Length >= CompressBound(src.Length) ==>
              0 < r <= CompressBound(src.Length)
    ensures src.Length <= LZ4_MAX_INPUT_SIZE ==>
              if dst.Length >= CompressBound(src.Length) then Uniform(src[..]) ==> r == UniformSize(src.Length)
              else Uniform(src[..]) ==> UniformResult(src.Length, dst.Length, r, overrun)
    ensures src.Length <= LZ4_MAX_INPUT_SIZE && NoRepeats(src[..]) ==>
              !overrun && r == if LiteralSize(src.Length) <= dst.Length then LiteralSize(src.Length) else 0
  {
    if dst.Length >= CompressBound(src.Length) {
      r := Lz4Encoder.CompressUnlimited(src, dst);
      overrun := false;
      if src.Length <= LZ4_MAX_INPUT_SIZE { BlockIsNotEmpty(dst[..r], src[..]); }
    } else {
      r, overrun := CompressLimited(src, dst, if src.Length < LZ4_64KLIMIT then ByU16 else ByU32);
    }
  }

  lemma BlockIsNotEmpty(block: seq<byte>, text: seq<byte>)
    requires IsBlockOf(block, text)
    ensures |block| > 0
  {
  }
}
