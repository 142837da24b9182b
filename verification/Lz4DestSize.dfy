/** LZ4_compress_destSize: as much of the source as an output buffer of given size can hold. */
module Lz4DestSize {
  import opened Lz4Block
  import opened Lz4Memory
  import opened Lz4Emit
  import opened Lz4Search
  import Lz4Encoder

  /** What a written sequence leaves of an output buffer of `target` bytes: a token and five
      literals, and eight literals when the match is short. */
  ghost predicate LeavesRoom(qs: seq<Sequence>, op: nat, target: nat) {
    if qs == [] then op == 0
    else op <= target - (LASTLITERALS + 1) && (qs[|qs| - 1].mlen < ML_MASK ==> op <= target - 9)
  }

  /** The longest run of last literals that fits after op. */
  function AdaptedRun(room: nat): (r: nat)
    ensures r <= room && 1 + LenCost(r) + r <= room + 1
    ensures room < 15 ==> r == room
    ensures room >= 15 ==> r >= 14
  {
    room - LenCost(room)
  }

  /** What it leaves of the room: it is made for the length bytes of the whole room, but may need fewer. */
  function Unfilled(room: nat): int { LenCost(room) - LenCost(AdaptedRun(room)) }

  /** The room is filled if and only if the last length byte is at least the number of length bytes. */
  lemma FillsExactly(room: nat)
    ensures 0 <= Unfilled(room) <= 1 + room / 65025
    ensures Unfilled(room) == 0 <==> (room + 240) % 255 >= LenCost(room)
  {
    var c, e := (room + 240) / 255, (room + 240) % 255;
    assert room + 240 == 255 * c + e;
    UnfilledIs(c, e);
    assert (room - c + 240) / 255 == c + (e - c) / 255;
  }

  lemma UnfilledIs(c: nat, e: nat)
    requires e < 255
    ensures (255 * c + e - c) / 255 == c + (e - c) / 255
  {
  }

  /** Whatever part of the source was consumed, and how much of the buffer it takes. */
  ghost predicate Filled(written: nat, consumed: nat, n: nat, target: nat) {
    consumed == n || exists room: nat :: room < target && written == target - Unfilled(room)
  }

  /** Sixteen different bytes, of which a buffer of sixteen takes fourteen and leaves a byte free. */
  lemma FillMissed()
    ensures var src: seq<byte> := [0, 1, 2, 3, 4, 5, 6, 7, 8, 9, 10, 11, 12, 13, 14, 15];
            NoRepeats(src) && 16 < CompressBound(|src|) && LiteralSize(16) > 16 && Unfilled(16 - 1) == 1
  {
    var src: seq<byte> := [0, 1, 2, 3, 4, 5, 6, 7, 8, 9, 10, 11, 12, 13, 14, 15];
    forall ip: nat, m: nat ensures !MatchAt(src, ip, m) {
      if m < ip && ip + MFLIMIT <= |src| { assert src[ip] != src[ip - (ip - m)]; }
    }
  }

  /** How far a match goes beyond its four bytes that could go on for `full`, with its length bytes written at op. */
  function Shortened(op: nat, full: nat, target: nat): nat
    requires op <= target - (LASTLITERALS + 1)
  {
    if op + LenCost(full) > target - (LASTLITERALS + 1) then 14 + (target - (LASTLITERALS + 1) - op) * 255 else full
  }

  /** How much of n equal bytes a buffer takes. */
  function UniformConsumed(n: nat, target: nat): nat
    requires target >= 1
  {
    if n > LZ4_MINLENGTH && target >= 13 then
      if UniformSize(n) <= target then n else 24 + (target - 10) * 255
    else if LiteralSize(n) <= target then n else AdaptedRun(target - 1)
  }

  /** The only round for n equal bytes. */
  predicate UniformRound(n: nat, target: nat, op: nat, anchor: nat)
    requires n > LZ4_MINLENGTH
  {
    if target < 13 then op == anchor == 0
    else
      var mlen := Shortened(4, n - 10, target);
      op == 4 + LenCost(mlen) && anchor == 5 + mlen
  }

  /** It ends at the last five bytes or leaves room for six. */
  lemma UniformShortened(n: nat, target: nat)
    requires n > LZ4_MINLENGTH && target >= 13
    ensures var mlen := Shortened(4, n - 10, target);
            && UniformRound(n, target, 4 + LenCost(mlen), 5 + mlen)
            && (mlen == n - 10 || 4 + LenCost(mlen) == target - 6)
    ensures UniformSize(n) <= target ==> Shortened(4, n - 10, target) == n - 10
    ensures UniformSize(n) > target ==> 5 + Shortened(4, n - 10, target) + 5 == UniformConsumed(n, target) < n
  {
  }

  lemma UniformNoRoom(n: nat, target: nat)
    requires n > LZ4_MINLENGTH && target < 13
    ensures UniformRound(n, target, 0, 0)
  {
  }

  /** Offset and match length, the match shortened when its description would not fit. */
  method EmitMatch(src: array<byte>, dst: array<byte>, token: nat, op0: nat, anchor: nat, ip0: nat, m: nat,
                   ghost found: nat, ghost qs0: seq<Sequence>) returns (op: nat, ip: nat, ghost qs: seq<Sequence>)
    requires src != dst && op0 <= dst.Length - 11
    requires Pending(src[..], dst[..], qs0, token, op0, anchor, ip0)
    requires m < ip0 <= found && ip0 - m <= MAX_DISTANCE && found + MFLIMIT <= src.Length
    requires Periodic(src[..], ip0, found + MINMATCH, ip0 - m)
    modifies dst
    ensures ip0 < ip && Progress(src[..], dst[..], qs, op, ip) && Clear(qs, ip, src.Length)
    ensures qs != [] && LeavesRoom(qs, op, dst.Length)
    ensures found + MINMATCH <= ip || op > dst.Length - 12
    ensures var mlen := Shortened(op0 + 2, FullLength(src[..], m, ip0), dst.Length);
            ip == ip0 + MINMATCH + mlen && op == op0 + 2 + LenCost(mlen)
  {
    hide Valid, Expand, Encode, LiteralBytes, Common;
    var oMaxMatch := dst.Length - (LASTLITERALS + 1);
    var mlen := Count(src, ip0 + MINMATCH, m + MINMATCH, src.Length - LASTLITERALS);
    CommonIs(src[..], m + MINMATCH, ip0 + MINMATCH, src.Length - LASTLITERALS, mlen);
    if op0 + 2 + LenCost(mlen) > oMaxMatch {
      mlen := (15 - 1) + (oMaxMatch - (op0 + 2)) * 255;
    }
    op, qs := EndSequence(src, dst, token, op0, anchor, ip0, m, mlen, false, qs0);
    ip := ip0 + MINMATCH + mlen;
  }

  /** From a found match: writes its sequence, and those of matches that follow it directly. */
  method EmitChain(src: array<byte>, dst: array<byte>, table: array<nat>, tt: TableType,
                   token0: nat, op0: nat, anchor0: nat, ip0: nat, m0: nat, ghost found0: nat, ghost qs0: seq<Sequence>)
      returns (op: nat, anchor: nat, atEnd: bool, ghost qs: seq<Sequence>)
    requires src != dst && op0 <= dst.Length - 11
    requires table.Length == TableSize(tt) && (tt.ByU16? ==> src.Length < LZ4_64KLIMIT)
    requires Pending(src[..], dst[..], qs0, token0, op0, anchor0, ip0)
    requires m0 < ip0 <= found0 && ip0 - m0 <= MAX_DISTANCE && found0 + MFLIMIT <= src.Length
    requires Periodic(src[..], ip0, found0 + MINMATCH, ip0 - m0) && Below(table, found0 + 1)
    modifies dst, table
    ensures Progress(src[..], dst[..], qs, op, anchor) && Clear(qs, anchor, src.Length)
    ensures qs != [] && LeavesRoom(qs, op, dst.Length)
    ensures !atEnd ==> found0 < anchor && anchor + MFLIMIT <= src.Length && Below(table, anchor + 1)
    ensures var mlen := Shortened(op0 + 2, FullLength(src[..], m0, ip0), dst.Length);
            ip0 + MINMATCH + mlen > src.Length - MFLIMIT || op0 + 2 + LenCost(mlen) > dst.Length - 12 ==>
              atEnd && anchor == ip0 + MINMATCH + mlen && op == op0 + 2 + LenCost(mlen)
  {
    hide Valid, Expand, Encode, Clear, Progress, LeavesRoom, FullLength, Shortened;
    var token, ip, m := token0, ip0, m0;
    ghost var found := found0;
    op, anchor, qs := op0, anchor0, qs0;
    while true
      invariant Pending(src[..], dst[..], qs, token, op, anchor, ip) && op <= dst.Length - 11
      invariant 0 <= m < ip <= found && ip - m <= MAX_DISTANCE && found + MFLIMIT <= src.Length && found0 <= found
      invariant Periodic(src[..], ip, found + MINMATCH, ip - m) && Below(table, found + 1)
      invariant (ip == ip0 && m == m0 && op == op0)
                || (var mlen := Shortened(op0 + 2, FullLength(src[..], m0, ip0), dst.Length);
                    ip0 + MINMATCH + mlen <= src.Length - MFLIMIT && op0 + 2 + LenCost(mlen) <= dst.Length - 12)
      decreases src.Length - ip
    {
      op, ip, qs := EmitMatch(src, dst, token, op, anchor, ip, m, found, qs);
      anchor := ip;
      if ip > src.Length - MFLIMIT { return op, anchor, true, qs; }
      if op > dst.Length - 12 { return op, anchor, true, qs; }
      var again;
      again, m := Lz4Encoder.NextMatch(src, table, tt, ip);
      if !again { return op, anchor, false, qs; }
      token := op;
      op := StartEmptySequence(src, dst, op, ip, qs);
      found := ip;
    }
  }

  /** The end of the block: all remaining literals, or as many as fit. */
  method LastLiterals(src: array<byte>, dst: array<byte>, op: nat, anchor: nat, ghost qs: seq<Sequence>)
      returns (written: nat, consumed: nat)
    requires src != dst && dst.Length >= 1
    requires Progress(src[..], dst[..], qs, op, anchor) && Clear(qs, anchor, src.Length)
             && LeavesRoom(qs, op, dst.Length)
    modifies dst
    ensures written <= dst.Length && consumed <= src.Length && IsBlockOf(dst[..written], src[..consumed])
    ensures consumed < src.Length ==>
              op < dst.Length && written == dst.Length - Unfilled(dst.Length - op - 1)
              && consumed == anchor + AdaptedRun(dst.Length - op - 1)
    ensures consumed == src.Length <==> op + 1 + LenCost(src.Length - anchor) + (src.Length - anchor) <= dst.Length
  {
    hide Valid, Expand, Encode;
    var run := src.Length - anchor;
    if op + 1 + LenCost(run) + run > dst.Length {
      run := AdaptedRun(dst.Length - op - 1);
    }
    written := Finish(src, dst, op, anchor, run, qs);
    consumed := anchor + run;
  }

  /** One round of the main loop: the next match, and those that follow it directly, or nothing more to find or no room
      for it. */
  method CompressRound(src: array<byte>, dst: array<byte>, table: array<nat>, tt: TableType,
                       op0: nat, anchor0: nat, ip0: nat, ghost qs0: seq<Sequence>)
      returns (op: nat, anchor: nat, atEnd: bool, ghost qs: seq<Sequence>)
    requires src != dst && table.Length == TableSize(tt) && (tt.ByU16? ==> src.Length < LZ4_64KLIMIT)
    requires Progress(src[..], dst[..], qs0, op0, anchor0) && Clear(qs0, anchor0, src.Length)
    requires LeavesRoom(qs0, op0, dst.Length)
    requires anchor0 <= ip0 && ip0 + 8 <= src.Length && Below(table, ip0)
    modifies dst, table
    ensures Progress(src[..], dst[..], qs, op, anchor) && Clear(qs, anchor, src.Length)
    ensures LeavesRoom(qs, op, dst.Length)
    ensures !atEnd ==> anchor > ip0 && anchor + MFLIMIT <= src.Length && Below(table, anchor + 1)
    ensures NoRepeats(src[..]) || ip0 + MFLIMIT >= src.Length ==> atEnd && op == op0 && anchor == anchor0
    ensures Uniform(src[..]) && src.Length > LZ4_MINLENGTH && old(FirstRound(op0, anchor0, ip0, table)) ==>
              atEnd && UniformRound(src.Length, dst.Length, op, anchor)
  {
    hide Progress, Clear, LeavesRoom, FullLength;
    ghost var uniform := Uniform(src[..]) && src.Length > LZ4_MINLENGTH && FirstRound(op0, anchor0, ip0, table);
    if uniform {
      UniformLength(src[..]);
      UniformMatches(src[..], table, tt, ip0);
      if dst.Length >= 13 { UniformShortened(src.Length, dst.Length); } else { UniformNoRoom(src.Length, dst.Length); }
    }
    hide Uniform, SlotOf, SlotFor, MatchAt, FirstRound, FirstHit, Hit, Probed, UniformRound, Shortened,
         Valid, Expand, Encode, Pending;
    op, anchor, atEnd, qs := op0, anchor0, true, qs0;
    var found, foundIp, m := FindMatch(src, table, tt, ip0);
    if !found { return; }
    MatchFacts(src[..], foundIp, m);
    hide NoRepeats;
    var ip;
    ip, m := CatchUp(src, foundIp, m, anchor);
    if op + 1 + LenCost(ip - anchor) + (ip - anchor) > dst.Length - 11 { return; }
    var token := op;
    op := StartSequence(src, dst, op, anchor, ip, qs);
    op, anchor, atEnd, qs := EmitChain(src, dst, table, tt, token, op, anchor, ip, m, foundIp, qs);
  }

  method CompressDestSizeGeneric(src: array<byte>, dst: array<byte>, tt: TableType)
      returns (written: nat, consumed: nat)
    requires src != dst
    modifies dst
    ensures dst.Length < 1 || src.Length > LZ4_MAX_INPUT_SIZE || (tt.ByU16? && src.Length >= LZ4_64KLIMIT) ==>
              written == 0 && consumed == src.Length
    ensures dst.Length >= 1 && src.Length <= LZ4_MAX_INPUT_SIZE && (tt.ByU16? ==> src.Length < LZ4_64KLIMIT) ==>
              written <= dst.Length && consumed <= src.Length && IsBlockOf(dst[..written], src[..consumed])
              && Filled(written, consumed, src.Length, dst.Length)
              && (Uniform(src[..]) ==> consumed == UniformConsumed(src.Length, dst.Length))
              && (NoRepeats(src[..]) ==>
                    if LiteralSize(src.Length) <= dst.Length then consumed == src.Length
                    else consumed == AdaptedRun(dst.Length - 1) && written == dst.Length - Unfilled(dst.Length - 1))
  {
    hide AdaptedRun, Unfilled, IsBlockOf, EncodeSeq, LiteralBytes, CopyMatch, MatchAt;
    if dst.Length < 1 { return 0, src.Length; }
    if src.Length > LZ4_MAX_INPUT_SIZE { return 0, src.Length; }
    if tt.ByU16? && src.Length >= LZ4_64KLIMIT { return 0, src.Length; }
    var op: nat, anchor: nat := 0, 0;
    ghost var qs: seq<Sequence> := [];
    if src.Length >= LZ4_MINLENGTH {
      var table := new nat[TableSize(tt)](_ => 0);
      PutPosition(src, table, tt, 0);
      var ip := 1;
      var atEnd := false;
      while !atEnd
        invariant Progress(src[..], dst[..], qs, op, anchor) && Clear(qs, anchor, src.Length)
        invariant LeavesRoom(qs, op, dst.Length)
        invariant !atEnd ==> anchor <= ip && ip + 8 <= src.Length && Below(table, ip)
        invariant table.Length == TableSize(tt) && fresh(table)
        invariant NoRepeats(src[..]) ==> op == 0 && anchor == 0
        invariant Uniform(src[..]) ==>
                    if !atEnd then FirstRound(op, anchor, ip, table)
                    else if src.Length == LZ4_MINLENGTH then op == anchor == 0
                    else UniformRound(src.Length, dst.Length, op, anchor)
        decreases !atEnd, src.Length - ip
      {
        hide Progress, Clear, LeavesRoom, NoRepeats, UniformRound;
        op, anchor, atEnd, qs := CompressRound(src, dst, table, tt, op, anchor, ip, qs);
        ip := anchor + 1;
      }
    }
    if src.Length > LZ4_MINLENGTH && dst.Length >= 13 { UniformShortened(src.Length, dst.Length); }
    written, consumed := LastLiterals(src, dst, op, anchor, qs);
  }

  /** LZ4_compress_destSize.  An output buffer of compressBound bytes takes the whole source. */
  method CompressDestSize(src: array<byte>, dst: array<byte>) returns (written: nat, consumed: nat)
    requires src != dst
    modifies dst
    ensures dst.Length >= 1 && src.Length <= LZ4_MAX_INPUT_SIZE ==>
              written <= dst.Length && consumed <= src.Length && IsBlockOf(dst[..written], src[..consumed])
              && Filled(written, consumed, src.Length, dst.Length)
    ensures 1 <= dst.Length < CompressBound(src.Length) && Uniform(src[..]) ==>
              consumed == UniformConsumed(src.Length, dst.Length)
    ensures 1 <= dst.Length < CompressBound(src.Length) && NoRepeats(src[..]) ==>
              if LiteralSize(src.Length) <= dst.Length then consumed == src.Length
              else consumed == AdaptedRun(dst.Length - 1) && written == dst.Length - Unfilled(dst.Length - 1)
    ensures src.Length <= LZ4_MAX_INPUT_SIZE && dst.Length >= CompressBound(src.Length) ==> consumed == src.Length
  {
    if dst.Length >= CompressBound(src.Length) {
      written := Lz4Encoder.CompressUnlimited(src, dst);
      consumed := src.Length;
      assert src[..consumed] == src[..];
    } else if src.Length < LZ4_64KLIMIT {
      written, consumed := CompressDestSizeGeneric(src, dst, ByU16);
    } else {
      written, consumed := CompressDestSizeGeneric(src, dst, ByU32);
    }
  }
}
