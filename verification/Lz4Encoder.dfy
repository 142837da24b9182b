/** LZ4_compress_generic without output limit, dictionary or acceleration: what
    LZ4_compress_default runs when the output buffer has at least LZ4_compressBound bytes. */
module Lz4Encoder {
  import opened Lz4Block
  import opened Lz4Memory
  import opened Lz4Emit
  import opened Lz4Search

  /** Sequences never cost more than 256 bytes for each 255 bytes of source. */
  predicate WithinBudget(op: nat, anchor: nat) { 255 * op <= 256 * anchor }

  lemma SequenceBudget(op: nat, anchor: nat, litLen: nat, mlen: nat)
    requires WithinBudget(op, anchor)
    ensures WithinBudget(op + 1 + LenCost(litLen) + litLen + 2 + LenCost(mlen), anchor + litLen + MINMATCH + mlen)
  {
    assert 255 * LenCost(litLen) <= if litLen < 15 then 0 else litLen + 240;
    assert 255 * LenCost(mlen) <= if mlen < 15 then 0 else mlen + 240;
  }

  /** Literals up to position ip fit, with the eight bytes the wild copy may add. */
  lemma LiteralBudget(op: nat, anchor: nat, ip: nat, n: nat)
    requires WithinBudget(op, anchor) && anchor <= ip && ip + MFLIMIT <= n <= LZ4_MAX_INPUT_SIZE
    ensures op + 1 + LenCost(ip - anchor) + (ip - anchor) + 8 <= CompressBound(n)
  {
    assert 255 * LenCost(ip - anchor) <= (ip - anchor) + 240;
  }

  lemma LastBudget(op: nat, anchor: nat, n: nat)
    requires WithinBudget(op, anchor) && anchor <= n <= LZ4_MAX_INPUT_SIZE
    ensures op + 1 + LenCost(n - anchor) + (n - anchor) <= CompressBound(n)
  {
    assert 255 * LenCost(n - anchor) <= (n - anchor) + 240;
  }

  /** Offset and match length for the match at ip, which runs at least to `found`; its full length
      is counted here. */
  method EmitMatch(src: array<byte>, dst: array<byte>, token: nat, op0: nat, anchor: nat, ip0: nat, m: nat,
                   ghost found: nat, ghost qs0: seq<Sequence>) returns (op: nat, ip: nat, ghost qs: seq<Sequence>)
    requires src != dst && src.Length <= LZ4_MAX_INPUT_SIZE && dst.Length >= CompressBound(src.Length)
    requires Pending(src[..], dst[..], qs0, token, op0, anchor, ip0) && WithinBudget(token, anchor)
    requires m < ip0 <= found && ip0 - m <= MAX_DISTANCE && found + MFLIMIT <= src.Length
    requires Periodic(src[..], ip0, found + MINMATCH, ip0 - m)
    modifies dst
    ensures ip0 < ip <= src.Length - LASTLITERALS
    ensures ip == src.Length - LASTLITERALS || src[ip] != src[ip - (ip0 - m)]
    ensures found + MINMATCH <= ip && Progress(src[..], dst[..], qs, op, ip) && Clear(qs, ip, src.Length)
            && WithinBudget(op, ip)
    ensures var mlen := FullLength(src[..], m, ip0); ip == ip0 + MINMATCH + mlen && op == op0 + 2 + LenCost(mlen)
    ensures KeepsFrom(dst, CompressBound(src.Length))
  {
    hide Valid, Expand, Encode, LiteralBytes, Common;
    var mlen := Count(src, ip0 + MINMATCH, m + MINMATCH, src.Length - LASTLITERALS);
    CommonIs(src[..], m + MINMATCH, ip0 + MINMATCH, src.Length - LASTLITERALS, mlen);
    SequenceBudget(token, anchor, ip0 - anchor, mlen);
    PendingSize(src[..], dst[..], qs0, token, op0, anchor, ip0);
    op, qs := EndSequence(src, dst, token, op0, anchor, ip0, m, mlen, true, qs0);
    ip := ip0 + MINMATCH + mlen;
  }

  lemma PendingSize(src: seq<byte>, dst: seq<byte>, qs: seq<Sequence>, token: nat, op: nat, anchor: nat, ip: nat)
    requires Pending(src, dst, qs, token, op, anchor, ip)
    ensures op == token + 1 + LenCost(ip - anchor) + (ip - anchor)
  {
    assert |dst[..op]| == op;
  }

  /** After a sequence: fills the table and tests whether another match starts right here. */
  method NextMatch(src: array<byte>, table: array<nat>, tt: TableType, ip: nat) returns (again: bool, m: nat)
    requires table.Length == TableSize(tt) && (tt.ByU16? ==> src.Length < LZ4_64KLIMIT)
    requires 2 <= ip && ip + MFLIMIT <= src.Length && Below(table, ip - 1)
    modifies table
    ensures again <==> MatchAt(src[..], ip, m)
    ensures m == if SlotOf(src[..], tt, ip) == SlotOf(src[..], tt, ip - 2) then ip - 2
                 else old(SlotFor(src[..], table, tt, ip))
    ensures table[..] == old(table[..])[SlotOf(src[..], tt, ip - 2) := ip - 2][SlotOf(src[..], tt, ip) := ip]
    ensures Below(table, ip + 1)
  {
    hide SlotOf;
    PutPosition(src, table, tt, ip - 2);
    var h := HashPosition(src, ip, tt);
    m := table[h];
    PutPosition(src, table, tt, ip);
    again := IsMatch(src, ip, m);
  }

  /** From a found match: writes its sequence, and those of matches that follow it directly. */
  method EmitChain(src: array<byte>, dst: array<byte>, table: array<nat>, tt: TableType,
                   token0: nat, op0: nat, anchor0: nat, ip0: nat, m0: nat, ghost found0: nat, ghost qs0: seq<Sequence>)
      returns (op: nat, anchor: nat, atEnd: bool, ghost qs: seq<Sequence>)
    requires src != dst && src.Length <= LZ4_MAX_INPUT_SIZE && dst.Length >= CompressBound(src.Length)
    requires table.Length == TableSize(tt) && (tt.ByU16? ==> src.Length < LZ4_64KLIMIT)
    requires Pending(src[..], dst[..], qs0, token0, op0, anchor0, ip0) && WithinBudget(token0, anchor0)
    requires m0 < ip0 <= found0 && ip0 - m0 <= MAX_DISTANCE && found0 + MFLIMIT <= src.Length
    requires Periodic(src[..], ip0, found0 + MINMATCH, ip0 - m0) && Below(table, found0 + 1)
    modifies dst, table
    ensures Progress(src[..], dst[..], qs, op, anchor) && Clear(qs, anchor, src.Length) && WithinBudget(op, anchor)
    ensures anchor >= found0 + MINMATCH && (atEnd ==> anchor + MFLIMIT > src.Length)
    ensures var mlen := FullLength(src[..], m0, ip0);
            ip0 + MINMATCH + mlen > src.Length - MFLIMIT ==>
              atEnd && anchor == ip0 + MINMATCH + mlen && op == op0 + 2 + LenCost(mlen)
    ensures !atEnd ==> anchor + MFLIMIT <= src.Length && Below(table, anchor + 1)
    ensures KeepsFrom(dst, CompressBound(src.Length))
  {
    hide Valid, Expand, Encode, Clear, Progress, FullLength;
    var token, ip, m := token0, ip0, m0;
    ghost var found := found0;
    op, anchor, qs := op0, anchor0, qs0;
    while true
      invariant Pending(src[..], dst[..], qs, token, op, anchor, ip) && WithinBudget(token, anchor)
      invariant 0 <= m < ip <= found && ip - m <= MAX_DISTANCE && found + MFLIMIT <= src.Length && found0 <= found
      invariant Periodic(src[..], ip, found + MINMATCH, ip - m) && Below(table, found + 1)
      invariant (ip == ip0 && m == m0 && op == op0 && found == found0)
                || ip0 + MINMATCH + FullLength(src[..], m0, ip0) <= src.Length - MFLIMIT
      invariant KeepsFrom(dst, CompressBound(src.Length))
      decreases src.Length - ip
    {
      op, ip, qs := EmitMatch(src, dst, token, op, anchor, ip, m, found, qs);
      anchor := ip;
      if ip > src.Length - MFLIMIT { return op, anchor, true, qs; }
      var again;
      again, m := NextMatch(src, table, tt, ip);
      if !again { return op, anchor, false, qs; }
      token := op;
      op := StartEmptySequence(src, dst, op, ip, qs);
      found := ip;
    }
  }

  /** Before the first sequence. */
  lemma NothingYet(src: seq<byte>, dst: seq<byte>)
    ensures Progress(src, dst, [], 0, 0)
  {
  }

  /** One round of the main loop: the next match, and those that follow it directly, or nothing more to find. */
  method CompressRound(src: array<byte>, dst: array<byte>, table: array<nat>, tt: TableType,
                       op0: nat, anchor0: nat, ip0: nat, ghost qs0: seq<Sequence>)
      returns (op: nat, anchor: nat, ip: nat, atEnd: bool, ghost qs: seq<Sequence>)
    requires src != dst && src.Length <= LZ4_MAX_INPUT_SIZE && dst.Length >= CompressBound(src.Length)
    requires table.Length == TableSize(tt) && (tt.ByU16? ==> src.Length < LZ4_64KLIMIT)
    requires Progress(src[..], dst[..], qs0, op0, anchor0) && Clear(qs0, anchor0, src.Length)
             && WithinBudget(op0, anchor0)
    requires anchor0 <= ip0 && ip0 + 8 <= src.Length && Below(table, ip0)
    modifies dst, table
    ensures Progress(src[..], dst[..], qs, op, anchor) && Clear(qs, anchor, src.Length) && WithinBudget(op, anchor)
    ensures anchor <= src.Length
    ensures !atEnd ==> ip0 < ip && anchor <= ip && ip + 8 <= src.Length && Below(table, ip)
    ensures ip0 + MFLIMIT < src.Length && old(MatchAt(src[..], ip0, SlotFor(src[..], table, tt, ip0))) ==>
              anchor >= ip0 + MINMATCH && (atEnd ==> anchor + MFLIMIT > src.Length)
    ensures NoRepeats(src[..]) || ip0 + MFLIMIT >= src.Length ==> atEnd && op == op0 && anchor == anchor0
    ensures Uniform(src[..]) && src.Length > LZ4_MINLENGTH && old(FirstRound(op0, anchor0, ip0, table)) ==>
              atEnd && op == 4 + LenCost(src.Length - 10) && anchor == src.Length - LASTLITERALS
    ensures KeepsFrom(dst, CompressBound(src.Length))
  {
    hide Valid, Expand, Encode, Clear, FullLength, SlotOf;
    if Uniform(src[..]) && src.Length > LZ4_MINLENGTH {
      UniformLength(src[..]);
      if FirstRound(op0, anchor0, ip0, table) { UniformMatches(src[..], table, tt, ip0); }
    }
    hide Uniform, SlotFor, MatchAt, FirstRound;
    op, anchor, ip, atEnd, qs := op0, anchor0, ip0, true, qs0;
    var found, foundIp, m := FindMatch(src, table, tt, ip0);
    if !found { return; }
    MatchFacts(src[..], foundIp, m);
    var startIp;
    startIp, m := CatchUp(src, foundIp, m, anchor);
    var token := op;
    LiteralBudget(op, anchor, startIp, src.Length);
    op := StartSequence(src, dst, op, anchor, startIp, qs);
    op, anchor, atEnd, qs := EmitChain(src, dst, table, tt, token, op, anchor, startIp, m, foundIp, qs);
    ip := anchor + 1;
  }

  method CompressGeneric(src: array<byte>, dst: array<byte>, tt: TableType) returns (r: nat)
    requires src != dst && dst.Length >= CompressBound(src.Length)
    modifies dst
    ensures src.Length > LZ4_MAX_INPUT_SIZE || (tt.ByU16? && src.Length >= LZ4_64KLIMIT) ==> r == 0
    ensures src.Length <= LZ4_MAX_INPUT_SIZE && (tt.ByU16? ==> src.Length < LZ4_64KLIMIT) ==>
              r <= CompressBound(src.Length) && IsBlockOf(dst[..r], src[..])
              && (Uniform(src[..]) ==> r == UniformSize(src.Length))
              && (NoRepeats(src[..]) ==> r == LiteralSize(src.Length))
    ensures KeepsFrom(dst, CompressBound(src.Length))
  {
    hide Valid, Expand, Encode, Progress, IsBlockOf;
    if src.Length > LZ4_MAX_INPUT_SIZE { return 0; }
    if tt.ByU16? && src.Length >= LZ4_64KLIMIT { return 0; }
    var op: nat, anchor: nat := 0, 0;
    ghost var qs: seq<Sequence> := [];
    NothingYet(src[..], dst[..]);
    if src.Length >= LZ4_MINLENGTH {
      var table := new nat[TableSize(tt)](_ => 0);
      PutPosition(src, table, tt, 0);
      var ip := 1;
      var atEnd := false;
      while !atEnd
        invariant Progress(src[..], dst[..], qs, op, anchor) && Clear(qs, anchor, src.Length)
                  && WithinBudget(op, anchor)
        invariant anchor <= src.Length
        invariant !atEnd ==> anchor <= ip && ip + 8 <= src.Length && Below(table, ip)
        invariant table.Length == TableSize(tt) && fresh(table)
        invariant KeepsFrom(dst, CompressBound(src.Length))
        invariant Uniform(src[..]) ==>
                    if !atEnd then FirstRound(op, anchor, ip, table)
                    else if src.Length == LZ4_MINLENGTH then op == anchor == 0
                    else op == 4 + LenCost(src.Length - 10) && anchor == src.Length - LASTLITERALS
        invariant NoRepeats(src[..]) ==> op == anchor == 0
        decreases !atEnd, src.Length - ip
      {
        op, anchor, ip, atEnd, qs := CompressRound(src, dst, table, tt, op, anchor, ip, qs);
      }
    }
    LastBudget(op, anchor, src.Length);
    r := Finish(src, dst, op, anchor, src.Length - anchor, qs);
    assert src[..src.Length] == src[..];
  }

  /** LZ4_compress_fast_extState, when the output buffer has at least LZ4_compressBound bytes. */
  method CompressUnlimited(src: array<byte>, dst: array<byte>) returns (r: nat)
    requires src != dst && dst.Length >= CompressBound(src.Length)
    modifies dst
    ensures src.Length > LZ4_MAX_INPUT_SIZE ==> r == 0
    ensures src.Length <= LZ4_MAX_INPUT_SIZE ==>
              r <= CompressBound(src.Length) && IsBlockOf(dst[..r], src[..])
              && (Uniform(src[..]) ==> r == UniformSize(src.Length))
              && (NoRepeats(src[..]) ==> r == LiteralSize(src.Length))
    ensures KeepsFrom(dst, CompressBound(src.Length))
  {
    r := CompressGeneric(src, dst, if src.Length < LZ4_64KLIMIT then ByU16 else ByU32);
  }
}
