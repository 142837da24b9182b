/** The pieces the two compressors share: position hashing, match counting, and the writers of
    tokens, lengths, literals and offsets, each tied to the block format. */
module Lz4Emit {
  import opened Lz4Block
  import opened Lz4Memory
  import opened Lz4Word

  const LZ4_64KLIMIT := 65536 + (MFLIMIT - 1)
  const LZ4_MAX_INPUT_SIZE := 0x7E000000
  const LZ4_MINLENGTH := MFLIMIT + 1
  const PRIME5BYTES := 889523592379
  const TWO_TO_THE_64 := 0x1_0000_0000_0000_0000

  datatype TableType = ByU32 | ByU16

  function CompressBound(n: nat): nat {
    if n > LZ4_MAX_INPUT_SIZE then 0 else n + n / 255 + 16
  }

  // ---------------------------------------------------------------- hashing

  function TableSize(tt: TableType): nat {
    if tt.ByU16? then 8192 else 4096
  }

  /** LZ4_read_ARCH on a 64-bit little-endian machine. */
  function Read64(src: seq<byte>, p: nat): int
    requires p + 8 <= |src|
  {
    Word(src[p..p + 8])
  }

  /** LZ4_hashSequence64: the 40 low bits of a 64-bit product select a table slot. */
  function HashSequence(v: int, tt: TableType): (h: nat)
    ensures h < TableSize(tt)
  {
    if tt.ByU16? then (v * PRIME5BYTES) % TWO_TO_THE_64 / 0x800_0000 % 8192
    else (v * PRIME5BYTES) % TWO_TO_THE_64 / 0x1000_0000 % 4096
  }

  /** The slot for the bytes at p. */
  function SlotOf(src: seq<byte>, tt: TableType, p: nat): (h: nat)
    requires p + 8 <= |src|
    ensures h < TableSize(tt)
  {
    HashSequence(Read64(src, p), tt)
  }

  method HashPosition(src: array<byte>, p: nat, tt: TableType) returns (h: nat)
    requires p + 8 <= src.Length
    ensures h == SlotOf(src[..], tt, p)
  {
    hide HashSequence, Word;
    assert src[p..p + 8] == src[..][p..p + 8];
    h := HashSequence(Word(src[p..p + 8]), tt);
  }

  /** Positions in the table lie below `limit`. */
  ghost predicate Below(table: array<nat>, limit: nat)
    reads table
  {
    forall i :: 0 <= i < table.Length ==> table[i] < limit
  }

  /** LZ4_putPositionOnHash.  The 16-bit table never truncates, because inputs for it are short. */
  method PutPositionOnHash(table: array<nat>, tt: TableType, p: nat, h: nat)
    requires h < table.Length && Below(table, p + 1)
    requires tt.ByU16? ==> p < 65536
    modifies table
    ensures table[h] == p && Below(table, p + 1)
    ensures forall i :: 0 <= i < table.Length && i != h ==> table[i] == old(table[i])
  {
    table[h] := if tt.ByU16? then p % 65536 else p;
  }

  method PutPosition(src: array<byte>, table: array<nat>, tt: TableType, p: nat)
    requires table.Length == TableSize(tt) && p + 8 <= src.Length && Below(table, p + 1)
    requires tt.ByU16? ==> p < 65536
    modifies table
    ensures Below(table, p + 1)
    ensures forall i :: 0 <= i < table.Length ==>
              table[i] == if i == SlotOf(src[..], tt, p) then p else old(table[i])
  {
    hide SlotOf;
    var h := HashPosition(src, p, tt);
    PutPositionOnHash(table, tt, p, h);
  }

  // ---------------------------------------------------------------- matches

  /** The comparison of eight bytes: LZ4_NbCommonBytes of the exclusive-or of the two words, unless that is zero. */
  method CommonBytes(src: array<byte>, m: nat, p: nat) returns (k: nat)
    requires m <= p && p + 8 <= src.Length
    ensures k <= 8 && Periodic(src[..], p, p + k, p - m) && (k < 8 ==> src[m + k] != src[p + k])
  {
    var a, b := src[m..m + 8], src[p..p + 8];
    ghost var n := CommonBytesOfWords(a, b);
    var diff := Xor(Word(a), Word(b));
    k := if diff == 0 then 8 else NbCommonBytes(diff);
    hide Word, Xor, NbCommonBytes;
    SharedBytes(src[..], m, p, k);
  }

  lemma SharedBytes(src: seq<byte>, m: nat, p: nat, n: nat)
    requires m <= p && p + 8 <= |src| && n <= 8 && src[m..m + 8][..n] == src[p..p + 8][..n]
    ensures Periodic(src, p, p + n, p - m)
  {
    forall i | p <= i < p + n ensures src[i] == src[i - (p - m)] {
      assert src[p..p + 8][..n][i - p] == src[m..m + 8][..n][i - p];
    }
  }

  /** Comparing words (LZ4_read16, LZ4_read32) compares their bytes. */
  method SameWord(src: array<byte>, m: nat, p: nat, n: nat) returns (same: bool)
    requires m <= p && p + n <= src.Length && (n == 2 || n == 4)
    ensures same <==> Periodic(src[..], p, p + n, p - m)
    ensures same <==> (src[p] == src[m] && src[p + 1] == src[m + 1]
                       && (n == 4 ==> src[p + 2] == src[m + 2] && src[p + 3] == src[m + 3]))
  {
    var a, b := src[p..p + n], src[m..m + n];
    ghost var common := CommonBytesOfWords(a, b);
    XorIsZero(Word(a), Word(b));
    same := Word(a) == Word(b);
    hide Word, Xor;
    assert same <==> a == b;
    SameBytes(src[..], m, p, n);
    assert a == src[..][p..p + n] && b == src[..][m..m + n];
  }

  lemma SameBytes(src: seq<byte>, m: nat, p: nat, n: nat)
    requires m <= p && p + n <= |src| && (n == 2 || n == 4)
    ensures src[p..p + n] == src[m..m + n] <==> Periodic(src, p, p + n, p - m)
    ensures src[p..p + n] == src[m..m + n] <==>
            src[p] == src[m] && src[p + 1] == src[m + 1]
            && (n == 4 ==> src[p + 2] == src[m + 2] && src[p + 3] == src[m + 3])
  {
    var a, b := src[p..p + n], src[m..m + n];
    if a == b {
      forall i | p <= i < p + n ensures src[i] == src[i - (p - m)] {
        assert a[i - p] == b[i - p];
      }
    }
    assert a[0] == src[p] && b[0] == src[m] && a[1] == src[p + 1] && b[1] == src[m + 1];
  }

  /** LZ4_count's last steps, when a comparison of four bytes is not possible or has failed. */
  method CountLast(src: array<byte>, p0: nat, m0: nat, limit: nat) returns (n: nat)
    requires m0 <= p0 <= limit <= src.Length
    requires limit <= p0 + 3 || (p0 + 4 <= limit && !Periodic(src[..], p0, p0 + 4, p0 - m0))
    ensures n <= 3 && p0 + n <= limit && Periodic(src[..], p0, p0 + n, p0 - m0)
    ensures p0 + n < limit ==> src[p0 + n] != src[m0 + n]
  {
    n := 0;
    if p0 < limit - 1 {
      var same := SameWord(src, m0, p0, 2);
      if same { n := 2; }
    }
    if p0 + n < limit && src[p0 + n] == src[m0 + n] { n := n + 1; }
  }

  /** LZ4_count's last seven bytes: four, two and one at a time. */
  method CountTail(src: array<byte>, p0: nat, m0: nat, limit: nat) returns (n: nat)
    requires m0 <= p0 <= limit <= src.Length && limit <= p0 + 7
    ensures p0 + n <= limit && Periodic(src[..], p0, p0 + n, p0 - m0)
    ensures p0 + n < limit ==> src[p0 + n] != src[m0 + n]
  {
    n := 0;
    if p0 < limit - 3 {
      var same := SameWord(src, m0, p0, 4);
      if same { n := 4; }
    }
    var k := CountLast(src, p0 + n, m0 + n, limit);
    n := n + k;
  }

  /** LZ4_count: eight bytes at a time, then the tail; exactly the length of the common prefix of
      the texts at p0 and m0, up to limit. */
  method Count(src: array<byte>, p0: nat, m0: nat, limit: nat) returns (n: nat)
    requires m0 <= p0 <= limit <= src.Length
    ensures p0 + n <= limit && Periodic(src[..], p0, p0 + n, p0 - m0)
    ensures p0 + n < limit ==> src[p0 + n] != src[m0 + n]
  {
    n := 0;
    while p0 + n < limit - 7
      invariant p0 + n <= limit && Periodic(src[..], p0, p0 + n, p0 - m0)
    {
      var k := CommonBytes(src, m0 + n, p0 + n);
      n := n + k;
      if k < 8 { return; }
    }
    var k := CountTail(src, p0 + n, m0 + n, limit);
    n := n + k;
  }

  /** The length of the common prefix of the texts at m and p, up to limit. */
  function Common(src: seq<byte>, m: nat, p: nat, limit: nat): (n: nat)
    requires m <= p <= limit <= |src|
    ensures p + n <= limit
    decreases limit - p
  {
    if p < limit && src[m] == src[p] then 1 + Common(src, m + 1, p + 1, limit) else 0
  }

  lemma {:induction false} CommonIs(src: seq<byte>, m: nat, p: nat, limit: nat, n: nat)
    requires m <= p && p + n <= limit <= |src| && Periodic(src, p, p + n, p - m)
    requires p + n < limit ==> src[p + n] != src[m + n]
    ensures Common(src, m, p, limit) == n
    decreases n
  {
    if n > 0 {
      assert src[p] == src[p - (p - m)];
      assert Periodic(src, p + 1, p + n, p - m);
      CommonIs(src, m + 1, p + 1, limit, n - 1);
    }
  }

  // ---------------------------------------------------------------- writing

  /** Length bytes: 255 while the rest is at least 255, then the rest. */
  method PutLength(dst: array<byte>, op0: nat, n0: nat) returns (op: nat)
    requires op0 + |Ext(n0)| <= dst.Length
    modifies dst
    ensures op == op0 + |Ext(n0)| && dst[..op] == old(dst[..op0]) + Ext(n0)
    ensures KeepsFrom(dst, op)
  {
    op := op0;
    var n := n0;
    while n >= 255
      invariant op0 <= op && n >= 0 && op + |Ext(n)| == op0 + |Ext(n0)|
      invariant dst[..op] + Ext(n) == old(dst[..op0]) + Ext(n0)
      invariant KeepsFrom(dst, op)
    {
      assert Ext(n) == [255] + Ext(n - 255);
      dst[op] := 255;
      op, n := op + 1, n - 255;
    }
    dst[op] := n;
    op := op + 1;
    assert Ext(n) == [n];
  }

  /** At most one 255, then the rest. */
  method PutShortLength(dst: array<byte>, op0: nat, n: nat) returns (op: nat)
    requires n < 510 && op0 + |Ext(n)| <= dst.Length
    modifies dst
    ensures op == op0 + |Ext(n)| && dst[..op] == old(dst[..op0]) + Ext(n)
    ensures KeepsFrom(dst, op)
  {
    op := op0;
    var rest := n;
    if rest >= 255 {
      rest := rest - 255;
      dst[op] := 255;
      op := op + 1;
    }
    dst[op] := rest;
    op := op + 1;
  }

  /** The compressor's match lengths are written two 255s at a time. */
  method PutLengthByPairs(dst: array<byte>, op0: nat, n0: nat) returns (op: nat)
    requires op0 + |Ext(n0)| <= dst.Length
    modifies dst
    ensures op == op0 + |Ext(n0)| && dst[..op] == old(dst[..op0]) + Ext(n0)
    ensures KeepsFrom(dst, op)
  {
    op := op0;
    var n := n0;
    while n >= 510
      invariant op0 <= op && n >= 0 && op + |Ext(n)| == op0 + |Ext(n0)|
      invariant dst[..op] + Ext(n) == old(dst[..op0]) + Ext(n0)
      invariant KeepsFrom(dst, op)
    {
      assert Ext(n) == [255] + ([255] + Ext(n - 510));
      dst[op] := 255;
      dst[op + 1] := 255;
      op, n := op + 2, n - 510;
    }
    op := PutShortLength(dst, op, n);
  }

  /** The token with its literal length, and that length's extra bytes. */
  method PutLiteralLength(dst: array<byte>, op0: nat, n: nat) returns (op: nat)
    requires op0 + 1 + LenCost(n) <= dst.Length
    modifies dst
    ensures op == op0 + 1 + LenCost(n) && dst[..op] == old(dst[..op0]) + ([Head(n, 0)] + LenBytes(n))
    ensures KeepsFrom(dst, op)
  {
    hide Ext;
    op := op0 + 1;
    if n >= RUN_MASK {
      dst[op0] := RUN_MASK * 16;
      op := PutLength(dst, op, n - RUN_MASK);
    } else {
      dst[op0] := n * 16;
    }
  }

  /** The most a wild copy of n bytes writes. */
  function WildLength(n: nat): nat { if n == 0 then 8 else n + 7 }

  /** A sequence's token and literals; the literals are copied with a wild copy. */
  method PutLiterals(src: array<byte>, dst: array<byte>, op0: nat, anchor: nat, ip: nat) returns (op: nat)
    requires src != dst && anchor <= ip && ip + 8 <= src.Length
    requires op0 + 1 + LenCost(ip - anchor) + WildLength(ip - anchor) <= dst.Length
    modifies dst
    ensures op == op0 + |LiteralBytes(0, src[anchor..ip])|
    ensures dst[..op] == old(dst[..op0]) + LiteralBytes(0, src[anchor..ip])
    ensures KeepsFrom(dst, op + 8)
  {
    hide LenBytes;
    op := PutLiteralLength(dst, op0, ip - anchor);
    WildCopyLiterals(dst, op, src, anchor, op + (ip - anchor));
    op := op + (ip - anchor);
  }

  /** The last literals, copied exactly. */
  method PutLastLiterals(src: array<byte>, dst: array<byte>, op0: nat, anchor: nat, n: nat) returns (op: nat)
    requires src != dst && anchor + n <= src.Length
    requires op0 + 1 + LenCost(n) + n <= dst.Length
    modifies dst
    ensures op == op0 + |EncodeLast(src[anchor..anchor + n])|
    ensures dst[..op] == old(dst[..op0]) + EncodeLast(src[anchor..anchor + n])
    ensures KeepsFrom(dst, op)
  {
    op := PutLiteralLength(dst, op0, n);
    CopyBytes(dst, op, src, anchor, n);
    op := op + n;
  }

  /** LZ4_writeLE16 of an offset. */
  method PutOffset(dst: array<byte>, op0: nat, offset: nat) returns (op: nat)
    requires op0 + 2 <= dst.Length && offset <= MAX_DISTANCE
    modifies dst
    ensures op == op0 + 2 && dst[..op] == old(dst[..op0]) + [offset % 256, offset / 256]
    ensures KeepsFrom(dst, op)
  {
    dst[op0] := offset % 256;
    dst[op0 + 1] := offset / 256;
    op := op0 + 2;
  }

  /** The low nibble of a token already written, `*token += nibble`. */
  method AddToToken(dst: array<byte>, token: nat, op: nat, nibble: nat,
                    ghost enc: seq<byte>, ghost lits: seq<byte>, ghost rest: seq<byte>)
    requires token < op <= dst.Length && nibble <= 15 && |enc| == token
    requires dst[..op] == enc + LiteralBytes(0, lits) + rest
    modifies dst
    ensures dst[..op] == enc + LiteralBytes(nibble, lits) + rest
    ensures KeepsFrom(dst, op)
  {
    hide LenBytes;
    assert dst[token] == dst[..op][token] == Head(|lits|, 0);
    dst[token] := dst[token] + nibble;
  }

  /** The match length: the token's low nibble and the extra bytes, after the offset. */
  method PutMatchLength(dst: array<byte>, token: nat, op0: nat, mlen: nat, byPairs: bool,
                        ghost enc: seq<byte>, ghost lits: seq<byte>, ghost offset: nat) returns (op: nat)
    requires op0 + LenCost(mlen) <= dst.Length && token < op0
    requires offset <= MAX_DISTANCE && |enc| == token
    requires dst[..op0] == enc + LiteralBytes(0, lits) + [offset % 256, offset / 256]
    modifies dst
    ensures op == op0 + LenCost(mlen)
    ensures dst[..op] == enc + EncodeSeq(Sequence(lits, offset, mlen))
    ensures KeepsFrom(dst, op)
  {
    hide Ext, LiteralBytes;
    AddToToken(dst, token, op0, Nibble(mlen), enc, lits, [offset % 256, offset / 256]);
    op := op0;
    if mlen >= ML_MASK {
      if byPairs {
        op := PutLengthByPairs(dst, op0, mlen - ML_MASK);
      } else {
        op := PutLength(dst, op0, mlen - ML_MASK);
      }
    }
  }
}
