/**
 The LZ4 block format as a value: sequences (literals, then a match), the bytes that encode
 them, the text they stand for, and a byte-at-a-time reference decoder.  The fast decoder
 (Lz4Decoder) is proved to refine the reference decoder on every input; the encoders
 (Lz4Encoder, Lz4DestSize) are proved to produce encodings that obey the end-of-block
 parsing restrictions; the lemmas here join the two.
 */
module Lz4Block {

  type byte = x: int | 0 <= x < 256

  const MINMATCH := 4
  const COPYLENGTH := 8
  const LASTLITERALS := 5
  const MFLIMIT := COPYLENGTH + MINMATCH
  const ML_MASK := 15
  const RUN_MASK := 15
  const MAX_DISTANCE := 65535

  /** One sequence: literals, then a match of `mlen + MINMATCH` bytes at distance `offset`. */
  datatype Sequence = Sequence(lits: seq<byte>, offset: nat, mlen: nat)

  // ---------------------------------------------------------------- the text of a block

  /** Byte-by-byte overlapping copy: each new byte repeats the one `offset` places before it. */
  function CopyMatch(out: seq<byte>, offset: nat, len: nat): (r: seq<byte>)
    requires 1 <= offset <= |out|
    ensures |r| == |out| + len && out <= r
    decreases len
  {
    if len == 0 then out else CopyMatch(out + [out[|out| - offset]], offset, len - 1)
  }

  /** A copied match has period `offset`, and that determines it. */
  lemma {:induction false} CopyMatchIsPeriodic(out: seq<byte>, offset: nat, len: nat, i: nat)
    requires 1 <= offset <= |out| <= i < |out| + len
    ensures CopyMatch(out, offset, len)[i] == CopyMatch(out, offset, len)[i - offset]
    decreases len
  {
    var next := out + [out[|out| - offset]];
    if i == |out| {
      assert next <= CopyMatch(next, offset, len - 1);
      assert next[i] == CopyMatch(next, offset, len - 1)[i];
      assert next[i - offset] == CopyMatch(next, offset, len - 1)[i - offset];
    } else {
      CopyMatchIsPeriodic(next, offset, len - 1, i);
    }
  }

  lemma {:induction false} PeriodicIsCopyMatch(out: seq<byte>, offset: nat, len: nat, full: seq<byte>)
    requires 1 <= offset <= |out| && |full| == |out| + len && out <= full
    requires forall i :: |out| <= i < |full| ==> full[i] == full[i - offset]
    ensures CopyMatch(out, offset, len) == full
    decreases len
  {
    if len != 0 {
      assert full[|out|] == full[|out| - offset] == out[|out| - offset];
      PeriodicIsCopyMatch(out + [out[|out| - offset]], offset, len - 1, full);
    }
  }

  /** What a match leaves; at distance zero the block does not determine it. */
  function MatchOf(out: seq<byte>, offset: nat, len: nat): (r: seq<byte>)
    requires offset <= |out|
    ensures |r| == |out| + len && out <= r
  {
    if offset == 0 then out + seq(len, _ => 0) else CopyMatch(out, offset, len)
  }

  /** The text the sequences stand for (a match that starts outside it adds nothing). */
  ghost function Expand(qs: seq<Sequence>): seq<byte> {
    if qs == [] then [] else
    var q := qs[|qs| - 1];
    var out := Expand(qs[..|qs| - 1]) + q.lits;
    if q.offset <= |out| then MatchOf(out, q.offset, q.mlen + MINMATCH) else out
  }

  /** Every match starts inside the text produced so far and its offset fits two bytes. */
  ghost predicate Valid(qs: seq<Sequence>) {
    qs == [] ||
    (var init, q := qs[..|qs| - 1], qs[|qs| - 1];
     Valid(init) && 1 <= q.offset <= |Expand(init)| + |q.lits| && q.offset <= MAX_DISTANCE)
  }

  /** As Valid, matches of distance zero included. */
  ghost predicate Placed(qs: seq<Sequence>) {
    qs == [] ||
    (var init, q := qs[..|qs| - 1], qs[|qs| - 1];
     Placed(init) && q.offset <= |Expand(init)| + |q.lits| && q.offset <= MAX_DISTANCE)
  }

  ghost predicate NoZero(qs: seq<Sequence>) { forall q :: q in qs ==> q.offset != 0 }

  lemma {:induction false} ValidIsPlaced(qs: seq<Sequence>)
    ensures Valid(qs) <==> Placed(qs) && NoZero(qs)
    decreases |qs|
  {
    if qs != [] {
      var init, q := qs[..|qs| - 1], qs[|qs| - 1];
      ValidIsPlaced(init);
      assert qs == init + [q];
    }
  }

  lemma ExpandSnoc(qs: seq<Sequence>, q: Sequence)
    requires Valid(qs) && 1 <= q.offset <= |Expand(qs)| + |q.lits| && q.offset <= MAX_DISTANCE
    ensures Valid(qs + [q])
    ensures Expand(qs + [q]) == CopyMatch(Expand(qs) + q.lits, q.offset, q.mlen + MINMATCH)
  {
    hide CopyMatch;
    assert (qs + [q])[..|qs|] == qs;
  }

  // ---------------------------------------------------------------- the bytes of a block

  function Nibble(n: nat): (r: nat)
    ensures r <= 15
  {
    if n >= 15 then 15 else n
  }

  /** Bytes of 255 and a final byte below 255, summing to n. */
  function Ext(n: nat): (r: seq<byte>)
    ensures |r| == n / 255 + 1
  {
    if n >= 255 then [255] + Ext(n - 255) else [n]
  }

  /** The length bytes that follow a token whose nibble is 15. */
  function LenBytes(n: nat): (r: seq<byte>)
    ensures |r| == (n + 240) / 255
  {
    if n >= 15 then Ext(n - 15) else []
  }

  /** Number of bytes LenBytes takes; the source writes it (n+240)/255. */
  function LenCost(n: nat): nat { (n + 240) / 255 }

  function Head(litLen: nat, nibble: nat): byte
    requires nibble <= 15
  {
    16 * Nibble(litLen) + nibble
  }

  /** A token, length bytes and literals, as they start every sequence. */
  function LiteralBytes(nibble: nat, lits: seq<byte>): (r: seq<byte>)
    requires nibble <= 15
    ensures |r| == 1 + LenCost(|lits|) + |lits|
  {
    [Head(|lits|, nibble)] + LenBytes(|lits|) + lits
  }

  /** The offset and the match-length bytes that end an encoded sequence. */
  function MatchBytes(offset: nat, mlen: nat): (r: seq<byte>)
    ensures |r| == 2 + LenCost(mlen)
  {
    [offset % 256, offset / 256 % 256] + LenBytes(mlen)
  }

  function EncodeSeq(q: Sequence): (r: seq<byte>)
    ensures |r| == 1 + LenCost(|q.lits|) + |q.lits| + 2 + LenCost(q.mlen)
  {
    LiteralBytes(Nibble(q.mlen), q.lits) + MatchBytes(q.offset, q.mlen)
  }

  ghost function Encode(qs: seq<Sequence>): seq<byte> {
    if qs == [] then [] else Encode(qs[..|qs| - 1]) + EncodeSeq(qs[|qs| - 1])
  }

  lemma EncodeSnoc(qs: seq<Sequence>, q: Sequence)
    ensures Encode(qs + [q]) == Encode(qs) + EncodeSeq(q)
  {
    assert (qs + [q])[..|qs|] == qs;
  }

  function EncodeLast(lits: seq<byte>): seq<byte> {
    LiteralBytes(0, lits)
  }

  /** The end-of-block restrictions: the last five bytes are literals, and the last match
      starts at least MFLIMIT bytes before the end of the text. */
  ghost predicate EndsWell(qs: seq<Sequence>, last: seq<byte>) {
    qs != [] ==> |last| >= LASTLITERALS && qs[|qs| - 1].mlen + MINMATCH + |last| >= MFLIMIT
  }

  /** `block` is an encoding of `text` that obeys the restrictions. */
  ghost predicate IsBlockOf(block: seq<byte>, text: seq<byte>) {
    exists qs, last ::
      Valid(qs) && EndsWell(qs, last) && block == Encode(qs) + EncodeLast(last) && text == Expand(qs) + last
  }

  // ---------------------------------------------------------------- the reference decoder

  /** Done: the decoded text, `defined` false when a zero offset made it depend on the buffer's
      old contents.  Fail: the source's negative error code.  Overread: a byte past the input
      would be read. */
  datatype Outcome = Done(out: seq<byte>, defined: bool) | Fail(code: int) | Overread

  datatype Length = Length(ip: nat, len: nat) | LengthFail(code: int) | LengthOverread

  function ErrorCode(ip: int): int { -ip - 1 }

  /** The literal-length loop stops at a byte below 255, or within RUN_MASK bytes of the end. */
  function LiteralLength(src: seq<byte>, ip: nat, acc: nat): (r: Length)
    ensures r.Length? ==> ip < r.ip <= |src| && acc <= r.len
    ensures !r.LengthFail?
    decreases |src| - ip
  {
    if ip >= |src| then LengthOverread
    else if ip + 1 < |src| - RUN_MASK && src[ip] == 255 then LiteralLength(src, ip + 1, acc + 255)
    else Length(ip + 1, acc + src[ip])
  }

  function MatchLength(src: seq<byte>, ip: nat, acc: nat): (r: Length)
    ensures r.Length? ==> ip < r.ip <= |src| - LASTLITERALS + 1 && acc <= r.len
    ensures !r.LengthOverread? && (r.LengthFail? ==> r.code < 0)
    decreases |src| - ip
  {
    if ip > |src| - LASTLITERALS then LengthFail(ErrorCode(ip))
    else if src[ip] == 255 then MatchLength(src, ip + 1, acc + 255)
    else Length(ip + 1, acc + src[ip])
  }

  function LiteralPart(src: seq<byte>, ip: nat): (r: Length)
    requires ip < |src|
    ensures r.Length? ==> ip < r.ip <= |src|
    ensures !r.LengthFail?
  {
    if src[ip] / 16 == RUN_MASK then LiteralLength(src, ip + 1, RUN_MASK) else Length(ip + 1, src[ip] / 16)
  }

  function MatchPart(src: seq<byte>, token: byte, ip: nat): (r: Length)
    requires ip <= |src| - LASTLITERALS - 1
    ensures r.Length? ==> ip <= r.ip <= |src| - LASTLITERALS + 1 && r.len >= MINMATCH
    ensures !r.LengthOverread? && (r.LengthFail? ==> r.code < 0)
  {
    var m := if token % 16 == ML_MASK then MatchLength(src, ip, ML_MASK) else Length(ip, token % 16);
    if m.Length? then m.(len := m.len + MINMATCH) else m
  }

  function Le16(lo: int, hi: int): int { lo + 256 * hi }

  /** One turn of the decoding loop: the end of decoding, or a position to go on from with the
      text so far. */
  datatype Turn = End(outcome: Outcome) | More(ip: nat, out: seq<byte>, zeroOffset: bool)

  function DecodeTurn(src: seq<byte>, ip: nat, out: seq<byte>, oend: nat, defined: bool): (t: Turn)
    ensures t.More? ==> ip < t.ip <= |src| - LASTLITERALS + 1
  {
    if ip >= |src| then End(Overread) else
    var lit := LiteralPart(src, ip);
    if !lit.Length? then End(Overread) else
    if |out| + lit.len > oend - MFLIMIT || lit.ip + lit.len > |src| - (2 + 1 + LASTLITERALS) then
      if lit.ip + lit.len != |src| || |out| + lit.len > oend then End(Fail(ErrorCode(lit.ip)))
      else End(Done(out + src[lit.ip..lit.ip + lit.len], defined))
    else
      MatchTurn(src, src[ip], lit.ip + lit.len, out + src[lit.ip..lit.ip + lit.len], oend)
  }

  /** The second half of a turn: the offset and the match, at position p of src. */
  function MatchTurn(src: seq<byte>, token: byte, p: nat, mid: seq<byte>, oend: nat): (t: Turn)
    requires p <= |src| - (2 + 1 + LASTLITERALS)
    ensures t.More? ==> p < t.ip <= |src| - LASTLITERALS + 1
    ensures t.End? ==> !t.outcome.Overread?
  {
    var offset := Le16(src[p], src[p + 1]);
    if offset > |mid| then End(Fail(ErrorCode(p + 2))) else
    var m := MatchPart(src, token, p + 2);
    if !m.Length? then End(Fail(m.code)) else
    if |mid| + m.len > oend - LASTLITERALS then End(Fail(ErrorCode(m.ip))) else
    More(m.ip, MatchOf(mid, offset, m.len), offset == 0)
  }

  /** Decodes from position ip of src with `out` already produced, into a buffer of oend bytes. */
  function Decode(src: seq<byte>, ip: nat, out: seq<byte>, oend: nat, defined: bool): Outcome
    decreases |src| - ip
  {
    match DecodeTurn(src, ip, out, oend, defined)
    case End(outcome) => outcome
    case More(ip', out', zeroOffset) => Decode(src, ip', out', oend, defined && !zeroOffset)
  }

  /** LZ4_decompress_safe on an output buffer of oend bytes. */
  function DecompressSafeSpec(src: seq<byte>, oend: nat): Outcome {
    if oend == 0 then (if |src| == 1 && src[0] == 0 then Done([], true) else Fail(-1))
    else Decode(src, 0, [], oend, true)
  }

  // ---------------------------------------------------------------- no byte past the input is read

  lemma {:induction false} LiteralLengthStaysInside(src: seq<byte>, ip: nat, acc: nat)
    ensures LiteralLength(src, ip, acc).LengthOverread? <==> ip >= |src|
    decreases |src| - ip
  {
    if ip < |src| && ip + 1 < |src| - RUN_MASK && src[ip] == 255 {
      LiteralLengthStaysInside(src, ip + 1, acc + 255);
    }
  }

  lemma {:induction false} DecodeStaysInside(src: seq<byte>, ip: nat, out: seq<byte>, oend: nat, defined: bool)
    requires ip <= |src| - 2
    ensures !Decode(src, ip, out, oend, defined).Overread?
    decreases |src| - ip
  {
    LiteralLengthStaysInside(src, ip + 1, RUN_MASK);
    var t := DecodeTurn(src, ip, out, oend, defined);
    if t.More? {
      DecodeStaysInside(src, t.ip, t.out, oend, defined && !t.zeroOffset);
    }
  }

  /** The library says the decoder never reads outside the input buffer.  It does exactly when the
      output buffer is not empty and the input is empty, or is one byte that announces more
      literal-length bytes. */
  lemma OverreadExactlyWhen(src: seq<byte>, oend: nat)
    ensures DecompressSafeSpec(src, oend).Overread? <==>
            oend > 0 && (|src| == 0 || (|src| == 1 && src[0] >= 240))
  {
    if oend > 0 && |src| >= 2 {
      DecodeStaysInside(src, 0, [], oend, true);
    } else if oend > 0 && |src| == 1 {
      LiteralLengthStaysInside(src, 1, RUN_MASK);
    }
  }

  // ---------------------------------------------------------------- decoding an encoding

  /** The bytes of src from ip on start with b. */
  ghost predicate At(src: seq<byte>, ip: nat, b: seq<byte>) {
    ip + |b| <= |src| && src[ip..ip + |b|] == b
  }

  lemma AtSplit(src: seq<byte>, ip: nat, a: seq<byte>, b: seq<byte>)
    requires At(src, ip, a + b)
    ensures At(src, ip, a) && At(src, ip + |a|, b)
  {
    var s := src[ip..ip + |a + b|];
    assert src[ip..ip + |a|] == s[..|a|] == a;
    assert src[ip + |a|..ip + |a| + |b|] == s[|a|..] == b;
  }

  lemma AtSlice(src: seq<byte>, ip: nat, b: seq<byte>)
    requires At(src, ip, b)
    ensures ip + |b| <= |src| && src[ip..ip + |b|] == b
  {
  }

  lemma AtByte(src: seq<byte>, ip: nat, b: seq<byte>, k: nat)
    requires At(src, ip, b) && k < |b|
    ensures ip + k < |src| && src[ip + k] == b[k]
  {
    assert src[ip + k] == src[ip..ip + |b|][k];
  }

  lemma {:induction false} ReadLiteralExt(src: seq<byte>, ip: nat, acc: nat, n: nat)
    requires At(src, ip, Ext(n))
    requires ip + |Ext(n)| + RUN_MASK + n <= |src|
    ensures LiteralLength(src, ip, acc) == Length(ip + |Ext(n)|, acc + n)
    decreases n
  {
    if n >= 255 {
      AtSplit(src, ip, [255], Ext(n - 255));
      AtByte(src, ip, [255], 0);
      ReadLiteralExt(src, ip + 1, acc + 255, n - 255);
    } else {
      AtByte(src, ip, [n], 0);
    }
  }

  lemma {:induction false} ReadMatchExt(src: seq<byte>, ip: nat, acc: nat, n: nat)
    requires At(src, ip, Ext(n))
    requires ip + |Ext(n)| + LASTLITERALS - 1 <= |src|
    ensures MatchLength(src, ip, acc) == Length(ip + |Ext(n)|, acc + n)
    decreases n
  {
    if n >= 255 {
      AtSplit(src, ip, [255], Ext(n - 255));
      AtByte(src, ip, [255], 0);
      ReadMatchExt(src, ip + 1, acc + 255, n - 255);
    } else {
      AtByte(src, ip, [n], 0);
    }
  }

  lemma ReadLiterals(src: seq<byte>, ip: nat, nibble: nat, lits: seq<byte>)
    requires nibble <= 15 && At(src, ip, LiteralBytes(nibble, lits))
    ensures ip < |src| && src[ip] % 16 == nibble
    ensures LiteralPart(src, ip) == Length(ip + 1 + LenCost(|lits|), |lits|)
    ensures var p := ip + 1 + LenCost(|lits|); p + |lits| <= |src| && src[p..p + |lits|] == lits
  {
    hide At, Ext, LiteralLength;
    var token := Head(|lits|, nibble);
    AtSplit(src, ip, [token] + LenBytes(|lits|), lits);
    AtSlice(src, ip + 1 + LenCost(|lits|), lits);
    AtSplit(src, ip, [token], LenBytes(|lits|));
    AtByte(src, ip, [token], 0);
    if |lits| >= 15 {
      ReadLiteralExt(src, ip + 1, 15, |lits| - 15);
    }
  }

  lemma ReadMatch(src: seq<byte>, p: nat, token: byte, offset: nat, mlen: nat)
    requires offset <= MAX_DISTANCE && token % 16 == Nibble(mlen) && At(src, p, MatchBytes(offset, mlen))
    requires p + 2 + 1 + LASTLITERALS <= |src| && p + |MatchBytes(offset, mlen)| + LASTLITERALS - 1 <= |src|
    ensures Le16(src[p], src[p + 1]) == offset
    ensures MatchPart(src, token, p + 2) == Length(p + |MatchBytes(offset, mlen)|, mlen + MINMATCH)
  {
    hide At, Ext, MatchLength;
    var two: seq<byte> := [offset % 256, offset / 256];
    AtSplit(src, p, two, LenBytes(mlen));
    AtByte(src, p, two, 0);
    AtByte(src, p, two, 1);
    if mlen >= 15 {
      ReadMatchExt(src, p + 2, 15, mlen - 15);
    }
  }

  // ---------------------------------------------------------------- where the decoder goes on

  /** What the decoder demands of sequences in a block of n bytes and an output buffer of oend: the distances of
      literals and matches to the two ends. */
  ghost predicate Roomy(qs: seq<Sequence>, n: nat, oend: nat) {
    qs == [] ||
    (var init, q := qs[..|qs| - 1], qs[|qs| - 1];
     && Roomy(init, n, oend)
     && |Encode(init)| + 1 + LenCost(|q.lits|) + |q.lits| + 2 + 1 + LASTLITERALS <= n
     && |Encode(qs)| + LASTLITERALS - 1 <= n
     && |Expand(init)| + |q.lits| + MFLIMIT <= oend && |Expand(qs)| + LASTLITERALS <= oend)
  }

  /** One encoded sequence is decoded. */
  lemma DecodeOneSequence(src: seq<byte>, ip: nat, out: seq<byte>, oend: nat, defined: bool, q: Sequence)
    requires q.offset <= |out| + |q.lits| && q.offset <= MAX_DISTANCE && At(src, ip, EncodeSeq(q))
    requires ip + |LiteralBytes(Nibble(q.mlen), q.lits)| + 2 + 1 + LASTLITERALS <= |src|
    requires ip + |EncodeSeq(q)| + LASTLITERALS - 1 <= |src|
    requires |out| + |q.lits| + MFLIMIT <= oend
    requires |out| + |q.lits| + q.mlen + MINMATCH + LASTLITERALS <= oend
    ensures DecodeTurn(src, ip, out, oend, defined)
         == More(ip + |EncodeSeq(q)|, MatchOf(out + q.lits, q.offset, q.mlen + MINMATCH), q.offset == 0)
  {
    hide At, LenCost, LiteralBytes, MatchBytes, MatchOf, DecodeTurn, MatchTurn;
    var first, second := LiteralBytes(Nibble(q.mlen), q.lits), MatchBytes(q.offset, q.mlen);
    AtSplit(src, ip, first, second);
    DecodeLiteralPart(src, ip, out, oend, defined, Nibble(q.mlen), q.lits);
    DecodeMatchPart(src, src[ip], ip + |first|, out + q.lits, oend, q.offset, q.mlen);
  }

  lemma DecodeLiteralPart(src: seq<byte>, ip: nat, out: seq<byte>, oend: nat, defined: bool, nibble: nat,
                          lits: seq<byte>)
    requires nibble <= 15 && At(src, ip, LiteralBytes(nibble, lits))
    requires |out| + |lits| + MFLIMIT <= oend && ip + |LiteralBytes(nibble, lits)| + 2 + 1 + LASTLITERALS <= |src|
    ensures ip < |src| && src[ip] % 16 == nibble
    ensures DecodeTurn(src, ip, out, oend, defined)
         == MatchTurn(src, src[ip], ip + |LiteralBytes(nibble, lits)|, out + lits, oend)
  {
    hide At, LiteralBytes, MatchTurn, LiteralPart, LenCost;
    ReadLiterals(src, ip, nibble, lits);
  }

  lemma DecodeMatchPart(src: seq<byte>, token: byte, p: nat, mid: seq<byte>, oend: nat, offset: nat, mlen: nat)
    requires offset <= |mid| && offset <= MAX_DISTANCE && token % 16 == Nibble(mlen)
    requires At(src, p, MatchBytes(offset, mlen))
    requires p + 2 + 1 + LASTLITERALS <= |src| && p + |MatchBytes(offset, mlen)| + LASTLITERALS - 1 <= |src|
    requires |mid| + mlen + MINMATCH + LASTLITERALS <= oend
    ensures MatchTurn(src, token, p, mid, oend)
         == More(p + |MatchBytes(offset, mlen)|, MatchOf(mid, offset, mlen + MINMATCH), offset == 0)
  {
    hide MatchOf, MatchPart, At, MatchBytes;
    ReadMatch(src, p, token, offset, mlen);
  }

  /** The final literals end the decoding, whatever the low half of their token. */
  lemma DecodeLastLiterals(src: seq<byte>, ip: nat, out: seq<byte>, oend: nat, defined: bool, nibble: nat,
                           last: seq<byte>)
    requires nibble <= 15 && At(src, ip, LiteralBytes(nibble, last)) && ip + |LiteralBytes(nibble, last)| == |src|
    requires |out| + |last| <= oend
    ensures DecodeTurn(src, ip, out, oend, defined) == End(Done(out + last, defined))
  {
    hide LiteralPart;
    ReadLiterals(src, ip, nibble, last);
  }

  lemma {:induction false} DecodeSequences(src: seq<byte>, qs: seq<Sequence>, oend: nat)
    requires Placed(qs) && Roomy(qs, |src|, oend) && At(src, 0, Encode(qs))
    ensures Decode(src, 0, [], oend, true) == Decode(src, |Encode(qs)|, Expand(qs), oend, NoZero(qs))
    decreases |qs|
  {
    hide At, Ext, LenBytes, LiteralBytes, MatchBytes, MatchPart, LiteralLength, MatchLength, DecodeTurn, EncodeSeq,
         MatchOf;
    if qs != [] {
      var init, q := qs[..|qs| - 1], qs[|qs| - 1];
      AtSplit(src, 0, Encode(init), EncodeSeq(q));
      DecodeSequences(src, init, oend);
      DecodeOneSequence(src, |Encode(init)|, Expand(init), oend, NoZero(init), q);
      assert qs == init + [q];
    }
  }

  // ---------------------------------------------------------------- blocks

  /** What the sequences need of the size of the buffer they are decoded into. */
  ghost predicate Fits(qs: seq<Sequence>, oend: nat)
    requires Valid(qs)
  {
    qs == [] ||
    (|Expand(qs)| + LASTLITERALS <= oend && |Expand(qs)| - qs[|qs| - 1].mlen - MINMATCH + MFLIMIT <= oend)
  }

  /** Sequences followed by a token and five literals have the room the decoder demands. */
  lemma {:induction false} FitsIsRoomy(qs: seq<Sequence>, n: nat, oend: nat)
    requires Valid(qs) && Fits(qs, oend) && |Encode(qs)| + 1 + LASTLITERALS <= n
    ensures Roomy(qs, n, oend)
    decreases |qs|
  {
    hide EncodeSeq, MatchOf;
    if qs != [] {
      var init, q := qs[..|qs| - 1], qs[|qs| - 1];
      assert |Expand(qs)| == |Expand(init)| + |q.lits| + q.mlen + MINMATCH;
      FitsIsRoomy(init, n, oend);
    }
  }

  /** Decoding any encoding that obeys the restrictions, into a buffer of exactly the text's size,
      gives the text back. */
  lemma DecodeBlock(block: seq<byte>, text: seq<byte>)
    requires IsBlockOf(block, text)
    ensures DecompressSafeSpec(block, |text|) == Done(text, true)
  {
    hide Valid, Ext, LenBytes, LenCost, MatchBytes, Decode;
    var qs, last :|
      Valid(qs) && EndsWell(qs, last) && block == Encode(qs) + EncodeLast(last) && text == Expand(qs) + last;
    if text == [] {
      assert qs == [];
      assert block == [0];
    } else {
      DecodeWhole(block, qs, last);
    }
  }

  lemma DecodeWhole(block: seq<byte>, qs: seq<Sequence>, last: seq<byte>)
    requires Valid(qs) && EndsWell(qs, last) && block == Encode(qs) + EncodeLast(last)
    ensures Decode(block, 0, [], |Expand(qs)| + |last|, true) == Done(Expand(qs) + last, true)
  {
    hide Valid, Ext, LenBytes, LenCost, MatchBytes, LiteralBytes, EncodeSeq, DecodeTurn, Roomy;
    var oend := |Expand(qs)| + |last|;
    ValidIsPlaced(qs);
    assert At(block, 0, Encode(qs) + EncodeLast(last));
    AtSplit(block, 0, Encode(qs), EncodeLast(last));
    if qs == [] { NothingIsRoomy(|block|, oend); } else { FitsIsRoomy(qs, |block|, oend); }
    DecodeSequences(block, qs, oend);
    DecodeLastLiterals(block, |Encode(qs)|, Expand(qs), oend, true, 0, last);
  }

  lemma NothingIsRoomy(n: nat, oend: nat)
    ensures Roomy([], n, oend)
  {
  }
}
