/**
 Which inputs LZ4_decompress_safe accepts, by the block format: exactly the encodings of sequences and last literals
 that keep the distances to the two buffer ends the decoder demands, and what it gives is what the sequences stand for.
 */
module Lz4Accept {
  import opened Lz4Block

  /** src is a block of `out` that the decoder takes with an output buffer of oend bytes; the low half of the last token
      is free.  `defined` says that no match has distance zero. */
  ghost predicate Accepted(src: seq<byte>, oend: nat, out: seq<byte>, defined: bool) {
    exists qs, nibble: nat, last :: AcceptedAs(src, oend, out, defined, qs, nibble, last)
  }

  ghost predicate AcceptedAs(src: seq<byte>, oend: nat, out: seq<byte>, defined: bool, qs: seq<Sequence>, nibble: nat,
                             last: seq<byte>)
  {
    && nibble <= 15 && Placed(qs) && Roomy(qs, |src|, oend) && defined == NoZero(qs)
    && src == Encode(qs) + LiteralBytes(nibble, last)
    && out == Expand(qs) + last && |out| <= oend
  }

  // ---------------------------------------------------------------- what is read is what is encoded

  /** Length bytes that leave as many bytes as they announce are the encoding of what they announce. */
  lemma {:induction false} LiteralLengthIs(src: seq<byte>, ip: nat, acc: nat) returns (n: nat)
    requires LiteralLength(src, ip, acc).Length? && acc >= RUN_MASK
    requires var r := LiteralLength(src, ip, acc); r.ip + r.len <= |src|
    ensures var r := LiteralLength(src, ip, acc); r.len == acc + n && src[ip..r.ip] == Ext(n)
    decreases |src| - ip
  {
    var r := LiteralLength(src, ip, acc);
    if ip + 1 < |src| - RUN_MASK && src[ip] == 255 {
      n := LiteralLengthIs(src, ip + 1, acc + 255);
      assert src[ip..r.ip] == [255] + src[ip + 1..r.ip];
      n := n + 255;
    } else {
      n := src[ip];
      assert n < 255;
      assert src[ip..r.ip] == [src[ip]];
    }
  }

  lemma {:induction false} MatchLengthIs(src: seq<byte>, ip: nat, acc: nat) returns (n: nat)
    requires MatchLength(src, ip, acc).Length?
    ensures var r := MatchLength(src, ip, acc); r.len == acc + n && src[ip..r.ip] == Ext(n)
    decreases |src| - ip
  {
    var r := MatchLength(src, ip, acc);
    if src[ip] == 255 {
      n := MatchLengthIs(src, ip + 1, acc + 255);
      assert src[ip..r.ip] == [255] + src[ip + 1..r.ip];
      n := n + 255;
    } else {
      n := src[ip];
      assert src[ip..r.ip] == [src[ip]];
    }
  }

  /** Token, length bytes and literals read are those of the literals. */
  lemma LiteralPartIs(src: seq<byte>, ip: nat)
    requires ip < |src| && LiteralPart(src, ip).Length?
    requires var r := LiteralPart(src, ip); r.ip + r.len <= |src|
    ensures var r := LiteralPart(src, ip);
            src[ip..r.ip + r.len] == LiteralBytes(src[ip] % 16, src[r.ip..r.ip + r.len])
  {
    hide LiteralLength, Ext;
    var r := LiteralPart(src, ip);
    var lits := src[r.ip..r.ip + r.len];
    assert src[ip] == Head(r.len, src[ip] % 16);
    assert src[ip..r.ip] == [src[ip]] + src[ip + 1..r.ip];
    if src[ip] / 16 == RUN_MASK {
      var n := LiteralLengthIs(src, ip + 1, RUN_MASK);
    }
    assert src[ip + 1..r.ip] == LenBytes(r.len);
    assert src[ip..r.ip + r.len] == src[ip..r.ip] + lits;
  }

  /** Offset and length bytes read are those of the match. */
  lemma MatchPartIs(src: seq<byte>, token: byte, p: nat)
    requires p <= |src| - (2 + 1 + LASTLITERALS) && MatchPart(src, token, p + 2).Length?
    ensures var r := MatchPart(src, token, p + 2);
            && token % 16 == Nibble(r.len - MINMATCH)
            && src[p..r.ip] == MatchBytes(Le16(src[p], src[p + 1]), r.len - MINMATCH)
  {
    hide MatchLength, Ext;
    var r := MatchPart(src, token, p + 2);
    if token % 16 == ML_MASK {
      var n := MatchLengthIs(src, p + 2, ML_MASK);
    }
    assert src[p + 2..r.ip] == LenBytes(r.len - MINMATCH);
    assert src[p..r.ip] == [src[p], src[p + 1]] + src[p + 2..r.ip];
  }

  // ---------------------------------------------------------------- turns

  /** A turn after which decoding goes on has read one sequence, at the distances demanded. */
  lemma MoreIsSequence(src: seq<byte>, ip: nat, out: seq<byte>, oend: nat, defined: bool) returns (q: Sequence)
    requires DecodeTurn(src, ip, out, oend, defined).More?
    ensures var t := DecodeTurn(src, ip, out, oend, defined);
            && src[ip..t.ip] == EncodeSeq(q) && t.zeroOffset == (q.offset == 0)
            && q.offset <= |out| + |q.lits| && q.offset <= MAX_DISTANCE
            && t.out == MatchOf(out + q.lits, q.offset, q.mlen + MINMATCH)
            && ip + 1 + LenCost(|q.lits|) + |q.lits| + 2 + 1 + LASTLITERALS <= |src| && t.ip + LASTLITERALS - 1 <= |src|
            && |out| + |q.lits| + MFLIMIT <= oend && |t.out| + LASTLITERALS <= oend
  {
    hide MatchOf, LiteralPart, MatchPart, LiteralBytes, MatchBytes, LenCost;
    var lit := LiteralPart(src, ip);
    var p := lit.ip + lit.len;
    LiteralPartIs(src, ip);
    MatchPartIs(src, src[ip], p);
    var m := MatchPart(src, src[ip], p + 2);
    q := Sequence(src[lit.ip..p], Le16(src[p], src[p + 1]), m.len - MINMATCH);
    assert src[ip..m.ip] == src[ip..p] + src[p..m.ip];
    assert |src[ip..p]| == p - ip;
  }

  /** A turn that ends well has read last literals, up to the end of the input. */
  lemma DoneIsLast(src: seq<byte>, ip: nat, out: seq<byte>, oend: nat, defined: bool)
      returns (nibble: nat, last: seq<byte>)
    requires DecodeTurn(src, ip, out, oend, defined).End? && DecodeTurn(src, ip, out, oend, defined).outcome.Done?
    ensures ip <= |src| && nibble <= 15 && src[ip..] == LiteralBytes(nibble, last)
    ensures DecodeTurn(src, ip, out, oend, defined).outcome == Done(out + last, defined) && |out| + |last| <= oend
  {
    hide LiteralPart, MatchPart, LiteralBytes, MatchOf;
    var lit := LiteralPart(src, ip);
    nibble, last := src[ip] % 16, src[lit.ip..lit.ip + lit.len];
    LiteralPartIs(src, ip);
    assert src[ip..|src|] == src[ip..];
  }

  // ---------------------------------------------------------------- whole inputs

  lemma OneMore(src: seq<byte>, qs: seq<Sequence>, q: Sequence, oend: nat)
    requires Placed(qs) && Roomy(qs, |src|, oend) && |Encode(qs)| + |EncodeSeq(q)| + LASTLITERALS - 1 <= |src|
    requires src[..|Encode(qs)|] == Encode(qs)
    requires src[|Encode(qs)|..|Encode(qs)| + |EncodeSeq(q)|] == EncodeSeq(q)
    requires q.offset <= |Expand(qs)| + |q.lits| && q.offset <= MAX_DISTANCE
    requires |Encode(qs)| + 1 + LenCost(|q.lits|) + |q.lits| + 2 + 1 + LASTLITERALS <= |src|
    requires |Expand(qs)| + |q.lits| + MFLIMIT <= oend
    requires |Expand(qs)| + |q.lits| + q.mlen + MINMATCH + LASTLITERALS <= oend
    ensures Placed(qs + [q]) && Roomy(qs + [q], |src|, oend)
    ensures Encode(qs + [q]) == Encode(qs) + EncodeSeq(q) && src[..|Encode(qs + [q])|] == Encode(qs + [q])
    ensures Expand(qs + [q]) == MatchOf(Expand(qs) + q.lits, q.offset, q.mlen + MINMATCH)
    ensures NoZero(qs + [q]) == (NoZero(qs) && q.offset != 0)
  {
    hide EncodeSeq, MatchOf, LenCost;
    assert (qs + [q])[..|qs|] == qs;
    var n, m := |Encode(qs)|, |Encode(qs)| + |EncodeSeq(q)|;
    assert src[..m] == src[..n] + src[n..m];
    assert q in qs + [q];
  }

  lemma {:induction false} DecodedIs(src: seq<byte>, qs: seq<Sequence>, oend: nat, out: seq<byte>, defined: bool)
    requires Placed(qs) && Roomy(qs, |src|, oend) && |Encode(qs)| <= |src| && src[..|Encode(qs)|] == Encode(qs)
    requires Decode(src, |Encode(qs)|, Expand(qs), oend, NoZero(qs)) == Done(out, defined)
    ensures Accepted(src, oend, out, defined)
    decreases |src| - |Encode(qs)|
  {
    hide DecodeTurn, Placed, Roomy, NoZero, Encode, Expand, EncodeSeq, LiteralBytes, MatchOf;
    var ip := |Encode(qs)|;
    var t := DecodeTurn(src, ip, Expand(qs), oend, NoZero(qs));
    if t.End? {
      var nibble, last := DoneIsLast(src, ip, Expand(qs), oend, NoZero(qs));
      assert src == src[..ip] + src[ip..];
      assert AcceptedAs(src, oend, out, defined, qs, nibble, last);
    } else {
      var q := MoreIsSequence(src, ip, Expand(qs), oend, NoZero(qs));
      assert |src[ip..t.ip]| == t.ip - ip;
      OneMore(src, qs, q, oend);
      DecodedIs(src, qs + [q], oend, out, defined);
    }
  }

  /** What is accepted is decoded. */
  lemma AcceptedIsDecoded(src: seq<byte>, oend: nat, out: seq<byte>, defined: bool)
    requires Accepted(src, oend, out, defined)
    ensures Decode(src, 0, [], oend, true) == Done(out, defined)
  {
    hide DecodeTurn, Placed, Roomy, NoZero, Encode, Expand, LiteralBytes;
    var qs, nibble: nat, last :| AcceptedAs(src, oend, out, defined, qs, nibble, last);
    assert src[0..|src|] == src && At(src, 0, Encode(qs) + LiteralBytes(nibble, last));
    AtSplit(src, 0, Encode(qs), LiteralBytes(nibble, last));
    DecodeSequences(src, qs, oend);
    DecodeLastLiterals(src, |Encode(qs)|, Expand(qs), oend, defined, nibble, last);
  }

  /** The decoder succeeds on exactly the blocks it accepts, and gives exactly what they stand for. */
  lemma DecodesExactly(src: seq<byte>, oend: nat, out: seq<byte>, defined: bool)
    requires oend > 0
    ensures DecompressSafeSpec(src, oend) == Done(out, defined) <==> Accepted(src, oend, out, defined)
  {
    hide Decode, Accepted;
    if DecompressSafeSpec(src, oend) == Done(out, defined) {
      NoSequences(src, oend);
      DecodedIs(src, [], oend, out, defined);
    }
    if Accepted(src, oend, out, defined) { AcceptedIsDecoded(src, oend, out, defined); }
  }

  lemma NoSequences(src: seq<byte>, oend: nat)
    ensures Placed([]) && Roomy([], |src|, oend) && NoZero([]) && Encode([]) == [] && Expand([]) == []
  {
  }

  /** On every other input it returns a negative number, or would read behind the input. */
  lemma {:induction false} FailsBelowZero(src: seq<byte>, ip: nat, out: seq<byte>, oend: nat, defined: bool)
    requires Decode(src, ip, out, oend, defined).Fail?
    ensures Decode(src, ip, out, oend, defined).code < 0
    decreases |src| - ip
  {
    hide LiteralPart, MatchOf;
    var t := DecodeTurn(src, ip, out, oend, defined);
    if t.More? { FailsBelowZero(src, t.ip, t.out, oend, defined && !t.zeroOffset); }
  }

  /** So the sign of the result tells: not below zero exactly on the accepted blocks. */
  lemma SucceedsExactly(src: seq<byte>, oend: nat)
    requires oend > 0
    ensures DecompressSafeSpec(src, oend).Done? <==> exists out, defined :: Accepted(src, oend, out, defined)
    ensures DecompressSafeSpec(src, oend).Done? ==>
              var o := DecompressSafeSpec(src, oend); Accepted(src, oend, o.out, o.defined)
    ensures DecompressSafeSpec(src, oend).Fail? ==> DecompressSafeSpec(src, oend).code < 0
  {
    hide Decode, Accepted, DecompressSafeSpec;
    var o := DecompressSafeSpec(src, oend);
    if o.Done? { DecodesExactly(src, oend, o.out, o.defined); }
    if out, defined :| Accepted(src, oend, out, defined) { DecodesExactly(src, oend, out, defined); }
    if o.Fail? { SpecIsDecode(src, oend); FailsBelowZero(src, 0, [], oend, true); }
  }

  lemma SpecIsDecode(src: seq<byte>, oend: nat)
    requires oend > 0
    ensures DecompressSafeSpec(src, oend) == Decode(src, 0, [], oend, true)
  {
  }
}
