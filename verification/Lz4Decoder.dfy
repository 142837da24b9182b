/** LZ4_decompress_generic as LZ4_decompress_safe instantiates it (endOnInputSize, full decoding,
    no dictionary), on byte arrays. */
module Lz4Decoder {
  import opened Lz4Block
  import opened Lz4Memory
  import opened Lz4Accept

  /** The literal-length loop.  Every byte read is inside src, or overread is reported. */
  method ReadLiteralLength(src: array<byte>, ip0: nat) returns (ip: nat, length: nat, overread: bool)
    ensures overread == LiteralLength(src[..], ip0, RUN_MASK).LengthOverread?
    ensures !overread ==> LiteralLength(src[..], ip0, RUN_MASK) == Length(ip, length)
  {
    ip, length, overread := ip0, RUN_MASK, false;
    var again := true;
    while again
      invariant LiteralLength(src[..], ip0, RUN_MASK)
             == (if again then LiteralLength(src[..], ip, length) else Length(ip, length))
      decreases again, src.Length - ip
    {
      if ip >= src.Length { overread := true; return; }
      var s := src[ip];
      ip, length := ip + 1, length + s;
      again := ip < src.Length - RUN_MASK && s == 255;
    }
  }

  method ReadMatchLength(src: array<byte>, ip0: nat) returns (ip: nat, length: nat, ok: bool)
    ensures ok == MatchLength(src[..], ip0, ML_MASK).Length?
    ensures ok ==> MatchLength(src[..], ip0, ML_MASK) == Length(ip, length)
    ensures !ok ==> MatchLength(src[..], ip0, ML_MASK) == LengthFail(ErrorCode(ip))
  {
    ip, length, ok := ip0, ML_MASK, true;
    var again := true;
    while again
      invariant MatchLength(src[..], ip0, ML_MASK)
             == (if again then MatchLength(src[..], ip, length) else Length(ip, length))
      decreases again, src.Length - ip
    {
      if ip > src.Length - LASTLITERALS { ok := false; return; }
      var s := src[ip];
      ip, length := ip + 1, length + s;
      again := s == 255;
    }
  }

  /** What the decoder leaves agrees with an outcome of the reference decoder. */
  ghost predicate Agrees(o: Outcome, r: int, overread: bool, dst: seq<byte>) {
    match o
    case Overread => overread
    case Fail(code) => !overread && r == code
    case Done(out, defined) => !overread && r == |out| <= |dst| && (defined ==> out <= dst)
  }

  /** `out` is what the reference decoder has produced where the buffer holds its first bytes. */
  ghost predicate Holds(dst: seq<byte>, op: nat, out: seq<byte>, defined: bool) {
    |out| == op <= |dst| && (defined ==> dst[..op] == out)
  }

  /** The offset and match of one sequence: src[p..] is read, dst[op..] written. */
  method DecodeMatch(src: array<byte>, dst: array<byte>, token: byte, p: nat, op: nat,
                     ghost mid: seq<byte>, ghost defined: bool)
      returns (ip: nat, op': nat, ok: bool)
    requires src != dst && p <= src.Length - (2 + 1 + LASTLITERALS) && op + MFLIMIT <= dst.Length
    requires Holds(dst[..], op, mid, defined)
    modifies dst
    ensures var t := MatchTurn(src[..], token, p, mid, dst.Length);
            if ok then t.More? && t.ip == ip && Holds(dst[..], op', t.out, defined && !t.zeroOffset)
            else t == End(Fail(ErrorCode(ip)))
  {
    hide CopyMatch;
    op', ok := op, true;
    var offset := Le16(src[p], src[p + 1]);
    ip := p + 2;
    if op - offset < 0 { ok := false; return; }
    var length := token % 16;
    if length == ML_MASK {
      ip, length, ok := ReadMatchLength(src, ip);
      if !ok { return; }
    }
    length := length + MINMATCH;
    var cpy := op + length;
    assert dst[..][..op] == dst[..op];
    ok := CopyMatchFast(dst, op, op - offset, cpy);
    assert ok ==> dst[..][..cpy] == dst[..cpy];
    op' := cpy;
  }

  /** One turn of the loop: a sequence is decoded, or decoding ends. */
  method DecodeSequence(src: array<byte>, dst: array<byte>, ip0: nat, op0: nat, ghost out: seq<byte>,
                        ghost defined: bool)
      returns (more: bool, ip: nat, op: nat, r: int, overread: bool)
    requires src != dst && Holds(dst[..], op0, out, defined)
    modifies dst
    ensures var t := DecodeTurn(src[..], ip0, out, dst.Length, defined);
            if more then t.More? && t.ip == ip && Holds(dst[..], op, t.out, defined && !t.zeroOffset)
            else t.End? && Agrees(t.outcome, r, overread, dst[..])
  {
    hide LiteralLength, MatchTurn;
    more, ip, op, r, overread := false, ip0, op0, 0, false;
    ghost var text := src[..];
    if ip0 >= src.Length { overread := true; return; }
    var token := src[ip0];
    var length, start := token / 16, ip0 + 1;
    if length == RUN_MASK {
      start, length, overread := ReadLiteralLength(src, ip0 + 1);
      if overread { return; }
    }
    assert LiteralPart(text, ip0) == Length(start, length);
    hide LiteralPart;
    var cpy := op0 + length;
    if cpy > dst.Length - MFLIMIT || start + length > src.Length - (2 + 1 + LASTLITERALS) {
      r := ErrorCode(start);
      if start + length != src.Length || cpy > dst.Length { return; }
      CopyBytes(dst, op0, src, start, length);
      r := cpy;
      return;
    }
    ghost var mid := out + src[start..start + length];
    WildCopyLiterals(dst, op0, src, start, cpy);
    ip, op, more := DecodeMatch(src, dst, token, start + length, cpy, mid, defined);
    if !more { r := ErrorCode(ip); }
  }

  /** LZ4_decompress_generic refines the reference decoder on every input. */
  method DecompressGeneric(src: array<byte>, dst: array<byte>) returns (r: int, overread: bool)
    requires src != dst
    modifies dst
    ensures Agrees(DecompressSafeSpec(src[..], dst.Length), r, overread, dst[..])
  {
    hide DecodeTurn, Agrees;
    if dst.Length == 0 {
      r, overread := EmptyOutput(src, dst);
      return;
    }
    var ip: nat, op: nat := 0, 0;
    ghost var text, out, defined := src[..], [], true;
    while true
      invariant Holds(dst[..], op, out, defined)
      invariant src[..] == text
      invariant DecompressSafeSpec(text, dst.Length) == Decode(text, ip, out, dst.Length, defined)
      decreases src.Length - ip
    {
      ghost var t := DecodeTurn(text, ip, out, dst.Length, defined);
      var more;
      more, ip, op, r, overread := DecodeSequence(src, dst, ip, op, out, defined);
      if !more { return; }
      out, defined := t.out, defined && !t.zeroOffset;
    }
  }

  /** An output buffer without bytes. */
  method EmptyOutput(src: array<byte>, dst: array<byte>) returns (r: int, overread: bool)
    requires dst.Length == 0
    ensures Agrees(DecompressSafeSpec(src[..], dst.Length), r, overread, dst[..])
  {
    return if src.Length == 1 && src[0] == 0 then 0 else -1, false;
  }

  /** The same return value as the reference decoder, and the same text whenever the block determines it.  Every
      byte read or written, by wild copies too, is inside the two buffers; where the source would read a byte
      past its input, which is exactly on the inputs named, the method stops with `overread`. */
  method DecompressSafe(src: array<byte>, dst: array<byte>) returns (r: int, overread: bool)
    requires src != dst
    modifies dst
    ensures Agrees(DecompressSafeSpec(src[..], dst.Length), r, overread, dst[..])
    ensures overread <==> dst.Length > 0 && (src.Length == 0 || (src.Length == 1 && src[0] >= 240))
    ensures dst.Length == 0 ==> r == if src[..] == [0] then 0 else -1
    ensures dst.Length > 0 && !overread ==>
              (r >= 0 <==> exists out, defined :: Accepted(src[..], dst.Length, out, defined))
    ensures dst.Length > 0 && !overread && r >= 0 ==>
              exists out, defined ::
                Accepted(src[..], dst.Length, out, defined) && |out| == r && (defined ==> dst[..r] == out)
  {
    OverreadExactlyWhen(src[..], dst.Length);
    if dst.Length > 0 { SucceedsExactly(src[..], dst.Length); }
    hide Accepted;
    ghost var o := DecompressSafeSpec(src[..], dst.Length);
    EmptyOutputSpec(src[..]);
    hide DecompressSafeSpec;
    r, overread := DecompressGeneric(src, dst);
    if dst.Length > 0 && o.Done? {
      assert Accepted(src[..], dst.Length, o.out, o.defined);
      assert o.defined ==> dst[..][..r] == dst[..r];
    }
  }

  lemma EmptyOutputSpec(src: seq<byte>)
    ensures DecompressSafeSpec(src, 0) == if src == [0] then Done([], true) else Fail(-1)
  {
  }
}
