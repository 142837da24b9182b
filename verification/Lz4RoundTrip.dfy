/** Compressing and decompressing, end to end. */
module Lz4RoundTrip {
  import opened Lz4Block
  import opened Lz4Emit
  import Lz4Decoder
  import Lz4Limited
  import Lz4DestSize

  /** Decoding a block of `text` into a buffer of exactly its size restores it. */
  method Restore(block: array<byte>, out: array<byte>, ghost text: seq<byte>) returns (r: int)
    requires block != out && |text| == out.Length && IsBlockOf(block[..], text)
    modifies out
    ensures r == out.Length && out[..] == text
  {
    hide IsBlockOf, DecompressSafeSpec;
    DecodeBlock(block[..], text);
    var overread;
    r, overread := Lz4Decoder.DecompressSafe(block, out);
  }

  /** LZ4_compress_default, then LZ4_decompress_safe.  For every source of supported size and every output
      buffer of compressBound bytes or more, compression succeeds within the bound and every byte comes back;
      for a smaller buffer, whatever was compressed inside it comes back. */
  method CompressThenDecompress(src: array<byte>, dst: array<byte>, out: array<byte>)
      returns (packed: nat, overrun: bool, r: int)
    requires src != dst && src != out && dst != out && out.Length == src.Length
    modifies dst, out
    ensures overrun ==> src.Length >= Lz4Limited.LONG_SOURCE && dst.Length < CompressBound(src.Length)
    ensures src.Length <= LZ4_MAX_INPUT_SIZE && dst.Length >= CompressBound(src.Length) ==>
              0 < packed <= CompressBound(src.Length)
    ensures packed > 0 && !overrun ==> r == src.Length && out[..] == old(src[..])
  {
    hide IsBlockOf, CompressBound;
    r := 0;
    packed, overrun := Lz4Limited.CompressDefault(src, dst);
    if packed == 0 || overrun { return; }
    var block := new byte[packed](i requires 0 <= i < dst.Length reads dst => dst[i]);
    assert block[..] == dst[..packed];
    r := Restore(block, out, src[..]);
  }

  /** LZ4_compress_destSize, then LZ4_decompress_safe into a buffer of exactly the consumed length:
      the prefix of the source that was consumed comes back. */
  method CompressPrefixThenDecompress(src: array<byte>, dst: array<byte>)
      returns (written: nat, consumed: nat, out: array<byte>, r: int)
    requires src != dst && src.Length <= LZ4_MAX_INPUT_SIZE && dst.Length >= 1
    modifies dst
    ensures written <= dst.Length && consumed <= src.Length
    ensures fresh(out) && r == consumed && out[..] == old(src[..consumed])
  {
    hide IsBlockOf, CompressBound;
    written, consumed := Lz4DestSize.CompressDestSize(src, dst);
    var block := new byte[written](i requires 0 <= i < dst.Length reads dst => dst[i]);
    assert block[..] == dst[..written];
    out := new byte[consumed];
    r := Restore(block, out, src[..consumed]);
  }
}
