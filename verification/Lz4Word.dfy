/** Comparing bytes a word at a time (lz4.c): a little-endian word, the exclusive-or of two, and the number of
    trailing zero bits, whose eighth is the number of bytes in front of the first that differs. */
module Lz4Word {
  import opened Lz4Block
  import opened Powers

  /** LZ4_read16, LZ4_read32 and LZ4_read_ARCH, of as many bytes. */
  function Word(bytes: seq<byte>): nat {
    if bytes == [] then 0 else bytes[0] + 256 * Word(bytes[1..])
  }

  /** a ^ b, bit by bit. */
  function Xor(a: nat, b: nat): nat {
    if a == 0 && b == 0 then 0 else (if a % 2 != b % 2 then 1 else 0) + 2 * Xor(a / 2, b / 2)
  }

  /** __builtin_ctzll. */
  function TrailingZeros(x: nat): nat
    requires x > 0
  {
    if x % 2 == 1 then 0 else 1 + TrailingZeros(x / 2)
  }

  /** LZ4_NbCommonBytes on a little-endian machine. */
  function NbCommonBytes(diff: nat): nat
    requires diff > 0
  {
    TrailingZeros(diff) / 8
  }

  lemma {:induction false} XorIsZero(a: nat, b: nat)
    ensures Xor(a, b) == 0 <==> a == b
    decreases a + b
  {
    if a != 0 || b != 0 { XorIsZero(a / 2, b / 2); }
  }

  lemma HalfOfSum(x: nat, h: nat, r: nat)
    ensures (x + (2 * h) * r) / 2 == x / 2 + h * r && (x + (2 * h) * r) % 2 == x % 2
  {
    assert (2 * h) * r == 2 * (h * r);
  }

  /** The low k bits and the others are combined separately. */
  lemma {:induction false} XorSplits(k: nat, x: nat, y: nat, r: nat, s: nat)
    requires x < Pow2(k) && y < Pow2(k)
    ensures Xor(x + Pow2(k) * r, y + Pow2(k) * s) == Xor(x, y) + Pow2(k) * Xor(r, s) && Xor(x, y) < Pow2(k)
    decreases k
  {
    hide Xor;
    if k == 0 {
      XorUnfolds(0, 0);
    } else {
      var h, p, q := Pow2(k - 1), Xor(x / 2, y / 2), Xor(r, s);
      HalfOfSum(x, h, r);
      HalfOfSum(y, h, s);
      XorSplits(k - 1, x / 2, y / 2, r, s);
      XorUnfolds(x, y);
      XorUnfolds(x + (2 * h) * r, y + (2 * h) * s);
      assert 2 * (p + h * q) == 2 * p + (2 * h) * q;
    }
  }

  lemma XorUnfolds(a: nat, b: nat)
    ensures Xor(a, b) == (if a % 2 != b % 2 then 1 else 0) + 2 * Xor(a / 2, b / 2)
  {
  }

  /** Trailing zeros below bit k are those of the low k bits; if these are all zero, the count goes on above them. */
  lemma {:induction false} ZerosSplit(k: nat, x: nat, z: nat)
    requires x < Pow2(k) && x + Pow2(k) * z > 0
    ensures x > 0 ==> TrailingZeros(x + Pow2(k) * z) < k
    ensures x == 0 ==> z > 0 && TrailingZeros(x + Pow2(k) * z) == k + TrailingZeros(z)
    decreases k
  {
    if k > 0 {
      var h := Pow2(k - 1);
      HalfOfSum(x, h, z);
      if x % 2 == 0 {
        assert x / 2 + h * z > 0;
        ZerosSplit(k - 1, x / 2, z);
      }
    }
  }

  /** The words differ if and only if the bytes do, and then the common bytes of their exclusive-or are the
      bytes in front of the first difference. */
  lemma {:induction false} CommonBytesOfWords(a: seq<byte>, b: seq<byte>) returns (n: nat)
    requires |a| == |b|
    ensures n <= |a| && a[..n] == b[..n] && (n < |a| ==> a[n] != b[n])
    ensures n == |a| <==> Xor(Word(a), Word(b)) == 0
    ensures n < |a| ==> NbCommonBytes(Xor(Word(a), Word(b))) == n
    decreases |a|
  {
    hide Xor, TrailingZeros;
    n := 0;
    if a == [] {
      XorIsZero(0, 0);
    } else {
      var r, s := Word(a[1..]), Word(b[1..]);
      assert Pow2(8) == 256 by { assert Pow2(4) == 16; }
      XorSplits(8, a[0], b[0], r, s);
      XorIsZero(a[0], b[0]);
      var diff := Xor(Word(a), Word(b));
      assert diff == Xor(a[0], b[0]) + 256 * Xor(r, s);
      if diff > 0 { ZerosSplit(8, Xor(a[0], b[0]), Xor(r, s)); }
      if a[0] == b[0] {
        var rest := CommonBytesOfWords(a[1..], b[1..]);
        n := rest + 1;
        assert a[..n] == [a[0]] + a[1..][..rest] && b[..n] == [b[0]] + b[1..][..rest];
      }
    }
  }
}
