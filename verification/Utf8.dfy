/**
 UTF8::Decode and Validate of encodings.h, and that they recognise exactly what UTF8::Encode produces from scalar
 values.
 */
module Utf8Encoding {
  import opened JsonGrammar
  import opened Wrappers

  /** The table type[] of GetRange. */
  function GetRange(c: char): nat {
    if c < '\U{80}' then 0
    else if c < '\U{90}' then 0x10 else if c < '\U{A0}' then 0x40 else if c < '\U{C0}' then 0x20
    else if c < '\U{C2}' then 8 else if c < '\U{E0}' then 2
    else if c == '\U{E0}' then 10 else if c == '\U{ED}' then 4 else if c < '\U{F0}' then 3
    else if c == '\U{F0}' then 11 else if c < '\U{F4}' then 6 else if c == '\U{F4}' then 5
    else 8
  }

  /** GetRange(c) & mask is not zero, for masks made of 0x10, 0x20 and 0x40. */
  predicate InMask(c: char, mask: nat) {
    var r := GetRange(c);
    (r == 0x10 && mask / 0x10 % 2 == 1) || (r == 0x20 && mask / 0x20 % 2 == 1) || (r == 0x40 && mask / 0x40 % 2 == 1)
  }

  const ANY := 0x70

  datatype Decoded = Decoded(codepoint: nat, length: nat)

  /** The low six bits. */
  function Low6(c: char): nat { c as int % 0x40 }

  /** Two, three or four bytes; `mask` is what the second byte must meet. */
  function Two(t: string, p: nat, lead: nat): Option<Decoded> {
    if InMask(Peek(t, p + 1), ANY) then Some(Decoded(lead * 0x40 + Low6(Peek(t, p + 1)), 2)) else None
  }

  function Three(t: string, p: nat, lead: nat, mask: nat): Option<Decoded> {
    var b, c := Peek(t, p + 1), Peek(t, p + 2);
    if InMask(b, mask) && InMask(c, ANY) then Some(Decoded((lead * 0x40 + Low6(b)) * 0x40 + Low6(c), 3)) else None
  }

  function Four(t: string, p: nat, lead: nat, mask: nat): Option<Decoded> {
    var b, c, d := Peek(t, p + 1), Peek(t, p + 2), Peek(t, p + 3);
    if InMask(b, mask) && InMask(c, ANY) && InMask(d, ANY)
    then Some(Decoded(((lead * 0x40 + Low6(b)) * 0x40 + Low6(c)) * 0x40 + Low6(d), 4)) else None
  }

  /** UTF8::Decode at p; Validate accepts the same sequences and copies them. */
  function Decode(t: string, p: nat): (r: Option<Decoded>)
    requires p < |t|
    ensures r.Some? ==> 1 <= r.value.length <= 4 && p + r.value.length <= |t|
  {
    var c := t[p];
    if c < '\U{80}' then Some(Decoded(c as int, 1)) else
    var range := GetRange(c);
    if range == 2 then Two(t, p, c as int % 0x40)
    else if range == 3 then Three(t, p, c as int % 0x20, ANY)
    else if range == 4 then Three(t, p, c as int % 0x10, 0x50)
    else if range == 5 then Four(t, p, c as int % 0x08, 0x10)
    else if range == 6 then Four(t, p, c as int % 0x04, ANY)
    else if range == 10 then Three(t, p, 0, 0x20)
    else if range == 11 then Four(t, p, 0, 0x60)
    else None
  }

  /** Unicode scalar values: everything up to 10FFFF but the surrogates. */
  predicate IsScalar(codepoint: nat) { codepoint <= 0x10FFFF && !(0xD800 <= codepoint <= 0xDFFF) }

  predicate IsByte(c: char) { c as int < 0x100 }

  predicate Bytes(s: string) { forall c :: c in s ==> IsByte(c) }

  // six-bit groups

  function Join2(x: nat, y: nat): nat { x * 0x40 + y }

  function Join3(x: nat, y: nat, z: nat): nat { Join2(Join2(x, y), z) }

  function Join4(x: nat, y: nat, z: nat, w: nat): nat { Join2(Join3(x, y, z), w) }

  lemma Split2(x: nat, y: nat)
    requires y < 0x40
    ensures Join2(x, y) / 0x40 == x && Join2(x, y) % 0x40 == y
  {
  }

  lemma DivTwice(n: nat)
    ensures n / 0x1000 == n / 0x40 / 0x40 && n / 0x40000 == n / 0x40 / 0x40 / 0x40
  {
  }

  lemma Split3(x: nat, y: nat, z: nat)
    requires y < 0x40 && z < 0x40
    ensures var n := Join3(x, y, z); n / 0x1000 == x && n / 0x40 % 0x40 == y && n % 0x40 == z
  {
    Split2(Join2(x, y), z);
    Split2(x, y);
    DivTwice(Join3(x, y, z));
  }

  lemma Split4(x: nat, y: nat, z: nat, w: nat)
    requires y < 0x40 && z < 0x40 && w < 0x40
    ensures var n := Join4(x, y, z, w);
            n / 0x40000 == x && n / 0x1000 % 0x40 == y && n / 0x40 % 0x40 == z && n % 0x40 == w
  {
    Split2(Join3(x, y, z), w);
    Split3(x, y, z);
    DivTwice(Join4(x, y, z, w));
    DivTwice(Join3(x, y, z));
  }

  /** A continuation byte. */
  function Cont(y: nat): char
    requires y < 0x40
  {
    Unit(0x80 + y)
  }

  lemma ContIs(c: char, mask: nat)
    requires InMask(c, mask)
    ensures '\U{80}' <= c < '\U{C0}' && Low6(c) == c as int - 0x80 && c == Cont(Low6(c))
  {
  }

  lemma Utf8OfTwo(x: nat, y: nat)
    requires 2 <= x < 0x20 && y < 0x40
    ensures 0x80 <= Join2(x, y) <= 0x7FF && Utf8(Join2(x, y)) == [Unit(0xC0 + x), Cont(y)]
  {
    Split2(x, y);
  }

  lemma Utf8OfThree(x: nat, y: nat, z: nat)
    requires x < 0x10 && y < 0x40 && z < 0x40 && (x > 0 || y >= 0x20)
    ensures 0x800 <= Join3(x, y, z) <= 0xFFFF && Utf8(Join3(x, y, z)) == [Unit(0xE0 + x), Cont(y), Cont(z)]
    ensures 0xD800 <= Join3(x, y, z) <= 0xDFFF <==> x == 0xD && y >= 0x20
  {
    Split3(x, y, z);
  }

  lemma Utf8OfFour(x: nat, y: nat, z: nat, w: nat)
    requires x <= 4 && y < 0x40 && z < 0x40 && w < 0x40 && (x > 0 || y >= 0x10) && (x == 4 ==> y < 0x10)
    ensures 0x10000 <= Join4(x, y, z, w) <= 0x10FFFF
            && Utf8(Join4(x, y, z, w)) == [Unit(0xF0 + x), Cont(y), Cont(z), Cont(w)]
  {
    Split4(x, y, z, w);
  }

  lemma SecondOf(c: char, mask: nat)
    requires InMask(c, mask)
    ensures mask == 0x50 ==> Low6(c) < 0x20
    ensures mask == 0x10 ==> Low6(c) < 0x10
    ensures mask == 0x20 ==> Low6(c) >= 0x20
    ensures mask == 0x60 ==> Low6(c) >= 0x10
  {
  }

  /** What is decoded is a scalar value, and encoding it gives the bytes back: no overlong form is accepted. */
  lemma DecodedIsEncoded(t: string, p: nat)
    requires p < |t| && Decode(t, p).Some? && Bytes(t)
    ensures var d := Decode(t, p).value;
            IsScalar(d.codepoint) && Utf8(d.codepoint) == t[p..p + d.length]
  {
    var d, a := Decode(t, p).value, t[p];
    assert a in t;
    if d.length == 1 {
      assert t[p..p + 1] == [a];
    } else if d.length == 2 {
      ContIs(t[p + 1], ANY);
      TwoDecoded(a, t[p + 1]);
      assert t[p..p + 2] == [a, t[p + 1]];
    } else if d.length == 3 {
      assert t[p..p + 3] == [a, t[p + 1], t[p + 2]];
      ThreeDecoded(t, p);
    } else {
      assert t[p..p + 4] == [a, t[p + 1], t[p + 2], t[p + 3]];
      FourDecoded(t, p);
    }
  }

  lemma TwoDecoded(a: char, b: char)
    requires GetRange(a) == 2 && InMask(b, ANY)
    ensures var n := Join2(a as int % 0x40, Low6(b)); IsScalar(n) && n <= 0x7FF && Utf8(n) == [a, b]
  {
    ContIs(b, ANY);
    assert a as int % 0x40 == a as int - 0xC0;
    Utf8OfTwo(a as int - 0xC0, Low6(b));
  }

  /** The lead byte of three, and what its mask leaves of the second. */
  lemma ThreeLead(a: char, b: char, mask: nat)
    requires IsByte(a) && GetRange(a) in {3, 4, 10} && InMask(b, mask)
    requires mask == if GetRange(a) == 4 then 0x50 else if GetRange(a) == 10 then 0x20 else ANY
    ensures var x := a as int - 0xE0;
            0 <= x < 0x10 && a == Unit(0xE0 + x) && (x > 0 || Low6(b) >= 0x20) && !(x == 0xD && Low6(b) >= 0x20)
            && (if GetRange(a) == 3 then a as int % 0x20 == x
                else if GetRange(a) == 4 then a as int % 0x10 == x
                else x == 0)
  {
    ContIs(b, mask);
    SecondOf(b, mask);
  }

  lemma ThreeDecoded(t: string, p: nat)
    requires p < |t| && Decode(t, p).Some? && Decode(t, p).value.length == 3 && IsByte(t[p])
    ensures var n := Decode(t, p).value.codepoint; IsScalar(n) && Utf8(n) == [t[p], t[p + 1], t[p + 2]]
  {
    var a, b, c := t[p], t[p + 1], t[p + 2];
    var range := GetRange(a);
    var mask := if range == 4 then 0x50 else if range == 10 then 0x20 else ANY;
    hide InMask, Cont, Low6, Utf8;
    assert range in {3, 4, 10} && InMask(b, mask) && InMask(c, ANY);
    hide GetRange;
    ThreeLead(a, b, mask);
    ContIs(b, mask);
    ContIs(c, ANY);
    var x := a as int - 0xE0;
    assert Decode(t, p) == Three(t, p, x, mask);
    Utf8OfThree(x, Low6(b), Low6(c));
  }

  lemma FourLead(a: char, b: char, mask: nat)
    requires IsByte(a) && GetRange(a) in {5, 6, 11} && InMask(b, mask)
    requires mask == if GetRange(a) == 5 then 0x10 else if GetRange(a) == 11 then 0x60 else ANY
    ensures var x := a as int - 0xF0;
            0 <= x <= 4 && a == Unit(0xF0 + x) && (x > 0 || Low6(b) >= 0x10) && (x == 4 ==> Low6(b) < 0x10)
            && (if GetRange(a) == 5 then a as int % 0x08 == x
                else if GetRange(a) == 6 then a as int % 0x04 == x
                else x == 0)
  {
    ContIs(b, mask);
    SecondOf(b, mask);
  }

  lemma FourParts(t: string, p: nat) returns (x: nat)
    requires p < |t| && Decode(t, p).Some? && Decode(t, p).value.length == 4 && IsByte(t[p])
    ensures p + 4 <= |t| && x <= 4 && t[p] == Unit(0xF0 + x)
    ensures InMask(t[p + 1], ANY) && InMask(t[p + 2], ANY) && InMask(t[p + 3], ANY)
    ensures var b := Low6(t[p + 1]); (x > 0 || b >= 0x10) && (x == 4 ==> b < 0x10)
    ensures Decode(t, p).value.codepoint == Join4(x, Low6(t[p + 1]), Low6(t[p + 2]), Low6(t[p + 3]))
  {
    var a, b := t[p], t[p + 1];
    var range := GetRange(a);
    var mask := if range == 5 then 0x10 else if range == 11 then 0x60 else ANY;
    assert InMask(b, mask) ==> InMask(b, ANY);
    hide InMask, Low6;
    assert range in {5, 6, 11} && InMask(b, mask);
    hide GetRange;
    FourLead(a, b, mask);
    x := a as int - 0xF0;
    assert Decode(t, p) == Four(t, p, x, mask);
  }

  lemma FourDecoded(t: string, p: nat)
    requires p < |t| && Decode(t, p).Some? && Decode(t, p).value.length == 4 && IsByte(t[p])
    ensures var n := Decode(t, p).value.codepoint; IsScalar(n) && Utf8(n) == [t[p], t[p + 1], t[p + 2], t[p + 3]]
  {
    hide Decode, InMask, Low6, Utf8, Join4, Cont;
    var x := FourParts(t, p);
    ContIs(t[p + 1], ANY);
    ContIs(t[p + 2], ANY);
    ContIs(t[p + 3], ANY);
    Utf8OfFour(x, Low6(t[p + 1]), Low6(t[p + 2]), Low6(t[p + 3]));
  }

  lemma ContMeets(y: nat)
    requires y < 0x40
    ensures Low6(Cont(y)) == y && InMask(Cont(y), ANY)
    ensures y < 0x20 ==> InMask(Cont(y), 0x50)
    ensures y < 0x10 ==> InMask(Cont(y), 0x10)
    ensures y >= 0x20 ==> InMask(Cont(y), 0x20)
    ensures y >= 0x10 ==> InMask(Cont(y), 0x60)
  {
  }

  lemma EncodedTwo(t: string, p: nat, x: nat, y: nat)
    requires 2 <= x < 0x20 && y < 0x40 && p + 1 < |t| && t[p] == Unit(0xC0 + x) && t[p + 1] == Cont(y)
    ensures Decode(t, p) == Some(Decoded(Join2(x, y), 2))
  {
    ContMeets(y);
    assert t[p] as int % 0x40 == x;
  }

  lemma EncodedThree(t: string, p: nat, x: nat, y: nat, z: nat)
    requires x < 0x10 && y < 0x40 && z < 0x40 && (x > 0 || y >= 0x20) && (x == 0xD ==> y < 0x20)
    requires p + 2 < |t| && t[p] == Unit(0xE0 + x) && t[p + 1] == Cont(y) && t[p + 2] == Cont(z)
    ensures Decode(t, p) == Some(Decoded(Join3(x, y, z), 3))
  {
    ContMeets(y);
    ContMeets(z);
    hide InMask, Cont;
    assert t[p] as int % 0x20 == x && t[p] as int % 0x10 == x;
  }

  lemma EncodedFour(t: string, p: nat, x: nat, y: nat, z: nat, w: nat)
    requires x <= 4 && y < 0x40 && z < 0x40 && w < 0x40 && (x > 0 || y >= 0x10) && (x == 4 ==> y < 0x10)
    requires p + 3 < |t| && t[p] == Unit(0xF0 + x) && t[p + 1] == Cont(y) && t[p + 2] == Cont(z) && t[p + 3] == Cont(w)
    ensures Decode(t, p) == Some(Decoded(Join4(x, y, z, w), 4))
  {
    ContMeets(y);
    ContMeets(z);
    ContMeets(w);
    hide InMask, Cont;
    assert t[p] as int % 0x08 == x && (x < 4 ==> t[p] as int % 0x04 == x);
  }

  lemma PartsOfTwo(n: nat)
    requires 0x80 <= n <= 0x7FF
    ensures var x, y := n / 0x40, n % 0x40; 2 <= x < 0x20 && Utf8(n) == [Unit(0xC0 + x), Cont(y)] && Join2(x, y) == n
  {
  }

  lemma PartsOfThree(n: nat)
    requires 0x800 <= n <= 0xFFFF && IsScalar(n)
    ensures var x, y, z := n / 0x1000, n / 0x40 % 0x40, n % 0x40;
            && x < 0x10 && (x > 0 || y >= 0x20) && (x == 0xD ==> y < 0x20)
            && Utf8(n) == [Unit(0xE0 + x), Cont(y), Cont(z)] && Join3(x, y, z) == n
  {
    DivTwice(n);
  }

  lemma PartsOfFour(n: nat)
    requires 0x10000 <= n <= 0x10FFFF
    ensures var x, y, z, w := n / 0x40000, n / 0x1000 % 0x40, n / 0x40 % 0x40, n % 0x40;
            && x <= 4 && (x > 0 || y >= 0x10) && (x == 4 ==> y < 0x10)
            && Utf8(n) == [Unit(0xF0 + x), Cont(y), Cont(z), Cont(w)] && Join4(x, y, z, w) == n
  {
    DivTwice(n);
  }

  /** Every scalar value is recognised where its encoding stands. */
  lemma EncodedIsDecoded(t: string, p: nat, codepoint: nat)
    requires IsScalar(codepoint) && At(t, p, Utf8(codepoint))
    ensures p < |t| && Decode(t, p) == Some(Decoded(codepoint, |Utf8(codepoint)|))
  {
    var u, n := Utf8(codepoint), codepoint;
    assert forall k: nat :: k < |u| ==> t[p + k] == t[p..p + |u|][k] == u[k];
    if n <= 0x7F {
      assert t[p] == u[0];
    } else {
      hide Utf8, Decode, Cont, Join2, Join3, Join4;
      if n <= 0x7FF {
        PartsOfTwo(n);
        assert t[p] == u[0] && t[p + 1] == u[1];
        EncodedTwo(t, p, n / 0x40, n % 0x40);
      } else if n <= 0xFFFF {
        PartsOfThree(n);
        assert t[p] == u[0] && t[p + 1] == u[1] && t[p + 2] == u[2];
        EncodedThree(t, p, n / 0x1000, n / 0x40 % 0x40, n % 0x40);
      } else {
        PartsOfFour(n);
        assert t[p] == u[0] && t[p + 1] == u[1] && t[p + 2] == u[2] && t[p + 3] == u[3];
        EncodedFour(t, p, n / 0x40000, n / 0x1000 % 0x40, n / 0x40 % 0x40, n % 0x40);
      }
    }
  }

  predicate AllScalar(codepoints: seq<nat>) { forall k :: 0 <= k < |codepoints| ==> IsScalar(codepoints[k]) }

  function EncodeAll(codepoints: seq<nat>): string
    requires AllScalar(codepoints)
  {
    if codepoints == [] then "" else
    assert IsScalar(codepoints[0]);
    Utf8(codepoints[0]) + EncodeAll(codepoints[1..])
  }

  /** Well-formed UTF-8 (RFC 3629, section 4): the encoding of some scalar values. */
  ghost predicate WellFormed(s: string) {
    exists codepoints: seq<nat> :: AllScalar(codepoints) && s == EncodeAll(codepoints)
  }

  lemma NoCodepoint()
    ensures AllScalar([]) && EncodeAll([]) == ""
  {
  }

  lemma OneMoreCodepoint(codepoint: nat, rest: seq<nat>)
    requires IsScalar(codepoint) && AllScalar(rest)
    ensures AllScalar([codepoint] + rest) && EncodeAll([codepoint] + rest) == Utf8(codepoint) + EncodeAll(rest)
  {
    assert ([codepoint] + rest)[1..] == rest;
  }

  lemma FirstCodepoint(codepoints: seq<nat>)
    requires AllScalar(codepoints)
    ensures if codepoints == [] then EncodeAll(codepoints) == ""
            else IsScalar(codepoints[0]) && AllScalar(codepoints[1..])
                 && EncodeAll(codepoints) == Utf8(codepoints[0]) + EncodeAll(codepoints[1..])
  {
    if codepoints != [] { assert IsScalar(codepoints[0]); }
  }

  /** The bytes before p do not matter. */
  lemma DecodeShift(s: string, p: nat)
    requires p < |s|
    ensures Decode(s[p..], 0) == Decode(s, p)
  {
    var r := s[p..];
    assert r[0] == s[p];
    assert Peek(r, 1) == Peek(s, p + 1) && Peek(r, 2) == Peek(s, p + 2) && Peek(r, 3) == Peek(s, p + 3);
    hide InMask, GetRange, Low6;
  }

  /** A string is well formed if and only if a sequence stands at its beginning and the rest is well formed. */
  lemma WellFormedStep(s: string)
    requires s != "" && Bytes(s)
    ensures WellFormed(s) <==> Decode(s, 0).Some? && WellFormed(s[Decode(s, 0).value.length..])
  {
    hide Decode, Utf8, EncodeAll, AllScalar, IsScalar, Bytes;
    if codepoints: seq<nat> :| AllScalar(codepoints) && s == EncodeAll(codepoints) {
      FirstCodepoint(codepoints);
      var u, rest := Utf8(codepoints[0]), EncodeAll(codepoints[1..]);
      assert s[0..|u|] == u && s[|u|..] == rest;
      EncodedIsDecoded(s, 0, codepoints[0]);
      assert WellFormed(rest);
    }
    if Decode(s, 0).Some? && WellFormed(s[Decode(s, 0).value.length..]) {
      var d := Decode(s, 0).value;
      DecodedIsEncoded(s, 0);
      var codepoints: seq<nat> :| AllScalar(codepoints) && s[d.length..] == EncodeAll(codepoints);
      OneMoreCodepoint(d.codepoint, codepoints);
      assert s == s[0..d.length] + s[d.length..];
    }
  }

  lemma NothingIsWellFormed()
    ensures WellFormed("")
  {
    NoCodepoint();
    var none: seq<nat> := [];
    assert AllScalar(none) && EncodeAll(none) == "";
  }
}
