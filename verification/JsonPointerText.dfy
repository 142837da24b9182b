/**
 What the text of a JSON Pointer is, in terms of replacing characters (RFC 6901, sections 3, 4 and 6) and of percent
 encoding (RFC 3986, section 2), without the functions of JsonPointer.
 */
module JsonPointerText {
  import opened JsonGrammar
  import opened JsonPointer
  import opened JsonSyntax
  import opened JsonText
  import opened Utf8Encoding
  import opened Wrappers

  // ---------------------------------------------------------------- replacing

  /** s with every occurrence of `pattern`, from left to right, replaced. */
  function Replaced(s: string, pattern: string, with: string): string
    requires pattern != ""
    decreases |s|
  {
    if |s| < |pattern| then s
    else if s[..|pattern|] == pattern then with + Replaced(s[|pattern|..], pattern, with)
    else [s[0]] + Replaced(s[1..], pattern, with)
  }

  /** s with every character replaced by what f gives for it. */
  function EachReplaced(s: string, f: char -> string): string {
    if s == "" then "" else f(s[0]) + EachReplaced(s[1..], f)
  }

  /** RFC 6901, section 3: a tilde is written ~0 and a slash ~1. */
  function Escaped01(name: string): string { Replaced(Replaced(name, "~", "~0"), "/", "~1") }

  /** RFC 6901, section 4: first ~1 is read as a slash, then ~0 as a tilde. */
  function Unescaped01(segment: string): string { Replaced(Replaced(segment, "~1", "/"), "~0", "~") }

  /** Every tilde is followed by 0 or 1. */
  predicate TildesOk(segment: string) {
    forall k :: 0 <= k < |segment| && segment[k] == '~' ==>
      k + 1 < |segment| && (segment[k + 1] == '0' || segment[k + 1] == '1')
  }

  lemma ReplacedStep(s: string, pattern: string, with: string, rest: string)
    requires pattern != "" && s == pattern + rest
    ensures Replaced(s, pattern, with) == with + Replaced(rest, pattern, with)
  {
    assert s[..|pattern|] == pattern && s[|pattern|..] == rest;
  }

  /** A character that does not start the pattern stays. */
  lemma ReplacedStays(c: char, rest: string, pattern: string, with: string)
    requires pattern != "" && (c != pattern[0] || (|pattern| == 2 && rest != "" && rest[0] != pattern[1]))
    ensures Replaced([c] + rest, pattern, with) == [c] + Replaced(rest, pattern, with)
  {
    var s := [c] + rest;
    assert s[1..] == rest;
    if |s| < |pattern| {
      assert Replaced(rest, pattern, with) == rest;
    } else {
      assert s[..|pattern|][0] == c;
      if |pattern| == 2 { assert s[..|pattern|][1] == rest[0]; }
    }
  }

  // ---------------------------------------------------------------- names written

  lemma EscapedStep(c: char, rest: string)
    ensures Escaped01([c] + rest) == (if c == '~' then "~0" else if c == '/' then "~1" else [c]) + Escaped01(rest)
  {
    hide Replaced;
    var r := Replaced(rest, "~", "~0");
    if c == '~' {
      ReplacedStep([c] + rest, "~", "~0", rest);
      assert "~0" + r == ['~'] + (['0'] + r);
      ReplacedStays('~', ['0'] + r, "/", "~1");
      ReplacedStays('0', r, "/", "~1");
      assert ['~'] + (['0'] + Escaped01(rest)) == "~0" + Escaped01(rest);
    } else {
      ReplacedStays(c, rest, "~", "~0");
      if c == '/' {
        ReplacedStep([c] + r, "/", "~1", r);
      } else {
        ReplacedStays(c, r, "/", "~1");
      }
    }
  }

  /** Without percent encoding a name is written with its tildes and slashes replaced, and always. */
  lemma {:induction false} PlainNameText(s: string, j: nat)
    requires Bytes(s) && j <= |s|
    ensures NameText(s, j, false) == Some(Escaped01(s[j..]))
    decreases |s| - j
  {
    hide Escaped01;
    if j == |s| {
      assert s[j..] == "";
      NothingEscaped();
    } else {
      PlainNameText(s, j + 1);
      assert s[j..] == [s[j]] + s[j + 1..];
      EscapedStep(s[j], s[j + 1..]);
    }
  }

  lemma NothingEscaped()
    ensures Escaped01("") == "" && Unescaped01("") == ""
  {
  }

  // ---------------------------------------------------------------- segments read

  lemma UnescapedStep(c: char, rest: string)
    requires c != '~'
    ensures Unescaped01([c] + rest) == [c] + Unescaped01(rest)
  {
    hide Replaced;
    ReplacedStays(c, rest, "~1", "/");
    ReplacedStays(c, Replaced(rest, "~1", "/"), "~0", "~");
  }

  lemma UnescapedTilde(d: char, rest: string)
    requires d == '0' || d == '1'
    ensures Unescaped01(['~', d] + rest) == [if d == '0' then '~' else '/'] + Unescaped01(rest)
  {
    hide Replaced;
    var s, r := ['~', d] + rest, Replaced(rest, "~1", "/");
    if d == '1' {
      ReplacedStep(s, "~1", "/", rest);
      assert "/" + r == ['/'] + r;
      ReplacedStays('/', r, "~0", "~");
    } else {
      assert s == ['~'] + (['0'] + rest);
      ReplacedStays('~', ['0'] + rest, "~1", "/");
      ReplacedStays('0', rest, "~1", "/");
      ReplacedStep(['~'] + (['0'] + r), "~0", "~", r);
    }
  }

  /** The segment i..e lies between slashes, or behind the last one. */
  predicate IsSegment(t: string, i: nat, e: nat) {
    i <= e <= |t| && (e == |t| || t[e] == '/') && forall k :: i <= k < e ==> t[k] != '/'
  }

  /** Without percent encoding a segment is read if and only if every tilde is followed by 0 or 1, and its name is the
      segment with the escapes replaced. */
  lemma {:induction false} PlainSegment(t: string, i: nat, e: nat, acc: string)
    requires IsSegment(t, i, e)
    ensures NameFrom(t, i, false, acc) ==
            if TildesOk(t[i..e]) then Some(Named(e, acc + Unescaped01(t[i..e]))) else None
    decreases e - i
  {
    hide Unescaped01;
    var seg := t[i..e];
    if i == e {
      NothingEscaped();
      assert acc + "" == acc;
    } else if t[i] != '~' {
      var rest := t[i + 1..e];
      assert seg == [t[i]] + rest;
      TildesBehind(seg, 1);
      PlainSegment(t, i + 1, e, acc + [t[i]]);
      UnescapedStep(t[i], rest);
      assert acc + [t[i]] + Unescaped01(rest) == acc + ([t[i]] + Unescaped01(rest));
    } else if i + 1 < e && (t[i + 1] == '0' || t[i + 1] == '1') {
      var rest, u := t[i + 2..e], [if t[i + 1] == '0' then '~' else '/'];
      assert seg == ['~', t[i + 1]] + rest;
      TildesBehind(seg, 2);
      PlainSegment(t, i + 2, e, acc + u);
      UnescapedTilde(t[i + 1], rest);
      assert acc + u + Unescaped01(rest) == acc + (u + Unescaped01(rest));
    } else {
      assert seg[0] == '~' && !TildesOk(seg);
    }
  }

  /** The first n characters are no tilde, or a tilde and its digit. */
  lemma TildesBehind(seg: string, n: nat)
    requires n <= |seg| && (n == 1 || n == 2) && (seg[0] == '~' <==> n == 2)
    requires n == 2 ==> seg[1] == '0' || seg[1] == '1'
    ensures TildesOk(seg) <==> TildesOk(seg[n..])
  {
    var rest := seg[n..];
    if TildesOk(seg) {
      forall k | 0 <= k < |rest| && rest[k] == '~'
        ensures k + 1 < |rest| && (rest[k + 1] == '0' || rest[k + 1] == '1')
      {
        assert seg[n + k] == '~';
      }
    }
    if TildesOk(rest) {
      forall k | 0 <= k < |seg| && seg[k] == '~'
        ensures k + 1 < |seg| && (seg[k + 1] == '0' || seg[k + 1] == '1')
      {
        if k >= n { assert rest[k - n] == '~'; }
      }
    }
  }

  // ---------------------------------------------------------------- percent encoding

  /** RFC 3986, section 2.3: letters, digits, hyphen, period, underscore and tilde. */
  predicate Unreserved(c: char) {
    var n := c as int;
    0x41 <= n <= 0x5A || 0x61 <= n <= 0x7A || 0x30 <= n <= 0x39 || n == 0x2D || n == 0x2E || n == 0x5F || n == 0x7E
  }

  /** RFC 3986, section 2.1: a percent sign and the two hexadecimal digits of the byte, in upper case. */
  function PercentOf(c: char): string {
    ['%', "0123456789ABCDEF"[c as int / 16 % 16], "0123456789ABCDEF"[c as int % 16]]
  }

  /** What is written for a byte of a name in a URI fragment. */
  function UriUnits(c: char): string {
    if c == '~' then "~0" else if c == '/' then "~1" else if Unreserved(c) then [c] else PercentOf(c)
  }

  lemma NeedsPercentIs(c: char)
    ensures NeedsPercent(c) <==> !Unreserved(c)
  {
  }

  lemma {:induction false} EachReplacedAppend(s: string, t: string, f: char -> string)
    ensures EachReplaced(s + t, f) == EachReplaced(s, f) + EachReplaced(t, f)
  {
    if s == "" {
      assert s + t == t;
    } else {
      assert (s + t)[1..] == s[1..] + t;
      EachReplacedAppend(s[1..], t, f);
    }
  }

  lemma OnePercent(c: char)
    requires IsByte(c) && !Unreserved(c) && c != '/'
    ensures ['%', HexUpper(c as int / 16), HexUpper(c as int % 16)] == EachReplaced([c], UriUnits)
  {
    HexUpperIs(c as int / 16);
    HexUpperIs(c as int % 16);
    assert [c][1..] == "";
    assert EachReplaced([c], UriUnits) == PercentOf(c) + "";
  }

  /** Bytes that are all percent-encoded. */
  lemma {:induction false} PercentIs(s: string)
    requires Bytes(s) && forall c :: c in s ==> !Unreserved(c) && c != '/'
    ensures Percent(s) == EachReplaced(s, UriUnits)
    decreases |s|
  {
    hide HexUpper, Unreserved;
    if s != "" {
      var k := |s| - 1;
      assert s[k] in s;
      PercentIs(s[..k]);
      OnePercent(s[k]);
      hide EachReplaced;
      EachReplacedAppend(s[..k], [s[k]], UriUnits);
      assert s[..k] + [s[k]] == s;
    }
  }

  lemma HexUpperIs(d: nat)
    requires d < 16
    ensures HexUpper(d) == "0123456789ABCDEF"[d]
  {
  }

  /** All bytes of a sequence are percent-encoded if the first is. */
  lemma SequenceNeedsPercent(s: string, j: nat)
    requires Bytes(s) && j < |s| && NeedsPercent(s[j]) && s[j] != '/' && Decode(s, j).Some?
    ensures forall c :: c in s[j..j + Decode(s, j).value.length] ==> !Unreserved(c) && c != '/'
  {
    var n := Decode(s, j).value.length;
    NeedsPercentIs(s[j]);
    if n >= 2 { ContinuationIs(Peek(s, j + 1)); }
    if n >= 3 { ContinuationIs(Peek(s, j + 2)); }
    if n >= 4 { ContinuationIs(Peek(s, j + 3)); }
  }

  lemma ContinuationIs(c: char)
    ensures InMask(c, ANY) || InMask(c, 0x50) || InMask(c, 0x10) || InMask(c, 0x20) || InMask(c, 0x60) ==> c >= '\U{80}'
  {
  }

  ghost predicate UriTextOk(s: string, j: nat)
    requires Bytes(s) && j <= |s|
  {
    && (NameText(s, j, true).Some? <==> WellFormed(s[j..]))
    && (NameText(s, j, true).Some? ==> NameText(s, j, true).value == EachReplaced(s[j..], UriUnits))
  }

  /** A character that is not percent-encoded. */
  lemma UriPlain(s: string, j: nat)
    requires Bytes(s) && j < |s| && (s[j] == '~' || s[j] == '/' || !NeedsPercent(s[j])) && UriTextOk(s, j + 1)
    ensures UriTextOk(s, j)
  {
    hide Decode, WellFormed, Percent;
    NeedsPercentIs(s[j]);
    hide NeedsPercent, Unreserved;
    var rest := s[j..];
    AsciiDecoded(s, j);
    DecodeShift(s, j);
    WellFormedStep(rest);
    assert rest[0] == s[j] && rest[1..] == s[j + 1..];
  }

  /** A sequence that is. */
  lemma UriEncoded(s: string, j: nat)
    requires Bytes(s) && j < |s| && s[j] != '~' && s[j] != '/' && NeedsPercent(s[j])
    requires Decode(s, j).Some? ==> UriTextOk(s, j + Decode(s, j).value.length)
    ensures UriTextOk(s, j)
  {
    hide Decode, WellFormed, Percent, NeedsPercent, EachReplaced;
    var rest := s[j..];
    DecodeShift(s, j);
    WellFormedStep(rest);
    if Decode(s, j).Some? {
      var n := Decode(s, j).value.length;
      assert rest[n..] == s[j + n..] && rest == s[j..j + n] + s[j + n..];
      SequenceNeedsPercent(s, j);
      PercentIs(s[j..j + n]);
      EachReplacedAppend(s[j..j + n], s[j + n..], UriUnits);
    }
  }

  /** In a URI fragment a name is written if and only if it is well-formed UTF-8: unreserved characters stand for
      themselves, tildes and slashes are escaped, every byte of everything else is percent-encoded. */
  lemma {:induction false} UriNameText(s: string, j: nat)
    requires Bytes(s) && j <= |s|
    ensures NameText(s, j, true).Some? <==> WellFormed(s[j..])
    ensures NameText(s, j, true).Some? ==> NameText(s, j, true).value == EachReplaced(s[j..], UriUnits)
    decreases |s| - j
  {
    hide Decode, WellFormed, NeedsPercent;
    if j == |s| {
      assert s[j..] == "";
      NothingIsWellFormed();
    } else if s[j] == '~' || s[j] == '/' || !NeedsPercent(s[j]) {
      hide NameText;
      UriNameText(s, j + 1);
      UriPlain(s, j);
    } else {
      hide NameText;
      if Decode(s, j).Some? { UriNameText(s, j + Decode(s, j).value.length); }
      UriEncoded(s, j);
    }
  }

  lemma AsciiDecoded(s: string, j: nat)
    requires j < |s| && (s[j] == '~' || s[j] == '/' || !NeedsPercent(s[j]))
    ensures Decode(s, j) == Some(Decoded(s[j] as int, 1))
  {
  }

  // ---------------------------------------------------------------- segments of a URI fragment

  /** A segment of unreserved characters and percent-encoded bytes, and the bytes it stands for. */
  ghost predicate PercentDecoded(segment: string, bytes: string)
    decreases |bytes|
  {
    if bytes == "" then segment == ""
    else
      || (segment != "" && Unreserved(segment[0]) && segment[0] == bytes[0] && PercentDecoded(segment[1..], bytes[1..]))
      || (IsTriple(segment, bytes[0]) && PercentDecoded(segment[3..], bytes[1..]))
  }

  /** A percent sign and the two hexadecimal digits of c, in either case. */
  ghost predicate IsTriple(segment: string, c: char) {
    |segment| >= 3 && segment[0] == '%' && HexIs(segment[1], c as int / 16) && HexIs(segment[2], c as int % 16)
  }

  predicate DigitAt(segment: string, n: nat) { n < |segment| && (segment[n] == '0' || segment[n] == '1') }

  predicate EscapeOk(segment: string, k: nat)
    requires k < |segment|
  {
    && (segment[k] == '~' ==> DigitAt(segment, k + 1))
    && ("%7E" <= segment[k..] || "%7e" <= segment[k..] ==> DigitAt(segment, k + 3))
  }

  /** Every tilde, percent-encoded or not, is followed by a 0 or 1 that is not. */
  predicate EscapesOk(segment: string) { forall k: nat :: k < |segment| ==> EscapeOk(segment, k) }

  lemma HexDigitIs(c: char, d: nat)
    requires d < 16
    ensures HexDigit(c) == Some(d) <==> HexIs(c, d)
  {
  }

  lemma HexDigitValue(c: char)
    ensures HexDigit(c).Some? ==> HexIs(c, HexDigit(c).value) && c != '/' && c != '%' && c != '~'
  {
    if HexDigit(c).Some? { HexDigitIs(c, HexDigit(c).value); }
  }

  lemma HalvesOf(a: nat, b: nat)
    requires a < 16 && b < 16
    ensures Unit(a * 16 + b) as int / 16 == a && Unit(a * 16 + b) as int % 16 == b
  {
  }

  /** What PercentByte takes is a triple, without a slash. */
  lemma ByteIsTriple(t: string, i: nat)
    requires PercentByte(t, i).Some?
    ensures i + 3 <= |t| && IsTriple(t[i..i + 3], PercentByte(t, i).value) && IsByte(PercentByte(t, i).value)
    ensures t[i] != '/' && t[i + 1] != '/' && t[i + 2] != '/'
  {
    hide HexDigit, HexIs;
    HexDigitValue(t[i + 1]);
    HexDigitValue(t[i + 2]);
    HalvesOf(HexDigit(t[i + 1]).value, HexDigit(t[i + 2]).value);
    var seg := t[i..i + 3];
    assert seg[0] == t[i] && seg[1] == t[i + 1] && seg[2] == t[i + 2];
  }

  lemma TripleIsByte(t: string, i: nat, e: nat, c: char)
    requires i <= e <= |t| && IsTriple(t[i..e], c)
    ensures i + 3 <= e && t[i] == '%' && PercentByte(t, i) == Some(c)
  {
    hide HexDigit, HexIs;
    var seg := t[i..e];
    assert seg[0] == t[i] && seg[1] == t[i + 1] && seg[2] == t[i + 2];
    HexBelow(t[i + 1], c as int / 16);
    HexDigitIs(t[i + 1], c as int / 16);
    HexDigitIs(t[i + 2], c as int % 16);
  }

  lemma HexBelow(c: char, d: nat)
    requires HexIs(c, d)
    ensures d < 16
  {
  }

  /** Escapes among the first n characters that are right do not matter to the rest. */
  lemma EscapesBehind(seg: string, n: nat)
    requires n <= |seg| && forall k: nat :: k < n ==> EscapeOk(seg, k)
    ensures EscapesOk(seg) <==> EscapesOk(seg[n..])
  {
    var rest := seg[n..];
    assert forall k: nat :: k < |rest| ==> rest[k..] == seg[n + k..];
    if EscapesOk(seg) {
      forall k: nat | k < |rest| ensures EscapeOk(rest, k) { assert EscapeOk(seg, n + k); }
    }
    if EscapesOk(rest) {
      forall k: nat | k < |seg| ensures EscapeOk(seg, k) {
        if k >= n { assert rest[k - n..] == seg[k..] && EscapeOk(rest, k - n); }
      }
    }
  }

  /** The three characters of a byte other than a tilde escape nothing. */
  lemma TripleEscapes(seg: string, c: char)
    requires IsTriple(seg, c) && c != '~'
    ensures EscapesOk(seg) <==> EscapesOk(seg[3..])
  {
    HexDigitIs(seg[1], c as int / 16);
    HexDigitIs(seg[2], c as int % 16);
    HexDigitValue(seg[1]);
    HexDigitValue(seg[2]);
    assert seg[0..][..3] == seg[..3];
    forall k: nat | k < 3 ensures EscapeOk(seg, k) {
      assert seg[k..][0] == seg[k];
      if k == 0 { assert seg[k..][1] == seg[1] && seg[k..][2] == seg[2]; }
    }
    EscapesBehind(seg, 3);
  }

  /** A percent-encoded tilde and its digit. */
  lemma TildeTriple(seg: string)
    requires IsTriple(seg, '~')
    ensures EscapeOk(seg, 0) <==> DigitAt(seg, 3)
    ensures DigitAt(seg, 3) ==> (EscapesOk(seg) <==> EscapesOk(seg[4..]))
  {
    assert seg[..3] == "%7E" || seg[..3] == "%7e" by {
      HexDigitIs(seg[1], 7);
      HexDigitIs(seg[2], 14);
      assert seg[1] == '7' && (seg[2] == 'E' || seg[2] == 'e');
    }
    assert seg[0..] == seg;
    if DigitAt(seg, 3) {
      forall k: nat | k < 4 ensures EscapeOk(seg, k) {
        assert seg[k..][0] == seg[k];
      }
      EscapesBehind(seg, 4);
    }
  }

  /** A plain tilde and its digit. */
  lemma TildePlain(seg: string)
    requires seg != "" && seg[0] == '~'
    ensures EscapeOk(seg, 0) <==> DigitAt(seg, 1)
    ensures DigitAt(seg, 1) ==> (EscapesOk(seg) <==> EscapesOk(seg[2..]))
  {
    assert seg[0..][0] == '~';
    if DigitAt(seg, 1) {
      forall k: nat | k < 2 ensures EscapeOk(seg, k) {
        assert seg[k..][0] == seg[k];
      }
      EscapesBehind(seg, 2);
    }
  }

  lemma PlainEscapes(seg: string)
    requires seg != "" && seg[0] != '~' && seg[0] != '%'
    ensures EscapesOk(seg) <==> EscapesOk(seg[1..])
  {
    assert seg[0..][0] == seg[0];
    assert EscapeOk(seg, 0);
    EscapesBehind(seg, 1);
  }

  // ---------------------------------------------------------------- what is read is what is decoded

  /** Percent-encoded bytes in a row, none of which an unreserved character could stand for. */
  lemma {:induction false} TriplesAreBytes(t: string, i: nat, e: nat, d: string, n: nat)
    requires i <= e <= |t| && PercentDecoded(t[i..e], d) && 1 <= n <= |d| && t[i..e] != "" && t[i] == '%'
    requires forall k :: 1 <= k < n ==> d[k] >= '\U{80}'
    ensures i + 3 * n <= e && PercentBytes(t, i, n) == Some(d[..n]) && PercentDecoded(t[i + 3 * n..e], d[n..])
    decreases n
  {
    hide PercentByte, IsTriple;
    var m := n - 1;
    if m > 0 {
      TriplesAreBytes(t, i, e, d, m);
    } else {
      assert d[0..] == d && d[..0] == "";
    }
    var p := i + 3 * m;
    var seg, rest := t[p..e], d[m..];
    assert PercentDecoded(seg, rest) && rest[0] == d[m];
    assert IsTriple(seg, d[m]);
    TripleIsByte(t, p, e, d[m]);
    assert seg[3..] == t[p + 3..e] && rest[1..] == d[n..];
    assert d[..m] + [d[m]] == d[..n];
  }

  /** ... and back. */
  lemma {:induction false} BytesAreTriples(t: string, i: nat, e: nat, n: nat, rest: string)
    requires IsSegment(t, i, e) && PercentBytes(t, i, n).Some? && n >= 1
    ensures i + 3 * n <= e
    ensures PercentDecoded(t[i + 3 * n..e], rest) ==> PercentDecoded(t[i..e], PercentBytes(t, i, n).value + rest)
    decreases n
  {
    hide PercentByte, IsTriple;
    var m := n - 1;
    var p := i + 3 * m;
    var c := PercentByte(t, p).value;
    ByteIsTriple(t, p);
    if m > 0 { BytesAreTriples(t, i, e, m, [c] + rest); }
    assert p + 3 <= e;
    var seg := t[p..e];
    TripleAt(t, p, e, c);
    assert seg[3..] == t[p + 3..e] && ([c] + rest)[1..] == rest;
    if m > 0 {
      assert PercentBytes(t, i, n).value + rest == PercentBytes(t, i, m).value + ([c] + rest);
    } else {
      assert PercentBytes(t, i, n).value + rest == [c] + rest;
    }
  }

  lemma TripleAt(t: string, p: nat, e: nat, c: char)
    requires p + 3 <= e <= |t| && IsTriple(t[p..p + 3], c)
    ensures IsTriple(t[p..e], c)
  {
    var seg, three := t[p..e], t[p..p + 3];
    assert seg[0] == three[0] && seg[1] == three[1] && seg[2] == three[2];
  }

  /** Percent-encoded bytes that are no tildes escape nothing. */
  lemma {:induction false} TriplesEscape(t: string, i: nat, e: nat, n: nat)
    requires i + 3 * n <= e <= |t| && PercentBytes(t, i, n).Some? && '~' !in PercentBytes(t, i, n).value
    ensures EscapesOk(t[i..e]) <==> EscapesOk(t[i + 3 * n..e])
    decreases n
  {
    hide PercentByte, IsTriple, EscapesOk;
    if n > 0 {
      var p := i + 3 * (n - 1);
      var c := PercentByte(t, p).value;
      assert c in PercentBytes(t, i, n).value;
      assert '~' !in PercentBytes(t, i, n - 1).value;
      TriplesEscape(t, i, e, n - 1);
      ByteIsTriple(t, p);
      TripleAt(t, p, e, c);
      TripleEscapes(t[p..e], c);
      assert t[p..e][3..] == t[p + 3..e];
    }
  }

  lemma {:induction false} UnescapedPrefix(u: string, rest: string)
    requires '~' !in u
    ensures Unescaped01(u + rest) == u + Unescaped01(rest)
  {
    hide Unescaped01;
    if u == "" {
      assert u + rest == rest && u + Unescaped01(rest) == Unescaped01(rest);
    } else {
      assert u + rest == [u[0]] + (u[1..] + rest);
      UnescapedStep(u[0], u[1..] + rest);
      UnescapedPrefix(u[1..], rest);
      assert [u[0]] + (u[1..] + Unescaped01(rest)) == u + Unescaped01(rest);
    }
  }

  /** The first sequence of the bytes a segment stands for, when the segment begins with a percent sign. */
  lemma FirstSequence(t: string, i: nat, e: nat, d: string) returns (n: nat)
    requires IsSegment(t, i, e) && i < e && t[i] == '%' && PercentDecoded(t[i..e], d) && WellFormed(d) && Bytes(d)
    ensures 1 <= n <= |d| && i + 3 * n <= e && PercentSequence(t, i) == Some(d[..n])
    ensures PercentDecoded(t[i + 3 * n..e], d[n..]) && WellFormed(d[n..]) && Bytes(d[n..])
    ensures n > 1 ==> '~' !in d[..n]
  {
    assert d != "";
    WellFormedStep(d);
    n := Decode(d, 0).value.length;
    DecodeAlone(d, 0);
    assert d[0..0 + n] == d[..n];
    LaterBytes(d);
    hide Decode, WellFormed;
    TriplesAreBytes(t, i, e, d, n);
    FirstOf(t, i, n);
    assert d[0] in d[..n];
  }

  /** Behind the first byte of a sequence there are only bytes from 80 on. */
  lemma LaterBytes(d: string)
    requires d != "" && Decode(d, 0).Some?
    ensures forall k :: 1 <= k < Decode(d, 0).value.length ==> d[k] >= '\U{80}'
    ensures Decode(d, 0).value.length > 1 ==> d[0] >= '\U{80}'
  {
    ContinuationIs(Peek(d, 1));
    ContinuationIs(Peek(d, 2));
    ContinuationIs(Peek(d, 3));
  }

  /** A percent sign: the sequence behind it is taken, a tilde with its digit. */
  lemma PercentStep(t: string, i: nat, acc: string, u: string)
    requires i < |t| && t[i] == '%' && PercentSequence(t, i) == Some(u) && (u == "~" || '~' !in u)
    ensures NameFrom(t, i, true, acc) ==
            if u == "~" then
              if DigitAt(t, i + 3) then NameFrom(t, i + 4, true, acc + [if t[i + 3] == '0' then '~' else '/']) else None
            else NameFrom(t, i + 3 * |u|, true, acc + u)
  {
    hide PercentSequence;
    if |u| == 1 {
      assert u == [u[0]] && u[0] in u;
      assert NameFrom(t, i, true, acc) == Unescaped(t, i + 3, true, acc, u[0]);
    }
  }

  /** Another character. */
  lemma PlainStep(t: string, i: nat, acc: string)
    requires i < |t| && t[i] != '%' && t[i] != '/'
    ensures NameFrom(t, i, true, acc) ==
            if !Unreserved(t[i]) then None
            else if t[i] == '~' then
              if DigitAt(t, i + 1) then NameFrom(t, i + 2, true, acc + [if t[i + 1] == '0' then '~' else '/']) else None
            else NameFrom(t, i + 1, true, acc + [t[i]])
  {
    hide PercentSequence;
    NeedsPercentIs(t[i]);
    hide NeedsPercent, Unreserved;
    if Unreserved(t[i]) { assert NameFrom(t, i, true, acc) == Unescaped(t, i + 1, true, acc, t[i]); }
  }

  /** A digit behind a tilde stands for itself among the bytes. */
  lemma DigitDecoded(t: string, i: nat, e: nat, d: string)
    requires IsSegment(t, i, e) && DigitAt(t[i..e], 0) && PercentDecoded(t[i..e], d)
    ensures i < e && d != "" && d[0] == t[i] && PercentDecoded(t[i + 1..e], d[1..])
  {
    assert t[i..e][0] == t[i] && t[i..e][1..] == t[i + 1..e];
  }

  lemma AsciiFirst(d: string)
    requires d != "" && d[0] < '\U{80}' && Bytes(d)
    ensures WellFormed(d) <==> WellFormed(d[1..])
    ensures Bytes(d[1..])
  {
    WellFormedStep(d);
    hide WellFormed;
    assert Decode(d, 0) == Some(Decoded(d[0] as int, 1));
  }

  lemma EndOfSegment(t: string, e: nat, acc: string)
    requires IsSegment(t, e, e)
    ensures NameFrom(t, e, true, acc) == Some(Named(e, acc)) && t[e..e] == "" && EscapesOk("")
    ensures acc + Unescaped01("") == acc && PercentDecoded("", "")
  {
  }

  /** A segment of a URI fragment that stands for well-formed UTF-8 and escapes rightly is read as those bytes with the
      escapes replaced. */
  lemma {:induction false} UriSegmentIsRead(t: string, i: nat, e: nat, acc: string, d: string)
    requires IsSegment(t, i, e) && PercentDecoded(t[i..e], d) && WellFormed(d) && Bytes(d) && EscapesOk(t[i..e])
    ensures NameFrom(t, i, true, acc) == Some(Named(e, acc + Unescaped01(d)))
    decreases e - i, 1
  {
    hide Unescaped01, EscapesOk, WellFormed, Unreserved, IsTriple, NameFrom, Bytes;
    if i == e {
      EndOfSegment(t, e, acc);
      NothingDecoded(d);
    } else if t[i] == '%' {
      ReadPercent(t, i, e, acc, d);
    } else {
      ReadPlain(t, i, e, acc, d);
    }
  }

  lemma {:induction false} ReadPercent(t: string, i: nat, e: nat, acc: string, d: string)
    requires IsSegment(t, i, e) && PercentDecoded(t[i..e], d) && WellFormed(d) && Bytes(d) && EscapesOk(t[i..e])
    requires i < e && t[i] == '%'
    ensures NameFrom(t, i, true, acc) == Some(Named(e, acc + Unescaped01(d)))
    decreases e - i, 0
  {
    hide Unescaped01, EscapesOk, WellFormed, Unreserved, IsTriple, NameFrom, PercentSequence, Bytes, PercentDecoded;
    var n := FirstSequence(t, i, e, d);
    var u, rest := d[..n], d[n..];
    assert d == u + rest;
    if u == "~" {
      OneTilde(t, i, e);
      DigitDecoded(t, i + 3, e, rest);
      PercentStep(t, i, acc, u);
      var v := [if t[i + 3] == '0' then '~' else '/'];
      AsciiFirst(rest);
      UriSegmentIsRead(t, i + 4, e, acc + v, rest[1..]);
      assert d == ['~', rest[0]] + rest[1..];
      UnescapedTilde(rest[0], rest[1..]);
      assert acc + v + Unescaped01(rest[1..]) == acc + (v + Unescaped01(rest[1..]));
    } else {
      assert '~' !in u by { if n == 1 { assert u == [u[0]]; } }
      PercentStep(t, i, acc, u);
      SequenceEscapes(t, i, e, u);
      UriSegmentIsRead(t, i + 3 * n, e, acc + u, rest);
      UnescapedPrefix(u, rest);
      assert acc + u + Unescaped01(rest) == acc + (u + Unescaped01(rest));
    }
  }

  lemma SequenceBytes(t: string, i: nat, u: string)
    requires PercentSequence(t, i) == Some(u)
    ensures u != "" && PercentBytes(t, i, |u|) == Some(u) && PercentByte(t, i) == Some(u[0])
    ensures Decode(u, 0).Some?
  {
    hide Decode;
    FirstOf(t, i, |u|);
  }

  lemma SequenceEscapes(t: string, i: nat, e: nat, u: string)
    requires PercentSequence(t, i) == Some(u) && '~' !in u && i + 3 * |u| <= e <= |t|
    ensures EscapesOk(t[i..e]) <==> EscapesOk(t[i + 3 * |u|..e])
  {
    hide EscapesOk, PercentSequence;
    SequenceBytes(t, i, u);
    TriplesEscape(t, i, e, |u|);
  }

  lemma OneTilde(t: string, i: nat, e: nat)
    requires PercentSequence(t, i) == Some("~") && i + 3 <= e <= |t|
    ensures EscapesOk(t[i..e]) <==> DigitAt(t[i + 3..e], 0) && EscapesOk(t[i + 4..e])
    ensures DigitAt(t[i + 3..e], 0) ==> DigitAt(t, i + 3) && i + 4 <= e
  {
    hide PercentSequence, IsTriple, EscapeOk;
    SequenceBytes(t, i, "~");
    ByteIsTriple(t, i);
    TripleAt(t, i, e, '~');
    TildeTriple(t[i..e]);
    if DigitAt(t[i..e], 3) { assert t[i..e][4..] == t[i + 4..e]; }
    assert DigitAt(t[i + 3..e], 0) <==> DigitAt(t[i..e], 3);
  }

  lemma {:induction false} ReadPlain(t: string, i: nat, e: nat, acc: string, d: string)
    requires IsSegment(t, i, e) && PercentDecoded(t[i..e], d) && WellFormed(d) && Bytes(d) && EscapesOk(t[i..e])
    requires i < e && t[i] != '%'
    ensures NameFrom(t, i, true, acc) == Some(Named(e, acc + Unescaped01(d)))
    decreases e - i, 0
  {
    hide Unescaped01, EscapesOk, EscapeOk, WellFormed, NameFrom, Bytes;
    var seg, rest := t[i..e], d[1..];
    assert seg[0] == t[i] && seg[1..] == t[i + 1..e] && d == [t[i]] + rest && Unreserved(t[i]);
    hide PercentDecoded;
    PlainStep(t, i, acc);
    AsciiFirst(d);
    hide Unreserved;
    if t[i] == '~' {
      OnePlainTilde(t, i, e);
      DigitDecoded(t, i + 1, e, rest);
      var v := [if t[i + 1] == '0' then '~' else '/'];
      AsciiFirst(rest);
      UriSegmentIsRead(t, i + 2, e, acc + v, rest[1..]);
      assert d == ['~', rest[0]] + rest[1..];
      UnescapedTilde(rest[0], rest[1..]);
      assert acc + v + Unescaped01(rest[1..]) == acc + (v + Unescaped01(rest[1..]));
    } else {
      PlainEscapes(seg);
      UriSegmentIsRead(t, i + 1, e, acc + [t[i]], rest);
      UnescapedStep(t[i], rest);
      assert acc + [t[i]] + Unescaped01(rest) == acc + ([t[i]] + Unescaped01(rest));
    }
  }

  lemma OnePlainTilde(t: string, i: nat, e: nat)
    requires i < e <= |t| && t[i] == '~'
    ensures EscapesOk(t[i..e]) <==> DigitAt(t[i + 1..e], 0) && EscapesOk(t[i + 2..e])
    ensures DigitAt(t[i + 1..e], 0) ==> DigitAt(t, i + 1) && i + 2 <= e
  {
    hide EscapeOk;
    TildePlain(t[i..e]);
    if DigitAt(t[i..e], 1) { assert t[i..e][2..] == t[i + 2..e]; }
    assert DigitAt(t[i + 1..e], 0) <==> DigitAt(t[i..e], 1);
  }

  lemma NothingDecoded(d: string)
    requires PercentDecoded("", d)
    ensures d == ""
  {
  }

  // ... and nothing else is read

  /** A sequence taken is the beginning of well-formed UTF-8 that goes on with the rest. */
  lemma SequenceDecoded(t: string, i: nat, e: nat, u: string, rest: string)
    requires IsSegment(t, i, e) && PercentSequence(t, i) == Some(u) && WellFormed(rest) && Bytes(rest)
    ensures i + 3 * |u| <= e && (u == "~" || '~' !in u)
    ensures PercentDecoded(t[i + 3 * |u|..e], rest) ==>
              PercentDecoded(t[i..e], u + rest) && WellFormed(u + rest) && Bytes(u + rest)
  {
    hide PercentSequence, PercentDecoded, IsTriple, WellFormed;
    SequenceBytes(t, i, u);
    BytesAreTriples(t, i, e, |u|, rest);
    SequenceIsBytes(t, i, |u|);
    WholeSequence(t, i, u, rest);
    WellFormedStep(u + rest);
    assert (u + rest)[|u|..] == rest;
  }

  lemma {:induction false} SequenceIsBytes(t: string, i: nat, n: nat)
    requires PercentBytes(t, i, n).Some?
    ensures Bytes(PercentBytes(t, i, n).value)
  {
    hide PercentByte, IsTriple;
    if n > 0 {
      SequenceIsBytes(t, i, n - 1);
      ByteIsTriple(t, i + 3 * (n - 1));
    }
  }

  /** All that was taken is one sequence, whatever follows. */
  lemma WholeSequence(t: string, i: nat, u: string, rest: string)
    requires PercentSequence(t, i) == Some(u)
    ensures u != "" && Decode(u + rest, 0).Some? && Decode(u + rest, 0).value.length == |u|
    ensures u == "~" || '~' !in u
  {
    SequenceBytes(t, i, u);
    assert |u| == SequenceLength(u[0]);
    hide PercentSequence, PercentBytes, InMask;
    var s := u + rest;
    assert s[0] == u[0] && (|u| > 1 ==> s[1] == u[1]) && (|u| > 2 ==> s[2] == u[2]) && (|u| > 3 ==> s[3] == u[3]);
    assert Decode(u, 0).value.length == |u|;
    LaterBytes(u);
    if |u| == 1 { assert u == [u[0]]; }
  }

  /** What is read of a URI fragment stands for well-formed UTF-8 and escapes rightly. */
  lemma {:induction false} ReadUriSegment(t: string, i: nat, e: nat, acc: string) returns (d: string)
    requires IsSegment(t, i, e) && NameFrom(t, i, true, acc).Some?
    ensures PercentDecoded(t[i..e], d) && WellFormed(d) && Bytes(d) && EscapesOk(t[i..e])
    decreases e - i, 1
  {
    hide Unescaped01, EscapesOk, EscapeOk, WellFormed, Unreserved, IsTriple, NameFrom, PercentSequence, Bytes,
         PercentDecoded;
    d := "";
    if i == e {
      EndOfSegment(t, e, acc);
      NothingIsWellFormed();
      NothingIsBytes();
    } else if t[i] == '%' {
      d := PercentRead(t, i, e, acc);
    } else {
      d := PlainRead(t, i, e, acc);
    }
  }

  lemma NothingIsBytes()
    ensures Bytes("")
  {
  }

  lemma PercentTaken(t: string, i: nat, acc: string)
    requires i < |t| && t[i] == '%' && NameFrom(t, i, true, acc).Some?
    ensures PercentSequence(t, i).Some?
  {
  }

  lemma {:induction false} PercentRead(t: string, i: nat, e: nat, acc: string) returns (d: string)
    requires IsSegment(t, i, e) && NameFrom(t, i, true, acc).Some? && i < e && t[i] == '%'
    ensures PercentDecoded(t[i..e], d) && WellFormed(d) && Bytes(d) && EscapesOk(t[i..e])
    decreases e - i, 0
  {
    hide Unescaped01, EscapesOk, EscapeOk, WellFormed, Unreserved, IsTriple, NameFrom, PercentSequence, Bytes,
         PercentDecoded;
    PercentTaken(t, i, acc);
    var u := PercentSequence(t, i).value;
    NothingIsWellFormed();
    NothingIsBytes();
    SequenceDecoded(t, i, e, u, "");
    PercentStep(t, i, acc, u);
    if u == "~" {
      assert t[i + 3] != '/';
      assert i + 4 <= e;
      var rest := ReadUriSegment(t, i + 4, e, acc + [if t[i + 3] == '0' then '~' else '/']);
      rest := DigitRead(t, i + 3, e, rest);
      SequenceDecoded(t, i, e, u, rest);
      OneTilde(t, i, e);
      d := u + rest;
    } else {
      var rest := ReadUriSegment(t, i + 3 * |u|, e, acc + u);
      SequenceDecoded(t, i, e, u, rest);
      SequenceEscapes(t, i, e, u);
      d := u + rest;
    }
  }

  /** A digit behind a tilde. */
  lemma DigitRead(t: string, i: nat, e: nat, rest: string) returns (d: string)
    requires i < e <= |t| && (t[i] == '0' || t[i] == '1') && PercentDecoded(t[i + 1..e], rest)
    requires WellFormed(rest) && Bytes(rest)
    ensures PercentDecoded(t[i..e], d) && WellFormed(d) && Bytes(d) && DigitAt(t[i..e], 0)
  {
    hide WellFormed;
    d := [t[i]] + rest;
    assert t[i..e][0] == t[i] && t[i..e][1..] == t[i + 1..e] && d[1..] == rest;
    AsciiFirst(d);
  }

  lemma {:induction false} PlainRead(t: string, i: nat, e: nat, acc: string) returns (d: string)
    requires IsSegment(t, i, e) && NameFrom(t, i, true, acc).Some? && i < e && t[i] != '%'
    ensures PercentDecoded(t[i..e], d) && WellFormed(d) && Bytes(d) && EscapesOk(t[i..e])
    decreases e - i, 0
  {
    hide Unescaped01, EscapesOk, EscapeOk, WellFormed, IsTriple, NameFrom, Bytes, PercentDecoded, Unreserved;
    PlainStep(t, i, acc);
    var rest;
    if t[i] == '~' {
      assert t[i + 1] != '/';
      assert i + 2 <= e;
      rest := ReadUriSegment(t, i + 2, e, acc + [if t[i + 1] == '0' then '~' else '/']);
      rest := DigitRead(t, i + 1, e, rest);
      OnePlainTilde(t, i, e);
    } else {
      rest := ReadUriSegment(t, i + 1, e, acc + [t[i]]);
      assert t[i..e][1..] == t[i + 1..e];
      PlainEscapes(t[i..e]);
    }
    d := [t[i]] + rest;
    UnreservedFirst(t, i, e, d);
    AsciiFirst(d);
  }

  lemma UnreservedFirst(t: string, i: nat, e: nat, d: string)
    requires i < e <= |t| && Unreserved(t[i]) && d != "" && d[0] == t[i] && PercentDecoded(t[i + 1..e], d[1..])
    requires Bytes(d[1..])
    ensures PercentDecoded(t[i..e], d) && Bytes(d) && d[0] < '\U{80}'
  {
    assert t[i..e][0] == t[i] && t[i..e][1..] == t[i + 1..e];
    assert d == [d[0]] + d[1..];
  }

  /** A segment of a URI fragment is read if and only if it stands for well-formed UTF-8 and every tilde is followed by
      a plain 0 or 1; its name is those bytes with the escapes replaced. */
  lemma UriSegment(t: string, i: nat, e: nat, acc: string)
    requires IsSegment(t, i, e)
    ensures NameFrom(t, i, true, acc).Some? <==>
            EscapesOk(t[i..e]) && exists d :: PercentDecoded(t[i..e], d) && WellFormed(d)
    ensures forall d :: PercentDecoded(t[i..e], d) && WellFormed(d) && EscapesOk(t[i..e]) ==>
              NameFrom(t, i, true, acc) == Some(Named(e, acc + Unescaped01(d)))
  {
    hide Unescaped01, EscapesOk, EscapeOk, WellFormed, Unreserved, IsTriple, NameFrom, Bytes, PercentDecoded;
    if NameFrom(t, i, true, acc).Some? { var d := ReadUriSegment(t, i, e, acc); }
    forall d | PercentDecoded(t[i..e], d) && WellFormed(d) && EscapesOk(t[i..e])
      ensures NameFrom(t, i, true, acc) == Some(Named(e, acc + Unescaped01(d)))
    {
      DecodedIsBytes(t[i..e], d);
      UriSegmentIsRead(t, i, e, acc, d);
    }
  }

  // ---------------------------------------------------------------- whole pointers

  /** Where the next slash stands, or the end. */
  function NextSlash(t: string, i: nat): (e: nat)
    requires i <= |t|
    ensures IsSegment(t, i, e)
    decreases |t| - i
  {
    if i == |t| || t[i] == '/' then i else NextSlash(t, i + 1)
  }

  /** The segments behind each slash from i on. */
  function Segments(t: string, i: nat): (bounds: seq<(nat, nat)>)
    requires i <= |t|
    ensures forall b :: b in bounds ==> IsSegment(t, b.0, b.1)
    decreases |t| - i
  {
    if i == |t| then [] else var e := NextSlash(t, i + 1); [(i + 1, e)] + Segments(t, e)
  }

  lemma NameEnd(t: string, i: nat, e: nat, uri: bool)
    requires IsSegment(t, i, e) && NameFrom(t, i, uri, "").Some?
    ensures NameFrom(t, i, uri, "").value.end == e
  {
    if uri {
      var d := ReadUriSegment(t, i, e, "");
      UriSegmentIsRead(t, i, e, "", d);
    } else {
      PlainSegment(t, i, e, "");
    }
  }

  /** The names of the segments, if all are names. */
  function Names(t: string, bounds: seq<(nat, nat)>, uri: bool): Option<seq<string>>
    requires forall b :: b in bounds ==> IsSegment(t, b.0, b.1)
  {
    if bounds == [] then Some([]) else
    assert IsSegment(t, bounds[0].0, bounds[0].1);
    var first, more := NameFrom(t, bounds[0].0, uri, ""), Names(t, bounds[1..], uri);
    if first.None? || more.None? then None else Some([first.value.name] + more.value)
  }

  function NamesOf(tokens: seq<Token>): seq<string> {
    if tokens == [] then [] else [tokens[0].name] + NamesOf(tokens[1..])
  }

  /** A pointer is parsed if and only if each of its segments is a name; its tokens are those names in order. */
  lemma {:induction false} TokensAreSegments(t: string, i: nat, uri: bool)
    requires i <= |t| && (i < |t| ==> t[i] == '/')
    ensures Names(t, Segments(t, i), uri) ==
            if TokensFrom(t, i, uri).None? then None else Some(NamesOf(TokensFrom(t, i, uri).value))
    decreases |t| - i
  {
    hide NameFrom;
    if i < |t| {
      var e := NextSlash(t, i + 1);
      assert Segments(t, i)[1..] == Segments(t, e);
      TokensAreSegments(t, e, uri);
      if NameFrom(t, i + 1, uri, "").Some? {
        NameEnd(t, i + 1, e, uri);
        NameEnds(t, i + 1, uri, "");
      }
    }
  }

  // ---------------------------------------------------------------- whole pointers

  /** A slash and its name for each token. */
  function Slashed(names: seq<string>, text: string -> string): string {
    if names == [] then "" else "/" + text(names[0]) + Slashed(names[1..], text)
  }

  ghost predicate AllWellFormed(names: seq<string>) { forall k :: 0 <= k < |names| ==> WellFormed(names[k]) }

  lemma {:induction false} TokensAreSlashed(tokens: seq<Token>, uri: bool)
    requires AllBytes(tokens)
    ensures TokensText(tokens, uri).Some? <==> !uri || AllWellFormed(NamesOf(tokens))
    ensures TokensText(tokens, uri).Some? ==>
              TokensText(tokens, uri).value ==
              Slashed(NamesOf(tokens), if uri then (s => EachReplaced(s, UriUnits)) else Escaped01)
    decreases |tokens|
  {
    if tokens != [] {
      var name, names := tokens[0].name, NamesOf(tokens);
      assert Bytes(name) && names[0] == name && names[1..] == NamesOf(tokens[1..]) && name[0..] == name;
      if uri { UriNameText(name, 0); } else { PlainNameText(name, 0); }
      TokensAreSlashed(tokens[1..], uri);
      hide WellFormed, NameText, EachReplaced, Escaped01;
      assert AllWellFormed(names) <==> WellFormed(name) && AllWellFormed(names[1..]);
    }
  }

  /** What Stringify and StringifyUriFragment write (RFC 6901, sections 3 and 6), and when they do not. */
  lemma PointerIsText(tokens: seq<Token>)
    requires AllBytes(tokens)
    ensures PointerText(tokens, false) == Some(Slashed(NamesOf(tokens), Escaped01))
    ensures PointerText(tokens, true) ==
            if AllWellFormed(NamesOf(tokens)) then Some("#" + Slashed(NamesOf(tokens), s => EachReplaced(s, UriUnits)))
            else None
  {
    hide TokensText, WellFormed;
    TokensAreSlashed(tokens, false);
    TokensAreSlashed(tokens, true);
    assert "" + TokensText(tokens, false).value == TokensText(tokens, false).value;
  }

  /** What is parsed: nothing, or what begins with a slash, behind a number sign for a fragment; all segments must be
      names. */
  lemma ParsesExactly(t: string)
    ensures var uri := |t| > 0 && t[0] == '#';
            var i: nat := if uri then 1 else 0;
            && (ParsePointer(t).Some? <==> (i == |t| || t[i] == '/') && Names(t, Segments(t, i), uri).Some?)
            && (ParsePointer(t).Some? ==>
                  NamesOf(ParsePointer(t).value) == Names(t, Segments(t, i), uri).value)
  {
    var uri := |t| > 0 && t[0] == '#';
    var i: nat := if uri then 1 else 0;
    if i == |t| || t[i] == '/' { TokensAreSegments(t, i, uri); }
  }

  /** The names of plain segments. */
  function PlainNames(t: string, bounds: seq<(nat, nat)>): seq<string>
    requires forall b :: b in bounds ==> b.0 <= b.1 <= |t|
  {
    if bounds == [] then [] else
    assert bounds[0] in bounds;
    [Unescaped01(t[bounds[0].0..bounds[0].1])] + PlainNames(t, bounds[1..])
  }

  lemma {:induction false} PlainNamesAre(t: string, bounds: seq<(nat, nat)>)
    requires forall b :: b in bounds ==> IsSegment(t, b.0, b.1)
    ensures Names(t, bounds, false) ==
            if forall b :: b in bounds ==> TildesOk(t[b.0..b.1]) then Some(PlainNames(t, bounds)) else None
    decreases |bounds|
  {
    if bounds != [] {
      var b := bounds[0];
      assert b in bounds && bounds == [b] + bounds[1..];
      PlainSegment(t, b.0, b.1, "");
      hide NameFrom, TildesOk, Unescaped01;
      assert "" + Unescaped01(t[b.0..b.1]) == Unescaped01(t[b.0..b.1]);
      PlainNamesAre(t, bounds[1..]);
    }
  }

  /** A pointer that is no fragment is parsed if and only if it is empty or begins with a slash and every tilde in its
      segments is followed by 0 or 1; its names are the segments with the escapes replaced. */
  lemma PlainPointer(t: string)
    requires |t| > 0 ==> t[0] != '#'
    ensures ParsePointer(t).Some? <==>
            (t == "" || t[0] == '/') && forall b :: b in Segments(t, 0) ==> TildesOk(t[b.0..b.1])
    ensures ParsePointer(t).Some? ==> NamesOf(ParsePointer(t).value) == PlainNames(t, Segments(t, 0))
  {
    hide TildesOk, Unescaped01;
    ParsesExactly(t);
    PlainNamesAre(t, Segments(t, 0));
  }

  lemma {:induction false} DecodedIsBytes(segment: string, d: string)
    requires PercentDecoded(segment, d)
    ensures Bytes(d)
    decreases |d|
  {
    if d != "" {
      if IsTriple(segment, d[0]) && PercentDecoded(segment[3..], d[1..]) {
        DecodedIsBytes(segment[3..], d[1..]);
      } else {
        DecodedIsBytes(segment[1..], d[1..]);
      }
      assert d == [d[0]] + d[1..];
    }
  }

  // ---------------------------------------------------------------- indices

  lemma {:induction false} NumeralOfValue(name: string, k: nat)
    requires 1 <= k <= |name| && AllDigits(name) && (k > 1 ==> name[0] != '0')
    ensures Digits(Value(name, k)) == name[..k] && (k > 1 || name[0] != '0' ==> Value(name, k) > 0)
    decreases k
  {
    assert name[..k] == name[..k - 1] + [name[k - 1]];
    if k > 1 {
      NumeralOfValue(name, k - 1);
      var v, d := Value(name, k - 1), DigitValue(name[k - 1]);
      assert Value(name, k) == v * 10 + d && (v * 10 + d) / 10 == v && (v * 10 + d) % 10 == d;
    } else {
      assert Value(name, 0) == 0;
    }
  }

  lemma {:induction false} ValueOfPrefix(s: string, c: char, k: nat)
    requires k <= |s| && AllDigits(s) && IsDigit(c)
    ensures AllDigits(s + [c]) && Value(s + [c], k) == Value(s, k)
    decreases k
  {
    if k > 0 { ValueOfPrefix(s, c, k - 1); }
  }

  lemma {:induction false} ValueOfNumeral(n: nat)
    ensures IsNumber(Digits(n)) && Value(Digits(n), |Digits(n)|) == n && (n > 0 ==> Digits(n)[0] != '0')
    decreases n
  {
    if n < 10 {
      assert Value(Digits(n), 0) == 0;
    } else {
      var s, c := Digits(n / 10), DigitChar(n % 10);
      ValueOfNumeral(n / 10);
      ValueOfPrefix(s, c, |s|);
    }
  }

  /** A name is taken for an index if and only if it is the decimal numeral of a number, without leading zeros. */
  lemma NumberIsNumeral(name: string)
    ensures IsNumber(name) <==> exists n: nat :: name == Digits(n)
    ensures forall n: nat :: IndexOf(Digits(n)) == n <==> n < SIZE
  {
    hide Digits, Value;
    if IsNumber(name) {
      NumeralOfValue(name, |name|);
      assert name[..|name|] == name;
    }
    forall n: nat ensures IsNumber(Digits(n)) && (IndexOf(Digits(n)) == n <==> n < SIZE) {
      ValueOfNumeral(n);
      IndexIsValue(Digits(n));
    }
  }
}
