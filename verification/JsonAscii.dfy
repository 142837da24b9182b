/**
 A Writer with UTF-8 source and ASCII target (WriteString of writer.h): every code point above 7F is
 escaped, beyond FFFF as a surrogate pair.  The UTF-8 reader gives back exactly the bytes of every
 well-formed string.  A string is given by the memory it starts in and its length: the last sequence may be decoded on
 into what stands behind the string.  Behind the memory a NUL is read.
 */
module JsonAscii {
  import opened JsonGrammar
  import opened JsonText
  import opened JsonRoundTrip
  import opened Utf8Encoding
  import opened Wrappers

  /** Four hexadecimal digits. */
  function Quad(v: nat): (digits: string)
    requires v < 0x1_0000
    ensures |digits| == 4
  {
    [HexUpper(v / 0x1000 % 16), HexUpper(v / 0x100 % 16), HexUpper(v / 0x10 % 16), HexUpper(v % 16)]
  }

  /** One escape, or two for the surrogates of a code point beyond FFFF. */
  function CodeEscape(codepoint: nat): string
    requires IsScalar(codepoint)
  {
    if codepoint <= 0xFFFF then "\\u" + Quad(codepoint) else
    var v := codepoint - 0x10000;
    var lead, trail := v / 0x400 + 0xD800, v % 0x400 + 0xDC00;
    "\\u" + Quad(lead) + ("\\u" + Quad(trail))
  }

  /** What is put for the bytes from i on; none where they cannot be decoded. */
  function AsciiUnits(s: string, length: nat, i: nat): Option<string>
    requires Bytes(s) && i <= |s| && length <= |s|
    decreases |s| - i
  {
    if i >= length then Some("")
    else if s[i] >= '\U{80}' then
      var d := Decode(s, i);
      if d.None? then None else
      DecodedIsEncoded(s, i);
      var rest := AsciiUnits(s, length, i + d.value.length);
      if rest.None? then None else Some(CodeEscape(d.value.codepoint) + rest.value)
    else
      var rest := AsciiUnits(s, length, i + 1);
      if rest.None? then None else Some(EscapeUnit(s[i]) + rest.value)
  }

  /** Where the reading ends: at the end of the string, or of a sequence that began in it. */
  function Stop(s: string, length: nat, i: nat): (p: nat)
    requires Bytes(s) && i <= |s| && length <= |s|
    ensures i <= p <= |s|
    decreases |s| - i
  {
    if i >= length || Decode(s, i).None? then i else Stop(s, length, i + Decode(s, i).value.length)
  }

  /** WriteString: whether it succeeded and what it has put. */
  method WriteString(str: string, length: nat) returns (ok: bool, out: string)
    requires Bytes(str) && length <= |str|
    ensures ok <==> AsciiUnits(str, length, 0).Some?
    ensures ok ==> out == "\"" + AsciiUnits(str, length, 0).value + "\""
  {
    out := "\"";
    ghost var done := "";
    var i := 0;
    while i < length
      invariant 0 <= i <= |str| && out == "\"" + done
      invariant AsciiUnits(str, length, 0).Some? <==> AsciiUnits(str, length, i).Some?
      invariant AsciiUnits(str, length, 0).Some? ==>
                  AsciiUnits(str, length, 0).value == done + AsciiUnits(str, length, i).value
    {
      var c := str[i];
      var text;
      var next;
      if c >= '\U{80}' {
        var d := Decode(str, i);
        if d.None? { return false, out; }
        DecodedIsEncoded(str, i);
        text, next := CodeEscape(d.value.codepoint), i + d.value.length;
      } else {
        text, next := EscapeUnit(c), i + 1;
      }
      hide CodeEscape, EscapeUnit, Decode;
      if AsciiUnits(str, length, 0).Some? { Regroup(done, text, AsciiUnits(str, length, next).value); }
      out := out + text;
      done := done + text;
      i := next;
    }
    out := out + "\"";
    ok := true;
  }

  lemma CodeIsAscii(codepoint: nat)
    requires IsScalar(codepoint)
    ensures forall c :: c in CodeEscape(codepoint) ==> c < '\U{80}'
  {
  }

  lemma UnitIsAscii(c: char)
    requires c < '\U{80}'
    ensures forall u :: u in EscapeUnit(c) ==> u < '\U{80}'
  {
  }

  /** Everything put is ASCII. */
  lemma {:induction false} OnlyAscii(s: string, length: nat, i: nat)
    requires Bytes(s) && i <= |s| && length <= |s| && AsciiUnits(s, length, i).Some?
    ensures forall c :: c in AsciiUnits(s, length, i).value ==> c < '\U{80}'
    decreases |s| - i
  {
    hide Decode, CodeEscape, EscapeUnit;
    if i < length {
      if s[i] >= '\U{80}' {
        DecodedIsEncoded(s, i);
        CodeIsAscii(Decode(s, i).value.codepoint);
        OnlyAscii(s, length, i + Decode(s, i).value.length);
      } else {
        UnitIsAscii(s[i]);
        OnlyAscii(s, length, i + 1);
      }
    }
  }

  /** A string of ASCII characters is written as a Writer for a Unicode target writes it. */
  lemma {:induction false} AsciiIsAlike(s: string, length: nat, i: nat)
    requires Bytes(s) && i <= length <= |s| && forall k :: i <= k < length ==> s[k] < '\U{80}'
    ensures AsciiUnits(s, length, i) == Some(EscapeUnits(s[i..length]))
    decreases length - i
  {
    if i < length {
      AsciiIsAlike(s, length, i + 1);
      assert s[i..length][1..] == s[i + 1..length];
    } else {
      assert s[i..length] == "";
    }
  }

  // ---------------------------------------------------------------- which strings are written

  /** The writer succeeds exactly when the string is well-formed UTF-8, or what stands behind it makes it so; what
      has been read then is well formed. */
  lemma WritesWellFormed(s: string, length: nat)
    requires Bytes(s) && length <= |s|
    ensures AsciiUnits(s, length, 0).Some? <==> exists m: nat :: length <= m <= |s| && WellFormed(s[..m])
    ensures AsciiUnits(s, length, 0).Some? ==> length <= Stop(s, length, 0) && WellFormed(s[..Stop(s, length, 0)])
  {
    if AsciiUnits(s, length, 0).Some? {
      StopsBehind(s, length, 0);
      var m := Stop(s, length, 0);
      var codepoints := CodepointsOf(s, length, 0);
      assert s[0..m] == s[..m];
      assert WellFormed(s[..m]);
    }
    if m: nat :| length <= m <= |s| && WellFormed(s[..m]) {
      var codepoints: seq<nat> :| AllScalar(codepoints) && s[..m] == EncodeAll(codepoints);
      assert s[0..m] == s[..m];
      WritesEncoded(s, length, 0, m, codepoints);
    }
  }

  /** A lead byte alone is not well formed, and is written when a continuation byte happens to stand behind it. */
  lemma DecodesBehind()
    ensures AsciiUnits(['\U{C3}', '\U{A9}'], 1, 0) == Some("\\u00E9")
    ensures !WellFormed(['\U{C3}'])
  {
    var s, alone := ['\U{C3}', '\U{A9}'], ['\U{C3}'];
    assert Decode(s, 0) == Some(Decoded(0xE9, 2));
    assert Quad(0xE9) == "00E9" && CodeEscape(0xE9) == "\\u00E9";
    assert AsciiUnits(s, 1, 2) == Some("");
    assert AsciiUnits(s, 1, 0) == Some(CodeEscape(0xE9) + "") && CodeEscape(0xE9) + "" == "\\u00E9";
    assert Decode(alone, 0).None? && AsciiUnits(alone, 1, 0).None?;
    WritesWellFormed(alone, 1);
    assert alone[..1] == alone;
  }

  /** A NUL behind the string leaves exactly the well-formed strings. */
  lemma WritesTerminated(s: string, length: nat)
    requires Bytes(s) && length < |s| && s[length] == '\0'
    ensures AsciiUnits(s, length, 0).Some? <==> WellFormed(s[..length])
  {
    hide WellFormed, AsciiUnits, Decode;
    WritesWellFormed(s, length);
    if AsciiUnits(s, length, 0).Some? { StopsAtNul(s, length, 0); }
  }

  lemma {:induction false} StopsAtNul(s: string, length: nat, i: nat)
    requires Bytes(s) && i <= length < |s| && s[length] == '\0' && AsciiUnits(s, length, i).Some?
    ensures Stop(s, length, i) == length
    decreases |s| - i
  {
    hide Decode, AsciiUnits, Bytes;
    if i < length {
      UnitsStep(s, length, i);
      NoNulInside(s, i, length);
      StopsAtNul(s, length, i + Decode(s, i).value.length);
    }
  }

  lemma NoNulInside(s: string, i: nat, k: nat)
    requires i < k < |s| && s[k] == '\0' && Decode(s, i).Some?
    ensures i + Decode(s, i).value.length <= k
  {
    assert !InMask('\0', ANY);
    assert Peek(s, i + 1) == '\0' || k != i + 1;
  }

  lemma {:induction false} StopsBehind(s: string, length: nat, i: nat)
    requires Bytes(s) && i <= |s| && length <= |s| && AsciiUnits(s, length, i).Some?
    ensures length <= Stop(s, length, i)
    decreases |s| - i
  {
    hide Decode, AsciiUnits, Bytes;
    if i < length {
      UnitsStep(s, length, i);
      StopsBehind(s, length, i + Decode(s, i).value.length);
    }
  }

  /** What is put succeeds from i on if what stands there is decoded and it succeeds from behind that. */
  lemma UnitsStep(s: string, length: nat, i: nat)
    requires Bytes(s) && i < length <= |s|
    ensures AsciiUnits(s, length, i).Some? <==>
            Decode(s, i).Some? && AsciiUnits(s, length, i + Decode(s, i).value.length).Some?
    ensures Decode(s, i).Some? ==> Stop(s, length, i) == Stop(s, length, i + Decode(s, i).value.length)
  {
    hide Two, Three, Four, CodeEscape, EscapeUnit, GetRange;
  }

  lemma {:induction false} CodepointsOf(s: string, length: nat, i: nat) returns (codepoints: seq<nat>)
    requires Bytes(s) && i <= |s| && length <= |s| && AsciiUnits(s, length, i).Some?
    ensures AllScalar(codepoints) && s[i..Stop(s, length, i)] == EncodeAll(codepoints)
    decreases |s| - i
  {
    hide AsciiUnits, Decode, Utf8, EncodeAll, AllScalar, IsScalar, Bytes;
    codepoints := [];
    NoCodepoint();
    if i < length {
      UnitsStep(s, length, i);
      DecodedIsEncoded(s, i);
      var d, m := Decode(s, i).value, Stop(s, length, i);
      var rest := CodepointsOf(s, length, i + d.length);
      codepoints := [d.codepoint] + rest;
      OneMoreCodepoint(d.codepoint, rest);
      assert s[i..m] == s[i..i + d.length] + s[i + d.length..m];
    }
  }

  lemma SplitAt(s: string, i: nat, m: nat, u: string, rest: string)
    requires i <= m <= |s| && s[i..m] == u + rest
    ensures At(s, i, u) && i + |u| <= m && s[i + |u|..m] == rest
  {
    assert s[i..i + |u|] == s[i..m][..|u|] && s[i + |u|..m] == s[i..m][|u|..];
  }

  lemma {:induction false} WritesEncoded(s: string, length: nat, i: nat, m: nat, codepoints: seq<nat>)
    requires Bytes(s) && length <= m <= |s| && i <= m && AllScalar(codepoints) && s[i..m] == EncodeAll(codepoints)
    ensures AsciiUnits(s, length, i).Some? && Stop(s, length, i) <= m
    decreases |codepoints|
  {
    hide Utf8, Decode, AsciiUnits, EncodeAll, AllScalar, IsScalar, Bytes;
    FirstCodepoint(codepoints);
    if i >= length {
      NothingLeft(s, length, i);
    } else if codepoints != [] {
      var u := Utf8(codepoints[0]);
      SplitAt(s, i, m, u, EncodeAll(codepoints[1..]));
      EncodedIsDecoded(s, i, codepoints[0]);
      UnitsStep(s, length, i);
      WritesEncoded(s, length, i + |u|, m, codepoints[1..]);
    }
  }

  lemma NothingLeft(s: string, length: nat, i: nat)
    requires Bytes(s) && length <= i <= |s|
    ensures AsciiUnits(s, length, i) == Some("") && Stop(s, length, i) == i
  {
  }

  // ---------------------------------------------------------------- reading back

  lemma Nibbles(v: nat)
    requires v < 0x1_0000
    ensures ((v / 0x1000 % 16 * 16 + v / 0x100 % 16) * 16 + v / 0x10 % 16) * 16 + v % 16 == v
  {
    var a, b := v / 0x10, v / 0x100;
    assert a == b * 16 + a % 16 && b == v / 0x1000 * 16 + b % 16;
  }

  lemma HexStep(t: string, p: nat, n: nat, v: nat, d: nat)
    requires n < 4 && d < 16 && Hex(t, p, n) == Some(v) && Peek(t, p + n) == HexUpper(d)
    ensures Hex(t, p, n + 1) == Some(v * 16 + d)
  {
  }

  lemma ReadsQuad(t: string, p: nat, v: nat)
    requires v < 0x1_0000 && At(t, p, Quad(v))
    ensures Hex(t, p, 4) == Some(v)
  {
    var q := Quad(v);
    AtPeek(t, p, q, 0);
    AtPeek(t, p, q, 1);
    AtPeek(t, p, q, 2);
    AtPeek(t, p, q, 3);
    assert Hex(t, p, 0) == Some(0);
    hide Hex, HexUpper, At;
    var a, b, c := v / 0x1000 % 16, v / 0x100 % 16, v / 0x10 % 16;
    HexStep(t, p, 0, 0, a);
    HexStep(t, p, 1, a, b);
    HexStep(t, p, 2, a * 16 + b, c);
    HexStep(t, p, 3, (a * 16 + b) * 16 + c, v % 16);
    Nibbles(v);
  }

  /** An escaped code point reads as its UTF-8 bytes. */
  lemma ReadsCode(flags: Flags, t: string, p: nat, acc: string, codepoint: nat)
    requires IsScalar(codepoint) && At(t, p, CodeEscape(codepoint))
    ensures StringFrom(flags, t, p, acc) == StringFrom(flags, t, p + |CodeEscape(codepoint)|, acc + Utf8(codepoint))
  {
    hide Escape, Utf8, Quad;
    var e := CodeEscape(codepoint);
    AtPeek(t, p, e, 0);
    if codepoint <= 0xFFFF {
      ReadsUnitEscape(flags, t, p, codepoint);
    } else {
      ReadsPairEscape(flags, t, p, codepoint);
    }
  }

  lemma ReadsUnitEscape(flags: Flags, t: string, p: nat, codepoint: nat)
    requires codepoint <= 0xFFFF && IsScalar(codepoint) && At(t, p, "\\u" + Quad(codepoint))
    ensures Escape(flags, t, p + 1) == Some(Escaped(p + 6, Utf8(codepoint)))
  {
    hide Hex, Utf8, Quad;
    AtSplit(t, p, "\\u", Quad(codepoint));
    AtPeek(t, p, "\\u", 1);
    ReadsQuad(t, p + 2, codepoint);
  }

  lemma ReadsPairEscape(flags: Flags, t: string, p: nat, codepoint: nat)
    requires 0xFFFF < codepoint <= 0x10FFFF && At(t, p, CodeEscape(codepoint))
    ensures Escape(flags, t, p + 1) == Some(Escaped(p + 12, Utf8(codepoint)))
  {
    hide Utf8, Quad, UnicodeEscape;
    var v := codepoint - 0x10000;
    var lead, trail := v / 0x400 + 0xD800, v % 0x400 + 0xDC00;
    assert Surrogates(lead, trail) == codepoint;
    AtPeek(t, p, CodeEscape(codepoint), 1);
    hide Surrogates;
    ReadsPair(t, p, lead, trail);
  }

  lemma ReadsPair(t: string, p: nat, lead: nat, trail: nat)
    requires 0xD800 <= lead <= 0xDBFF && 0xDC00 <= trail <= 0xDFFF
    requires At(t, p, "\\u" + Quad(lead) + ("\\u" + Quad(trail)))
    ensures UnicodeEscape(t, p + 2) == Some(Escaped(p + 12, Utf8(Surrogates(lead, trail))))
  {
    hide Hex, Utf8;
    var a, b := "\\u" + Quad(lead), "\\u" + Quad(trail);
    AtSplit(t, p, a, b);
    AtSplit(t, p, "\\u", Quad(lead));
    AtSplit(t, p + 6, "\\u", Quad(trail));
    AtPeek(t, p + 6, b, 0);
    AtPeek(t, p + 6, b, 1);
    ReadsQuad(t, p + 2, lead);
    ReadsQuad(t, p + 8, trail);
  }

  lemma {:induction false} ReadsFrom(flags: Flags, t: string, p: nat, acc: string, s: string, length: nat, i: nat)
    requires Bytes(s) && i <= |s| && length <= |s| && AsciiUnits(s, length, i).Some?
    requires At(t, p, AsciiUnits(s, length, i).value + "\"")
    ensures StringFrom(flags, t, p, acc)
         == Some(Escaped(p + |AsciiUnits(s, length, i).value| + 1, acc + s[i..Stop(s, length, i)]))
    decreases |s| - i
  {
    hide StringFrom, EscapeUnit, CodeEscape, At, Utf8, Decode;
    var m := Stop(s, length, i);
    if i >= length {
      assert AsciiUnits(s, length, i).value + "\"" == "\"" && acc + s[i..m] == acc;
      ReadsQuote(flags, t, p, acc);
    } else if s[i] >= '\U{80}' {
      UnitsStep(s, length, i);
      var d := Decode(s, i).value;
      DecodedIsEncoded(s, i);
      var head, tail := CodeEscape(d.codepoint), AsciiUnits(s, length, i + d.length).value;
      assert AsciiUnits(s, length, i).value == head + tail;
      hide AsciiUnits;
      Regroup(head, tail, "\"");
      AtSplit(t, p, head, tail + "\"");
      ReadsCode(flags, t, p, acc, d.codepoint);
      ReadsFrom(flags, t, p + |head|, acc + Utf8(d.codepoint), s, length, i + d.length);
      Regroup(acc, s[i..i + d.length], s[i + d.length..m]);
      assert s[i..m] == s[i..i + d.length] + s[i + d.length..m];
    } else {
      UnitsStep(s, length, i);
      AsciiIsDecoded(s, i);
      var head, tail := EscapeUnit(s[i]), AsciiUnits(s, length, i + 1).value;
      assert AsciiUnits(s, length, i).value == head + tail;
      hide AsciiUnits;
      Regroup(head, tail, "\"");
      AtSplit(t, p, head, tail + "\"");
      ReadsUnit(flags, t, p, acc, s[i]);
      ReadsFrom(flags, t, p + |head|, acc + [s[i]], s, length, i + 1);
      Regroup(acc, [s[i]], s[i + 1..m]);
      assert s[i..m] == [s[i]] + s[i + 1..m];
    }
  }

  lemma AsciiIsDecoded(s: string, i: nat)
    requires i < |s| && s[i] < '\U{80}'
    ensures Decode(s, i) == Some(Decoded(s[i] as int, 1))
  {
  }

  /** ASCII text of a well-formed UTF-8 string, whatever stands behind it, read by the UTF-8 reader: exactly its bytes,
      to its closing quote. */
  lemma AsciiRoundTrip(flags: Flags, t: string, p: nat, s: string, length: nat)
    requires Bytes(s) && length <= |s| && WellFormed(s[..length])
    ensures AsciiUnits(s, length, 0).Some?
    ensures At(t, p, AsciiUnits(s, length, 0).value + "\"") ==>
              StringFrom(flags, t, p, "") == Some(Escaped(p + |AsciiUnits(s, length, 0).value| + 1, s[..length]))
  {
    hide AsciiUnits, StringFrom, At, Decode;
    var codepoints: seq<nat> :| AllScalar(codepoints) && s[..length] == EncodeAll(codepoints);
    assert s[0..length] == s[..length];
    hide EncodeAll, AllScalar, Bytes;
    WritesEncoded(s, length, 0, length, codepoints);
    StopsBehind(s, length, 0);
    if At(t, p, AsciiUnits(s, length, 0).value + "\"") {
      ReadsFrom(flags, t, p, "", s, length, 0);
      assert "" + s[0..length] == s[..length];
    }
  }
}
