/**
 GenericPointer (pointer.h): parsing a JSON Pointer or its URI fragment form (RFC 6901, sections 3 and
 6) into names and array indices, and writing it out again, on UTF-8.
 */
module JsonPointer {
  import opened JsonGrammar
  import opened JsonText
  import opened JsonRoundTrip
  import opened Utf8Encoding
  import opened Wrappers

  const SIZE := 0x1_0000_0000
  const INVALID_INDEX := 0xFFFF_FFFF

  datatype Token = Token(name: string, index: nat)

  // ---------------------------------------------------------------- indices

  /** What the digits of `name` up to k amount to. */
  function Value(name: string, k: nat): nat
    requires k <= |name| && forall i :: 0 <= i < k ==> IsDigit(name[i])
  {
    if k == 0 then 0 else Value(name, k - 1) * 10 + DigitValue(name[k - 1])
  }

  predicate AllDigits(name: string) { forall i :: 0 <= i < |name| ==> IsDigit(name[i]) }

  /** The two checks for an index: digits only, and no leading zero before others. */
  predicate IsNumber(name: string) {
    name != "" && AllDigits(name) && (|name| > 1 ==> name[0] != '0')
  }

  /** The conversion to SizeType with its overflow test, up to digit k. */
  function Convert(name: string, k: nat): (n: Option<nat>)
    requires k <= |name| && AllDigits(name)
    ensures n.Some? ==> n.value < SIZE
  {
    if k == 0 then Some(0) else
    var n := Convert(name, k - 1);
    if n.None? then None else
    var m := (n.value * 10 + DigitValue(name[k - 1])) % SIZE;
    if m < n.value then None else Some(m)
  }

  function IndexOf(name: string): nat {
    if !IsNumber(name) then INVALID_INDEX else
    var n := Convert(name, |name|);
    if n.None? then INVALID_INDEX else n.value
  }

  lemma ModuloStep(x: nat, d: nat)
    ensures (x % SIZE * 10 + d) % SIZE == (x * 10 + d) % SIZE
  {
    var q := x / SIZE;
    assert x * 10 + d == x % SIZE * 10 + d + SIZE * (10 * q);
  }

  lemma {:induction false} ConvertIsModulo(name: string, k: nat)
    requires k <= |name| && AllDigits(name)
    ensures Convert(name, k).Some? ==> Convert(name, k).value == Value(name, k) % SIZE
  {
    if k > 0 {
      ConvertIsModulo(name, k - 1);
      ModuloStep(Value(name, k - 1), DigitValue(name[k - 1]));
    }
  }

  /** A number that fits SizeType is found. */
  lemma {:induction false} ConvertFits(name: string, k: nat)
    requires k <= |name| && AllDigits(name) && Value(name, k) < SIZE
    ensures Convert(name, k) == Some(Value(name, k))
  {
    if k > 0 { ConvertFits(name, k - 1); }
  }

  /** The index of a name that is a number is that number exactly when it fits. */
  lemma IndexIsValue(name: string)
    requires IsNumber(name)
    ensures IndexOf(name) == Value(name, |name|) <==> Value(name, |name|) < SIZE
  {
    if Value(name, |name|) < SIZE { ConvertFits(name, |name|); }
  }

  /** The digits up to j are, modulo 2^32, smaller than those up to j - 1. */
  predicate Drops(name: string, j: nat)
    requires 0 < j <= |name| && AllDigits(name)
  {
    Value(name, j) % SIZE < Value(name, j - 1) % SIZE
  }

  /** The overflow test stops the conversion exactly when some prefix of the digits drops below the one before it;
      numbers that do not fit and have no such prefix are not noticed. */
  lemma {:induction false} OverflowNoticed(name: string, k: nat)
    requires k <= |name| && AllDigits(name)
    ensures Convert(name, k).None? <==> exists j: nat :: 0 < j <= k && Drops(name, j)
  {
    if k > 0 {
      OverflowNoticed(name, k - 1);
      ConvertIsModulo(name, k - 1);
      ModuloStep(Value(name, k - 1), DigitValue(name[k - 1]));
      assert Convert(name, k - 1).Some? ==> (Convert(name, k).None? <==> Drops(name, k));
    }
  }

  /** Five thousand million does not fit, and is taken for index 705032704. */
  lemma OverflowMissed()
    ensures IsNumber("5000000000") && Value("5000000000", 10) == 5000000000
    ensures IndexOf("5000000000") == 705032704
  {
    hide Value, Convert;
    var s := "5000000000";
    assert AllDigits(s) && s[0] == '5';
    TenDigits(s);
    ConvertFits(s, 9);
    ConvertStep(s, 9, 500000000);
  }

  lemma TenDigits(s: string)
    requires |s| == 10 && AllDigits(s) && s[0] == '5' && forall i :: 1 <= i < 10 ==> s[i] == '0'
    ensures Value(s, 9) == 500000000 && Value(s, 10) == 5000000000
  {
    assert Value(s, 2) == 50 by { assert Value(s, 1) == 5; }
    assert Value(s, 4) == 5000 by { assert Value(s, 3) == 500; }
    assert Value(s, 6) == 500000 by { assert Value(s, 5) == 50000; }
    assert Value(s, 8) == 50000000 by { assert Value(s, 7) == 5000000; }
  }

  lemma ConvertStep(s: string, k: nat, n: nat)
    requires k < |s| && AllDigits(s) && Convert(s, k) == Some(n)
    ensures Convert(s, k + 1) == var m := (n * 10 + DigitValue(s[k])) % SIZE; if m < n then None else Some(m)
  {
  }

  // ---------------------------------------------------------------- percent encoding

  /** NeedPercentEncode: not unreserved in RFC 3986, section 2.3. */
  predicate NeedsPercent(c: char) {
    !(IsDigit(c) || 'A' <= c <= 'Z' || 'a' <= c <= 'z' || c == '-' || c == '.' || c == '_' || c == '~')
  }

  /** PercentDecodeStream::Take. */
  function PercentByte(t: string, p: nat): Option<char> {
    if p + 3 > |t| || t[p] != '%' then None else
    var a, b := HexDigit(t[p + 1]), HexDigit(t[p + 2]);
    if a.None? || b.None? then None else Some(Unit(a.value * 16 + b.value))
  }

  /** How many bytes Validate takes when the first is c. */
  function SequenceLength(c: char): (n: nat)
    ensures 1 <= n <= 4
  {
    var range := GetRange(c);
    if range == 2 then 2 else if range == 3 || range == 4 || range == 10 then 3
    else if range == 5 || range == 6 || range == 11 then 4 else 1
  }

  /** n percent-encoded bytes. */
  function PercentBytes(t: string, p: nat, n: nat): (s: Option<string>)
    ensures s.Some? ==> |s.value| == n && (n > 0 ==> p + 3 * n <= |t|)
  {
    if n == 0 then Some("") else
    var front, b := PercentBytes(t, p, n - 1), PercentByte(t, p + 3 * (n - 1));
    if front.None? || b.None? then None else Some(front.value + [b.value])
  }

  /** One percent-encoded UTF-8 sequence. */
  function PercentSequence(t: string, p: nat): (s: Option<string>)
    ensures s.Some? ==> 1 <= |s.value| <= 4 && p + 3 * |s.value| <= |t|
  {
    var lead := PercentByte(t, p);
    if lead.None? then None else
    var bytes := PercentBytes(t, p, SequenceLength(lead.value));
    if bytes.None? || Decode(bytes.value, 0).None? then None else bytes
  }

  // ---------------------------------------------------------------- parsing

  datatype Named = Named(end: nat, name: string)

  /** What stands at i: a percent-encoded sequence, or a character that needs no encoding. */
  function NextUnits(t: string, i: nat, uri: bool): (r: Option<Escaped>)
    requires i < |t|
    ensures r.Some? ==> i < r.value.end <= |t| && 1 <= |r.value.units|
  {
    if uri && t[i] == '%' then
      var s := PercentSequence(t, i);
      if s.None? then None else Some(Escaped(i + 3 * |s.value|, s.value))
    else if uri && NeedsPercent(t[i]) then None
    else Some(Escaped(i + 1, [t[i]]))
  }

  /** A name from i on, up to a slash or the end, with `acc` already in the buffer. */
  function NameFrom(t: string, i: nat, uri: bool, acc: string): (r: Option<Named>)
    requires i <= |t|
    ensures r.Some? ==> i <= r.value.end <= |t|
    decreases |t| - i, 0
  {
    if i == |t| || t[i] == '/' then Some(Named(i, acc)) else
    var u := NextUnits(t, i, uri);
    if u.None? then None
    else if |u.value.units| == 1 then Unescaped(t, u.value.end, uri, acc, u.value.units[0])
    else NameFrom(t, u.value.end, uri, acc + u.value.units)
  }

  /** A character c that ends before i, which may begin an escape: what it stands for and where it ends. */
  function Tilde(t: string, i: nat, c: char): (r: Option<Escaped>)
    requires i <= |t|
    ensures r.Some? ==> i <= r.value.end <= |t| && |r.value.units| == 1
  {
    if c != '~' then Some(Escaped(i, [c]))
    else if i < |t| && t[i] == '0' then Some(Escaped(i + 1, "~"))
    else if i < |t| && t[i] == '1' then Some(Escaped(i + 1, "/"))
    else None
  }

  function Unescaped(t: string, i: nat, uri: bool, acc: string, c: char): (r: Option<Named>)
    requires 0 < i <= |t|
    ensures r.Some? ==> i <= r.value.end <= |t|
    decreases |t| - i, 1
  {
    var e := Tilde(t, i, c);
    if e.None? then None else NameFrom(t, e.value.end, uri, acc + e.value.units)
  }

  function TokensFrom(t: string, i: nat, uri: bool): Option<seq<Token>>
    requires i <= |t| && (i < |t| ==> t[i] == '/')
    decreases |t| - i
  {
    if i == |t| then Some([]) else
    var n := NameFrom(t, i + 1, uri, "");
    if n.None? then None else
    NameEnds(t, i + 1, uri, "");
    var rest := TokensFrom(t, n.value.end, uri);
    if rest.None? then None else Some([Token(n.value.name, IndexOf(n.value.name))] + rest.value)
  }

  lemma {:induction false} NameEnds(t: string, i: nat, uri: bool, acc: string)
    requires i <= |t| && NameFrom(t, i, uri, acc).Some?
    ensures var e := NameFrom(t, i, uri, acc).value.end; e < |t| ==> t[e] == '/'
    decreases |t| - i, 0
  {
    if i < |t| && t[i] != '/' {
      var u := NextUnits(t, i, uri).value;
      if |u.units| == 1 {
        UnescapedEnds(t, u.end, uri, acc, u.units[0]);
      } else {
        NameEnds(t, u.end, uri, acc + u.units);
      }
    }
  }

  lemma {:induction false} UnescapedEnds(t: string, i: nat, uri: bool, acc: string, c: char)
    requires 0 < i <= |t| && Unescaped(t, i, uri, acc, c).Some?
    ensures var e := Unescaped(t, i, uri, acc, c).value.end; e < |t| ==> t[e] == '/'
    decreases |t| - i, 1
  {
    var e := Tilde(t, i, c).value;
    NameEnds(t, e.end, uri, acc + e.units);
  }

  function ParsePointer(t: string): Option<seq<Token>> {
    var uri := Peek(t, 0) == '#';
    var i := if uri then 1 else 0;
    if i != |t| && t[i] != '/' then None else TokensFrom(t, i, uri)
  }

  // ---------------------------------------------------------------- writing

  /** PercentEncodeStream. */
  function Percent(s: string): string
    requires Bytes(s)
  {
    if s == "" then "" else
    var k := |s| - 1;
    assert s[k] in s;
    Percent(s[..k]) + ['%', HexUpper(s[k] as int / 16), HexUpper(s[k] as int % 16)]
  }

  /** A name from j on; none where it is not well-formed UTF-8 and would have to be percent-encoded. */
  function NameText(s: string, j: nat, uri: bool): Option<string>
    requires Bytes(s) && j <= |s|
    decreases |s| - j
  {
    if j == |s| then Some("")
    else if s[j] == '~' || s[j] == '/' then
      var rest := NameText(s, j + 1, uri);
      if rest.None? then None else Some((if s[j] == '~' then "~0" else "~1") + rest.value)
    else if uri && NeedsPercent(s[j]) then
      var d := Decode(s, j);
      if d.None? then None else
      var rest := NameText(s, j + d.value.length, uri);
      if rest.None? then None else Some(Percent(s[j..j + d.value.length]) + rest.value)
    else
      var rest := NameText(s, j + 1, uri);
      if rest.None? then None else Some([s[j]] + rest.value)
  }

  predicate AllBytes(tokens: seq<Token>) { forall k :: 0 <= k < |tokens| ==> Bytes(tokens[k].name) }

  function TokensText(tokens: seq<Token>, uri: bool): Option<string>
    requires AllBytes(tokens)
  {
    if tokens == [] then Some("") else
    assert Bytes(tokens[0].name);
    var name, rest := NameText(tokens[0].name, 0, uri), TokensText(tokens[1..], uri);
    if name.None? || rest.None? then None else Some("/" + name.value + rest.value)
  }

  /** Stringify, and StringifyUriFragment. */
  function PointerText(tokens: seq<Token>, uri: bool): Option<string>
    requires AllBytes(tokens)
  {
    var text := TokensText(tokens, uri);
    if text.None? then None else Some((if uri then "#" else "") + text.value)
  }

  // ---------------------------------------------------------------- reading back

  /** A sequence is decoded by itself as it is in its place. */
  lemma DecodeAlone(s: string, j: nat)
    requires Bytes(s) && j < |s| && Decode(s, j).Some?
    ensures var n := Decode(s, j).value.length; SequenceLength(s[j]) == n && Decode(s[j..j + n], 0) == Decode(s, j)
  {
    var n := Decode(s, j).value.length;
    var u := s[j..j + n];
    assert forall k: nat :: k < n ==> u[k] == s[j + k];
    assert u[0] == s[j] && s[j] in s;
    hide InMask;
  }

  lemma ReadsPercentByte(t: string, p: nat, c: char)
    requires IsByte(c) && At(t, p, ['%', HexUpper(c as int / 16), HexUpper(c as int % 16)])
    ensures PercentByte(t, p) == Some(c)
  {
    var u := ['%', HexUpper(c as int / 16), HexUpper(c as int % 16)];
    AtPeek(t, p, u, 0);
    AtPeek(t, p, u, 1);
    AtPeek(t, p, u, 2);
  }

  lemma {:induction false} ReadsPercent(t: string, p: nat, s: string)
    requires Bytes(s) && At(t, p, Percent(s))
    ensures |Percent(s)| == 3 * |s| && PercentBytes(t, p, |s|) == Some(s)
    decreases |s|
  {
    hide PercentByte, HexUpper, At;
    if s != "" {
      var k := |s| - 1;
      assert s[k] in s;
      var u := ['%', HexUpper(s[k] as int / 16), HexUpper(s[k] as int % 16)];
      AtSplit(t, p, Percent(s[..k]), u);
      ReadsPercent(t, p, s[..k]);
      ReadsPercentByte(t, p + 3 * k, s[k]);
      assert s[..k] + [s[k]] == s;
    }
  }

  lemma ReadsSequence(t: string, p: nat, s: string, j: nat)
    requires Bytes(s) && j < |s| && Decode(s, j).Some? && At(t, p, Percent(s[j..j + Decode(s, j).value.length]))
    ensures PercentSequence(t, p) == Some(s[j..j + Decode(s, j).value.length]) && p < |t| && t[p] == '%'
  {
    var n := Decode(s, j).value.length;
    var u := s[j..j + n];
    DecodeAlone(s, j);
    hide Decode, Percent;
    ReadsPercent(t, p, u);
    FirstOf(t, p, n);
  }

  lemma {:induction false} FirstOf(t: string, p: nat, n: nat)
    requires n > 0 && PercentBytes(t, p, n).Some?
    ensures PercentByte(t, p) == Some(PercentBytes(t, p, n).value[0])
  {
    if n > 1 { FirstOf(t, p, n - 1); }
  }

  predicate EndsName(t: string, p: nat) { p == |t| || (p < |t| && t[p] == '/') }

  /** A name written is read back, up to the next slash or the end. */
  lemma {:induction false} ReadsName(t: string, p: nat, uri: bool, acc: string, s: string, j: nat)
    requires Bytes(s) && j <= |s| && NameText(s, j, uri).Some?
    requires var out := NameText(s, j, uri).value; At(t, p, out) && EndsName(t, p + |out|)
    ensures NameFrom(t, p, uri, acc) == Some(Named(p + |NameText(s, j, uri).value|, acc + s[j..]))
    decreases |s| - j
  {
    if j == |s| {
      assert acc + s[j..] == acc;
    } else if s[j] == '~' || s[j] == '/' {
      ReadsEscape(t, p, uri, acc, s, j);
    } else if uri && NeedsPercent(s[j]) {
      ReadsEncoded(t, p, uri, acc, s, j);
    } else {
      ReadsPlain(t, p, uri, acc, s, j);
    }
  }

  lemma {:induction false} ReadsEscape(t: string, p: nat, uri: bool, acc: string, s: string, j: nat)
    requires Bytes(s) && j < |s| && NameText(s, j, uri).Some? && (s[j] == '~' || s[j] == '/')
    requires var out := NameText(s, j, uri).value; At(t, p, out) && EndsName(t, p + |out|)
    ensures NameFrom(t, p, uri, acc) == Some(Named(p + |NameText(s, j, uri).value|, acc + s[j..]))
    decreases |s| - j, 0
  {
    var head, tail := if s[j] == '~' then "~0" else "~1", NameText(s, j + 1, uri).value;
    assert NameText(s, j, uri).value == head + tail;
    AtSplit(t, p, head, tail);
    AtPeek(t, p, head, 0);
    AtPeek(t, p, head, 1);
    ReadsName(t, p + 2, uri, acc + [s[j]], s, j + 1);
    assert acc + [s[j]] + s[j + 1..] == acc + s[j..];
    assert NameFrom(t, p, uri, acc) == Unescaped(t, p + 1, uri, acc, '~');
  }

  lemma {:induction false} ReadsPlain(t: string, p: nat, uri: bool, acc: string, s: string, j: nat)
    requires Bytes(s) && j < |s| && NameText(s, j, uri).Some? && s[j] != '~' && s[j] != '/'
             && !(uri && NeedsPercent(s[j]))
    requires var out := NameText(s, j, uri).value; At(t, p, out) && EndsName(t, p + |out|)
    ensures NameFrom(t, p, uri, acc) == Some(Named(p + |NameText(s, j, uri).value|, acc + s[j..]))
    decreases |s| - j, 0
  {
    var head, tail := [s[j]], NameText(s, j + 1, uri).value;
    assert NameText(s, j, uri).value == head + tail;
    AtSplit(t, p, head, tail);
    AtPeek(t, p, head, 0);
    ReadsName(t, p + 1, uri, acc + [s[j]], s, j + 1);
    assert acc + [s[j]] + s[j + 1..] == acc + s[j..];
    assert NameFrom(t, p, uri, acc) == Unescaped(t, p + 1, uri, acc, s[j]);
  }

  lemma EncodedStep(t: string, p: nat, acc: string, u: string)
    requires p < |t| && t[p] == '%' && PercentSequence(t, p) == Some(u) && u[0] != '~'
    ensures NameFrom(t, p, true, acc) == NameFrom(t, p + 3 * |u|, true, acc + u)
  {
    hide PercentSequence;
    if |u| == 1 {
      assert u == [u[0]];
      assert NameFrom(t, p, true, acc) == Unescaped(t, p + 3, true, acc, u[0]);
    }
  }

  lemma {:induction false} ReadsEncoded(t: string, p: nat, uri: bool, acc: string, s: string, j: nat)
    requires Bytes(s) && j < |s| && NameText(s, j, uri).Some? && s[j] != '~' && s[j] != '/' && uri && NeedsPercent(s[j])
    requires var out := NameText(s, j, uri).value; At(t, p, out) && EndsName(t, p + |out|)
    ensures NameFrom(t, p, uri, acc) == Some(Named(p + |NameText(s, j, uri).value|, acc + s[j..]))
    decreases |s| - j, 0
  {
    hide Decode, Percent, PercentSequence, NameFrom, At;
    var n := Decode(s, j).value.length;
    var u, tail := s[j..j + n], NameText(s, j + n, uri).value;
    assert NameText(s, j, uri).value == Percent(u) + tail;
    hide NameText;
    AtSplit(t, p, Percent(u), tail);
    ReadsSequence(t, p, s, j);
    ReadsPercent(t, p, u);
    ReadsName(t, p + 3 * n, uri, acc + u, s, j + n);
    EncodedStep(t, p, acc, u);
    assert acc + u + s[j + n..] == acc + s[j..];
  }

  /** The index of every token is the one its name has. */
  predicate Consistent(tokens: seq<Token>) {
    forall k :: 0 <= k < |tokens| ==> tokens[k].index == IndexOf(tokens[k].name)
  }

  lemma {:induction false} ReadsTokens(t: string, p: nat, uri: bool, tokens: seq<Token>)
    requires AllBytes(tokens) && Consistent(tokens) && TokensText(tokens, uri).Some?
    requires At(t, p, TokensText(tokens, uri).value) && p + |TokensText(tokens, uri).value| == |t|
    ensures p <= |t| && (p < |t| ==> t[p] == '/') && TokensFrom(t, p, uri) == Some(tokens)
    decreases |tokens|
  {
    hide NameText, NameFrom, IndexOf, At;
    if tokens != [] {
      assert Bytes(tokens[0].name);
      var name, rest := NameText(tokens[0].name, 0, uri).value, TokensText(tokens[1..], uri).value;
      var head := "/" + name;
      assert TokensText(tokens, uri).value == head + rest;
      AtSplit(t, p, head, rest);
      AtSplit(t, p, "/", name);
      AtPeek(t, p, "/", 0);
      ReadsTokens(t, p + |head|, uri, tokens[1..]);
      ReadsName(t, p + 1, uri, "", tokens[0].name, 0);
      assert "" + tokens[0].name[0..] == tokens[0].name;
      assert [tokens[0]] + tokens[1..] == tokens;
    }
  }

  /** What Parse gives has consistent indices. */
  lemma {:induction false} ParsedIsConsistent(t: string, i: nat, uri: bool)
    requires i <= |t| && (i < |t| ==> t[i] == '/') && TokensFrom(t, i, uri).Some?
    ensures Consistent(TokensFrom(t, i, uri).value)
    decreases |t| - i
  {
    if i < |t| {
      NameEnds(t, i + 1, uri, "");
      ParsedIsConsistent(t, NameFrom(t, i + 1, uri, "").value.end, uri);
    }
  }

  /** Parse of Stringify gives the pointer back: names, lengths and indices; and so does Parse of the URI fragment
      wherever StringifyUriFragment succeeds.  Stringify itself always succeeds. */
  lemma PointerRoundTrip(tokens: seq<Token>, uri: bool)
    requires AllBytes(tokens) && Consistent(tokens)
    ensures PointerText(tokens, uri).Some? ==> ParsePointer(PointerText(tokens, uri).value) == Some(tokens)
    ensures !uri ==> PointerText(tokens, uri).Some?
  {
    if !uri { AlwaysWritten(tokens); }
    if PointerText(tokens, uri).Some? {
      var head, text := if uri then "#" else "", TokensText(tokens, uri).value;
      var t := head + text;
      assert At(t, |head|, text);
      ReadsTokens(t, |head|, uri, tokens);
    }
  }

  lemma {:induction false} AlwaysWritten(tokens: seq<Token>)
    requires AllBytes(tokens)
    ensures TokensText(tokens, false).Some?
    decreases |tokens|
  {
    if tokens != [] {
      assert Bytes(tokens[0].name);
      NameWritten(tokens[0].name, 0);
      AlwaysWritten(tokens[1..]);
    }
  }

  lemma {:induction false} NameWritten(s: string, j: nat)
    requires Bytes(s) && j <= |s|
    ensures NameText(s, j, false).Some?
    decreases |s| - j
  {
    if j < |s| { NameWritten(s, j + 1); }
  }

  // ---------------------------------------------------------------- the class

  /** Where a token's name lies in the name buffer. */
  datatype Slot = Slot(start: nat, length: nat, index: nat)

  function Slashes(t: string): nat {
    if t == "" then 0 else Slashes(t[..|t| - 1]) + if t[|t| - 1] == '/' then 1 else 0
  }

  lemma {:induction false} SlashesGrow(t: string, i: nat)
    requires i <= |t|
    ensures Slashes(t[..i]) <= Slashes(t)
    decreases |t| - i
  {
    if i < |t| {
      SlashesGrow(t, i + 1);
      assert t[..i + 1][..i] == t[..i];
    } else {
      assert t[..i] == t;
    }
  }

  function Prepend(ts: seq<Token>, r: Option<seq<Token>>): Option<seq<Token>> {
    if r.None? then None else Some(ts + r.value)
  }

  lemma PrependNone(r: Option<seq<Token>>)
    ensures Prepend([], r) == r
  {
    if r.Some? { assert [] + r.value == r.value; }
  }

  lemma PrependFails(ts: seq<Token>, r: Option<seq<Token>>)
    ensures Prepend(ts, r).None? <==> r.None?
  {
  }

  lemma PrependEmpty(ts: seq<Token>)
    ensures Prepend(ts, Some([])) == Some(ts)
  {
    assert ts + [] == ts;
  }

  lemma TokensEnd(t: string, uri: bool)
    ensures TokensFrom(t, |t|, uri) == Some([])
  {
  }

  /** One token of the list. */
  lemma TokensStep(t: string, i: nat, uri: bool, done: seq<Token>)
    requires i < |t| && t[i] == '/'
    ensures var n := NameFrom(t, i + 1, uri, "");
            if n.None? then TokensFrom(t, i, uri).None?
            else
              var e := n.value.end;
              e <= |t| && (e < |t| ==> t[e] == '/')
              && Prepend(done, TokensFrom(t, i, uri)) ==
                 Prepend(done + [Token(n.value.name, IndexOf(n.value.name))], TokensFrom(t, e, uri))
  {
    hide NameFrom, IndexOf;
    var n := NameFrom(t, i + 1, uri, "");
    if n.Some? {
      NameEnds(t, i + 1, uri, "");
      var rest := TokensFrom(t, n.value.end, uri);
      var token := Token(n.value.name, IndexOf(n.value.name));
      if rest.Some? { assert done + ([token] + rest.value) == done + [token] + rest.value; }
    }
  }

  lemma SlashHere(t: string, i: nat)
    requires i < |t| && t[i] == '/'
    ensures Slashes(t[..i]) < Slashes(t) && Slashes(t[..i + 1]) == Slashes(t[..i]) + 1
  {
    assert t[..i + 1][..i] == t[..i];
    SlashesGrow(t, i + 1);
  }

  lemma SlashesBetween(t: string, i: nat, j: nat)
    requires i <= j <= |t|
    ensures Slashes(t[..i]) <= Slashes(t[..j])
  {
    SlashesGrow(t[..j], i);
    assert t[..j][..i] == t[..i];
  }

  method CountSlashes(t: string) returns (n: nat)
    ensures n == Slashes(t)
  {
    n := 0;
    var i := 0;
    while i < |t|
      invariant 0 <= i <= |t| && n == Slashes(t[..i])
    {
      assert t[..i + 1][..i] == t[..i];
      if t[i] == '/' { n := n + 1; }
      i := i + 1;
    }
    assert t[..i] == t;
  }

  /** A sequence of more than one byte is not made of digits. */
  lemma NotDigits(t: string, p: nat, acc: string)
    requires p < |t| && NextUnits(t, p, true).Some? && |NextUnits(t, p, true).value.units| > 1
    ensures !AllDigits(acc + NextUnits(t, p, true).value.units)
  {
    var u := NextUnits(t, p, true).value.units;
    FirstOf(t, p, SequenceLength(PercentByte(t, p).value));
    assert (acc + u)[|acc|] == u[0] && !IsDigit(u[0]);
  }

  /** Once the test stops the conversion it stays stopped. */
  lemma {:induction false} ConvertStops(name: string, k: nat)
    requires k <= |name| && AllDigits(name) && Convert(name, k).None?
    ensures Convert(name, |name|).None?
    decreases |name| - k
  {
    if k < |name| { ConvertStops(name, k + 1); }
  }

  /** The token of a slot of the name buffer. */
  function TokenIn(buffer: string, slot: Slot): Token
    requires slot.start + slot.length <= |buffer|
  {
    Token(buffer[slot.start..slot.start + slot.length], slot.index)
  }

  /** Tokens below `start` do not change when the buffer does so from there on. */
  lemma OldTokens(before: string, after: string, slots: seq<Slot>, n: nat, start: nat)
    requires start <= |before| == |after| && before[..start] == after[..start] && n <= |slots|
    requires forall k: nat :: k < n ==> slots[k].start + slots[k].length <= start
    ensures forall k: nat :: k < n ==> TokenIn(before, slots[k]) == TokenIn(after, slots[k])
  {
    forall k: nat | k < n ensures TokenIn(before, slots[k]) == TokenIn(after, slots[k]) {
      var a, b := slots[k].start, slots[k].start + slots[k].length;
      assert before[a..b] == before[..start][a..b] && after[a..b] == after[..start][a..b];
    }
  }

  lemma NoDigits()
    ensures AllDigits("")
  {
  }

  lemma OneMore(acc: string, c: char)
    ensures AllDigits(acc + [c]) <==> AllDigits(acc) && IsDigit(c)
  {
    assert (acc + [c])[|acc|] == c;
    assert forall i :: 0 <= i < |acc| ==> (acc + [c])[i] == acc[i];
  }

  class Pointer {
    var nameBuffer: array<char>
    var tokens: array<Slot>
    var tokenCount: nat
    var failed: bool

    /** The token in slot k. */
    ghost function TokenAt(k: nat): Token
      requires k < tokens.Length && tokens[k].start + tokens[k].length <= nameBuffer.Length
      reads this, nameBuffer, tokens
    {
      TokenIn(nameBuffer[..], tokens[k])
    }

    /** The slots lie inside the buffer, the first n of them below `end`. */
    ghost predicate SlotsOk(n: nat, end: nat)
      reads this, nameBuffer, tokens
    {
      && n <= tokens.Length && end <= nameBuffer.Length
      && forall k: nat :: k < n ==> tokens[k].start + tokens[k].length <= end
    }

    /** Validate on a PercentDecodeStream at i, putting at `name`: it may put bytes even of a sequence it refuses. */
    method ValidatePercent(source: string, i: nat, name: nat) returns (ok: bool, len: nat)
      requires i < |source| && source[i] == '%' && name + 1 < i && nameBuffer.Length == |source|
      modifies nameBuffer
      ensures nameBuffer[..name] == old(nameBuffer[..name])
      ensures ok <==> PercentSequence(source, i).Some?
      ensures ok ==> len == |PercentSequence(source, i).value| && name + len <= nameBuffer.Length
      ensures ok ==> nameBuffer[name..name + len] == PercentSequence(source, i).value
    {
      hide PercentByte, Decode, SequenceLength;
      len := 1;
      var c := PercentByte(source, i);
      nameBuffer[name] := if c.None? then '\0' else c.value;
      if c.None? { return false, 1; }
      var n := SequenceLength(c.value);
      ok := true;
      while len < n
        invariant 1 <= len <= n && nameBuffer[..name] == old(nameBuffer[..name])
        invariant ok <==> PercentBytes(source, i, len).Some?
        invariant ok ==> nameBuffer[name..name + len] == PercentBytes(source, i, len).value
      {
        var b := PercentByte(source, i + 3 * len);
        nameBuffer[name + len] := if b.None? then '\0' else b.value;
        ok := ok && b.Some?;
        len := len + 1;
      }
      ok := ok && Decode(nameBuffer[name..name + len], 0).Some?;
    }

    /** "~0" and "~1", once the tilde has been read. */
    method ReadTilde(source: string, i: nat, c: char) returns (ok: bool, next: nat, out: char)
      requires i <= |source|
      ensures ok <==> Tilde(source, i, c).Some?
      ensures ok ==> Tilde(source, i, c) == Some(Escaped(next, [out]))
    {
      ok, next, out := true, i, c;
      if c == '~' {
        if i < |source| {
          if source[i] == '0' {
            out := '~';
          } else if source[i] == '1' {
            out := '/';
          } else {
            return false, i, c;
          }
          next := i + 1;
        } else {
          return false, i, c;
        }
      }
    }

    /** What stands at i; several bytes are put at `name`, a single one is returned in c. */
    method TakeUnits(source: string, i: nat, uri: bool, name: nat) returns (ok: bool, next: nat, len: nat, c: char)
      requires i < |source| == nameBuffer.Length && name + (if uri then 2 else 1) <= i
      modifies nameBuffer
      ensures nameBuffer[..name] == old(nameBuffer[..name])
      ensures ok <==> NextUnits(source, i, uri).Some?
      ensures ok ==> next == NextUnits(source, i, uri).value.end && len == |NextUnits(source, i, uri).value.units|
      ensures ok && len == 1 ==> NextUnits(source, i, uri).value.units == [c]
      ensures ok ==> len <= next - i && name + len <= nameBuffer.Length
      ensures ok && len > 1 ==> nameBuffer[name..name + len] == NextUnits(source, i, uri).value.units
      ensures ok && len > 1 ==> uri && source[i] == '%'
    {
      hide PercentSequence;
      ok, next, len, c := true, i + 1, 1, source[i];
      if uri {
        if c == '%' {
          ok, len := ValidatePercent(source, i, name);
          next := i + 3 * len;
          c := nameBuffer[name];
          assert ok ==> nameBuffer[name..name + len][0] == c;
        } else if NeedsPercent(c) {
          ok := false;
        }
      }
    }

    /** The inner loop of Parse: from behind a slash to the next one or the end; `name` starts the token's name. */
    method ParseName(source: string, i0: nat, uri: bool, start: nat)
      returns (ok: bool, i: nat, name: nat, isNumber: bool)
      requires i0 <= |source| == nameBuffer.Length && start + (if uri then 2 else 1) <= i0
      modifies nameBuffer
      ensures nameBuffer[..start] == old(nameBuffer[..start])
      ensures ok <==> NameFrom(source, i0, uri, "").Some?
      ensures ok ==> start <= name < i <= |source|
      ensures ok ==> NameFrom(source, i0, uri, "") == Some(Named(i, nameBuffer[start..name]))
      ensures ok ==> (isNumber <==> AllDigits(nameBuffer[start..name])) && name + (if uri then 2 else 1) <= i
    {
      hide NextUnits, AllDigits, Tilde;
      ok, i, name, isNumber := true, i0, start, true;
      ghost var before := nameBuffer[..start];
      assert nameBuffer[start..name] == "";
      NoDigits();
      while i < |source| && source[i] != '/'
        invariant start <= name && name + (if uri then 2 else 1) <= i <= |source| && nameBuffer[..start] == before
        invariant NameFrom(source, i, uri, nameBuffer[start..name]) == NameFrom(source, i0, uri, "")
        invariant isNumber <==> AllDigits(nameBuffer[start..name])
        decreases |source| - i
      {
        ghost var acc, at := nameBuffer[start..name], i;
        var taken, behind, len, c := TakeUnits(source, i, uri, name);
        assert nameBuffer[start..name] == acc;
        if !taken { return false, i, name, isNumber; }
        if len > 1 {
          assert nameBuffer[start..name + len] == acc + nameBuffer[name..name + len];
          NotDigits(source, at, acc);
          i, name, isNumber := behind, name + len, false;
          continue;
        }
        var unescaped, next, out := ReadTilde(source, behind, c);
        if !unescaped { return false, i, name, isNumber; }
        i, c := next, out;
        if c < '0' || c > '9' { isNumber := false; }
        nameBuffer[name] := c;
        name := name + 1;
        assert nameBuffer[start..name] == acc + [c];
        OneMore(acc, c);
      }
    }

    /** Whether the name is an index, and which. */
    method IndexFor(start: nat, length: nat, digits: bool) returns (index: nat)
      requires start + length <= nameBuffer.Length && (digits <==> AllDigits(nameBuffer[start..start + length]))
      ensures index == IndexOf(nameBuffer[start..start + length])
    {
      ghost var name := nameBuffer[start..start + length];
      var isNumber := digits;
      if length == 0 { isNumber := false; }
      if isNumber && length > 1 && nameBuffer[start] == '0' { isNumber := false; }
      assert length > 0 ==> name[0] == nameBuffer[start];
      assert isNumber == IsNumber(name);
      var n := 0;
      var j := 0;
      while isNumber && j < length
        invariant j <= length && n < SIZE
        invariant isNumber ==> IsNumber(name) && Convert(name, j) == Some(n)
        invariant IsNumber(name) && !isNumber ==> Convert(name, length).None?
        decreases length - j, isNumber
      {
        assert name[j] == nameBuffer[start + j];
        var m := (n * 10 + DigitValue(nameBuffer[start + j])) % SIZE;
        if m < n {
          isNumber := false;
          ConvertStops(name, j + 1);
        } else {
          n := m;
          j := j + 1;
        }
      }
      index := if isNumber then n else INVALID_INDEX;
    }

    /** One round of Parse: the token of the slash at i goes to slot `token`, its name to the buffer at `start`. */
    method ParseToken(source: string, i: nat, uri: bool, token: nat, start: nat)
      returns (ok: bool, next: nat, name: nat)
      requires i < |source| == nameBuffer.Length && start + (if uri then 1 else 0) <= i && token < tokens.Length
      requires SlotsOk(token, start)
      modifies nameBuffer, tokens
      ensures ok <==> NameFrom(source, i + 1, uri, "").Some?
      ensures ok ==> i < next <= |source| && start < name && name + (if uri then 1 else 0) <= next
      ensures ok ==> SlotsOk(token + 1, name)
      ensures ok ==> forall k: nat :: k < token ==> tokens[k] == old(tokens[k]) && TokenAt(k) == old(TokenAt(k))
      ensures ok ==> NameFrom(source, i + 1, uri, "") == Some(Named(next, TokenAt(token).name))
      ensures ok ==> TokenAt(token).index == IndexOf(TokenAt(token).name)
    {
      hide NameFrom, IndexOf, AllDigits;
      ghost var before, was, slots := nameBuffer[..start], nameBuffer[..], tokens[..];
      var isNumber;
      ok, next, name, isNumber := ParseName(source, i + 1, uri, start);
      if !ok { return; }
      var length := name - start;
      ghost var text := nameBuffer[start..name];
      var index := IndexFor(start, length, isNumber);
      nameBuffer[name] := '\0';
      name := name + 1;
      tokens[token] := Slot(start, length, index);
      assert nameBuffer[start..start + length] == text;
      assert nameBuffer[..][start..start + length] == text;
      assert nameBuffer[..start] == before && nameBuffer[..][..start] == before == was[..start];
      OldTokens(was, nameBuffer[..], slots, token, start);
    }

    /** The outer loop of Parse. */
    method ParseTokens(source: string, i0: nat, uri: bool)
      requires (if uri then 1 else 0) <= i0 <= |source| == nameBuffer.Length && (i0 < |source| ==> source[i0] == '/')
      requires tokens.Length == Slashes(source) && tokenCount == 0 && !failed
      modifies nameBuffer, tokens, this`tokenCount, this`failed
      ensures failed <==> TokensFrom(source, i0, uri).None?
      ensures !failed ==> Holds(TokensFrom(source, i0, uri).value)
    {
      hide TokensFrom, IndexOf, NameFrom, Slashes, Prepend, TokenIn;
      var i, name := i0, 0;
      ghost var done := [];
      PrependNone(TokensFrom(source, i0, uri));
      while i < |source|
        invariant name as int + (if uri then 1 else 0) <= i <= |source| && (i < |source| ==> source[i] == '/')
                  && !failed
        invariant name >= 0 && tokenCount <= Slashes(source[..i]) && SlotsOk(tokenCount, name) && Holds(done)
        invariant TokensFrom(source, i0, uri) == Prepend(done, TokensFrom(source, i, uri))
        decreases |source| - i
      {
        SlashHere(source, i);
        ghost var at := i;
        var ok;
        ok, i, name := ParseToken(source, i, uri, tokenCount, name);
        TokensStep(source, at, uri, done);
        if !ok {
          failed := true;
          PrependFails(done, TokensFrom(source, at, uri));
          return;
        }
        assert SlotsHold(done) by {
          assert forall k: nat :: k < |done| ==> done[k] == TokenAt(k);
        }
        OneMoreSlot(done);
        done := done + [TokenAt(tokenCount)];
        tokenCount := tokenCount + 1;
        SlashesBetween(source, at + 1, i);
      }
      TokensEnd(source, uri);
      PrependEmpty(done);
    }

    /** Parse.  The token array has one slot for each slash, the name buffer one character for each of the source. */
    method Parse(source: string)
      modifies this
      ensures failed <==> ParsePointer(source).None?
      ensures !failed ==> nameBuffer.Length == |source| && tokens.Length == Slashes(source)
      ensures !failed ==> Holds(ParsePointer(source).value)
    {
      hide TokensFrom, IndexOf, NameFrom;
      failed, tokenCount := false, 0;
      var slashes := CountSlashes(source);
      tokens := new Slot[slashes];
      nameBuffer := new char[|source|];
      var uri := Peek(source, 0) == '#';
      var i := if uri then 1 else 0;
      if i != |source| && source[i] != '/' {
        failed := true;
        return;
      }
      ParseTokens(source, i, uri);
    }

    /** The inner loop of Stringify, over the name in slot k. */
    method WriteName(k: nat, uri: bool) returns (ok: bool, os: string)
      requires SlotsOk(k + 1, nameBuffer.Length) && Bytes(TokenAt(k).name)
      ensures ok <==> NameText(TokenAt(k).name, 0, uri).Some?
      ensures ok ==> os == NameText(TokenAt(k).name, 0, uri).value
    {
      hide NeedsPercent, Percent, Decode;
      var name := nameBuffer[tokens[k].start..tokens[k].start + tokens[k].length];
      ok, os := true, "";
      var j := 0;
      while j < |name|
        invariant j <= |name|
        invariant NameText(name, 0, uri).Some? <==> NameText(name, j, uri).Some?
        invariant NameText(name, 0, uri).Some? ==> NameText(name, 0, uri).value == os + NameText(name, j, uri).value
      {
        var c := name[j];
        var text;
        var next := j + 1;
        if c == '~' {
          text := "~0";
        } else if c == '/' {
          text := "~1";
        } else if uri && NeedsPercent(c) {
          var d := Decode(name, j);
          if d.None? { return false, os; }
          next := j + d.value.length;
          text := Percent(name[j..next]);
        } else {
          text := [c];
        }
        if NameText(name, 0, uri).Some? { Regroup(os, text, NameText(name, next, uri).value); }
        os := os + text;
        j := next;
      }
    }

    method Stringify(uri: bool, ghost ts: seq<Token>) returns (ok: bool, os: string)
      requires Holds(ts) && AllBytes(ts)
      ensures ok <==> PointerText(ts, uri).Some?
      ensures ok ==> os == PointerText(ts, uri).value
    {
      hide NameText;
      ok, os := true, if uri then "#" else "";
      var k := 0;
      assert ts[0..] == ts;
      while k < tokenCount
        invariant k <= tokenCount && AllBytes(ts[k..])
        invariant PointerText(ts, uri).Some? <==> TokensText(ts[k..], uri).Some?
        invariant PointerText(ts, uri).Some? ==> PointerText(ts, uri).value == os + TokensText(ts[k..], uri).value
      {
        assert ts[k..][0] == ts[k] && ts[k..][1..] == ts[k + 1..] && TokenAt(k) == ts[k];
        var written, name := WriteName(k, uri);
        if !written { return false, os; }
        if PointerText(ts, uri).Some? {
          Regroup(os, "/" + name, TokensText(ts[k + 1..], uri).value);
          Regroup(os, "/", name);
        }
        os := os + "/" + name;
        k := k + 1;
      }
    }

    /** The tokens in the first slots. */
    ghost predicate Holds(ts: seq<Token>)
      reads this, nameBuffer, tokens
    {
      |ts| == tokenCount && SlotsHold(ts)
    }

    ghost predicate SlotsHold(ts: seq<Token>)
      reads this, nameBuffer, tokens
    {
      SlotsOk(|ts|, nameBuffer.Length) && forall k: nat :: k < |ts| ==> ts[k] == TokenAt(k)
    }

    lemma OneMoreSlot(ts: seq<Token>)
      requires SlotsHold(ts) && SlotsOk(|ts| + 1, nameBuffer.Length)
      ensures SlotsHold(ts + [TokenAt(|ts|)])
    {
    }
  }
}
