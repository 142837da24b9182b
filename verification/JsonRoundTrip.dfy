/** Reading what the writers wrote: the same events, integers by value. */
module JsonRoundTrip {
  import opened JsonGrammar
  import opened JsonValue
  import opened JsonText
  import JsonMachine
  import opened Wrappers

  // ---------------------------------------------------------------- a string in the text

  lemma AtSplit(t: string, p: nat, a: string, b: string)
    ensures At(t, p, a + b) <==> At(t, p, a) && At(t, p + |a|, b)
  {
    if At(t, p, a + b) {
      assert t[p..p + |a|] == t[p..p + |a + b|][..|a|] == a;
      assert t[p + |a|..p + |a| + |b|] == t[p..p + |a + b|][|a|..] == b;
    }
    if At(t, p, a) && At(t, p + |a|, b) {
      assert t[p..p + |a + b|] == t[p..p + |a|] + t[p + |a|..p + |a| + |b|];
    }
  }

  lemma AtPeek(t: string, p: nat, s: string, k: nat)
    requires At(t, p, s) && k < |s|
    ensures Peek(t, p + k) == s[k]
  {
    assert t[p..p + |s|][k] == t[p + k];
  }

  lemma AtTail(t: string, p: nat, s: string)
    requires At(t, p, s) && s != ""
    ensures Peek(t, p) == s[0] && At(t, p + 1, s[1..])
  {
    assert s == [s[0]] + s[1..];
    AtSplit(t, p, [s[0]], s[1..]);
    AtPeek(t, p, s, 0);
  }

  // ---------------------------------------------------------------- white space

  predicate White(s: string) { forall c :: c in s ==> IsSpace(c) }

  lemma {:induction false} SpaceEndAt(t: string, p: nat, w: string)
    requires At(t, p, w) && White(w) && !IsSpace(Peek(t, p + |w|))
    ensures SpaceEnd(t, p) == p + |w|
    decreases |w|
  {
    if w != "" {
      AtTail(t, p, w);
      SpaceEndAt(t, p + 1, w[1..]);
    }
  }

  lemma SkipsWhite(inp: Input, c: Cursor, w: string)
    requires At(inp.text, c.pos, w) && White(w)
    requires var next := Peek(inp.text, c.pos + |w|); !IsSpace(next) && next != '/'
    ensures Skip(inp, c) == Good(c.(pos := c.pos + |w|))
  {
    SpaceEndAt(inp.text, c.pos, w);
  }

  lemma SeparatorsAreWhite(style: Style, inArray: bool, first: bool, empty: bool, depth: nat)
    requires ValidStyle(style)
    ensures White(Space(style, inArray, first, depth)) && White(Closing(style, inArray, empty, depth))
    ensures Colon(style)[0] == ':' && White(Colon(style)[1..])
  {
  }

  // ---------------------------------------------------------------- strings

  /** The hexadecimal escape of a control character stands for it. */
  lemma ReadsHex(t: string, p: nat, c: char)
    requires c < ' ' && At(t, p, ['0', '0', HexUpper(c as int / 16 % 16), HexUpper(c as int % 16)])
    ensures UnicodeEscape(t, p) == Some(Escaped(p + 4, [c]))
  {
    var hex := ['0', '0', HexUpper(c as int / 16 % 16), HexUpper(c as int % 16)];
    AtPeek(t, p, hex, 0);
    AtPeek(t, p, hex, 1);
    AtPeek(t, p, hex, 2);
    AtPeek(t, p, hex, 3);
    assert Hex(t, p, 1) == Some(0) && Hex(t, p, 2) == Some(0);
    assert Hex(t, p, 3) == Some(c as int / 16);
    assert Hex(t, p, 4) == Some(c as int);
  }

  lemma ReadsUnit(flags: Flags, t: string, p: nat, acc: string, c: char)
    requires At(t, p, EscapeUnit(c))
    ensures StringFrom(flags, t, p, acc) == StringFrom(flags, t, p + |EscapeUnit(c)|, acc + [c])
  {
    AtPeek(t, p, EscapeUnit(c), 0);
    if EscapeLetter(c) != '\0' {
      AtPeek(t, p, EscapeUnit(c), 1);
      if EscapeLetter(c) == 'u' {
        AtTail(t, p, EscapeUnit(c));
        AtTail(t, p + 1, EscapeUnit(c)[1..]);
        assert EscapeUnit(c)[1..][1..] == ['0', '0', HexUpper(c as int / 16 % 16), HexUpper(c as int % 16)];
        ReadsHex(t, p + 2, c);
      }
    }
  }

  lemma ReadsQuote(flags: Flags, t: string, p: nat, acc: string)
    requires At(t, p, "\"")
    ensures StringFrom(flags, t, p, acc) == Some(Escaped(p + 1, acc))
  {
    AtPeek(t, p, "\"", 0);
  }

  /** Every string, escaped and quoted, is read back. */
  lemma {:induction false} ReadsString(flags: Flags, t: string, p: nat, acc: string, s: string)
    requires At(t, p, EscapeUnits(s) + "\"")
    ensures StringFrom(flags, t, p, acc) == Some(Escaped(p + |EscapeUnits(s)| + 1, acc + s))
    decreases |s|
  {
    hide StringFrom, EscapeUnit, At;
    if s == "" {
      assert EscapeUnits(s) + "\"" == "\"" && acc + s == acc;
      ReadsQuote(flags, t, p, acc);
    } else {
      var head, tail := EscapeUnit(s[0]), EscapeUnits(s[1..]);
      EscapeNext(s, 0);
      assert s[0..] == s;
      hide EscapeUnits;
      Regroup(head, tail, "\"");
      Regroup(acc, [s[0]], s[1..]);
      assert [s[0]] + s[1..] == s;
      AtSplit(t, p, head, tail + "\"");
      ReadsUnit(flags, t, p, acc, s[0]);
      ReadsString(flags, t, p + |head|, acc + [s[0]], s[1..]);
    }
  }

  // ---------------------------------------------------------------- numbers

  /** No number goes on with this character. */
  predicate Ends(c: char) { !IsDigit(c) && c != '.' && c != 'e' && c != 'E' }

  lemma {:induction false} ReadsDigits(t: string, p: nat, n: nat)
    requires At(t, p, Digits(n))
    ensures forall k :: p <= k < p + |Digits(n)| ==> IsDigit(t[k])
    ensures Decimal(t, p, p + |Digits(n)|) == n
    ensures t[p] == '0' ==> n == 0
    decreases n
  {
    AtPeek(t, p, Digits(n), 0);
    if n < 10 {
      assert Decimal(t, p, p) == 0;
    } else {
      AtSplit(t, p, Digits(n / 10), [DigitChar(n % 10)]);
      ReadsDigits(t, p, n / 10);
      AtPeek(t, p + |Digits(n / 10)|, [DigitChar(n % 10)], 0);
    }
  }

  lemma {:induction false} DigitsEndIs(t: string, p: nat, q: nat)
    requires p <= q <= |t| && (forall k :: p <= k < q ==> IsDigit(t[k])) && !IsDigit(Peek(t, q))
    ensures DigitsEnd(t, p) == q
    decreases q - p
  {
    if p < q { DigitsEndIs(t, p + 1, q); }
  }

  /** An integer as the reader reports it. */
  function ReadBack(e: Event): Event {
    if !IsInteger(e) then e else
    var v := IntegerValue(e);
    var r := if v < 0 then IntegerEvent(true, -v) else IntegerEvent(false, v);
    if r.Some? then r.value else e
  }

  lemma ReadsNumber(inp: Input, c: Cursor, value: int)
    requires Fits(JNumber(value), false) && At(inp.text, c.pos, Numeral(value))
             && Ends(Peek(inp.text, c.pos + |Numeral(value)|))
    ensures ParseScalar(inp, c) == Emit(inp, c.(pos := c.pos + |Numeral(value)|), ReadBack(NumberEvent(value)))
  {
    hide Decimal, DigitsEnd, Digits;
    var t, n: nat := inp.text, if value < 0 then -value else value;
    var start := if value < 0 then c.pos + 1 else c.pos;
    if value < 0 {
      AtSplit(t, c.pos, "-", Digits(n));
      AtPeek(t, c.pos, "-", 0);
    }
    assert At(t, start, Digits(n));
    AtPeek(t, start, Digits(n), 0);
    ReadsDigits(t, start, n);
    var end := start + |Digits(n)|;
    DigitsEndIs(t, start, end);
    if t[start] == '0' { ZeroIsShort(); }
    assert IntegerEnd(t, start) == Some(end);
  }

  lemma ZeroIsShort()
    ensures |Digits(0)| == 1
  {
  }

  // ---------------------------------------------------------------- values

  function ReadAll(es: seq<Event>): seq<Event> { seq(|es|, i requires 0 <= i < |es| => ReadBack(es[i])) }

  lemma ReadAppend(es: seq<Event>, fs: seq<Event>)
    ensures ReadAll(es + fs) == ReadAll(es) + ReadAll(fs)
  {
  }

  ghost predicate AcceptsAll(inp: Input) { forall es :: inp.handler(es) }

  /** Behind the text s at c, with the events es read. */
  function Behind(c: Cursor, s: string, es: seq<Event>): Cursor { Cursor(c.pos + |s|, c.events + ReadAll(es)) }

  lemma ReadsLiteral(inp: Input, c: Cursor, word: string, e: Event)
    requires AcceptsAll(inp) && At(inp.text, c.pos, word) && word != "" && !IsInteger(e)
    ensures ParseLiteral(inp, c, word, e) == Good(Behind(c, word, [e]))
  {
    ReadOne(e);
  }

  lemma ReadOne(e: Event)
    requires !IsInteger(e)
    ensures ReadAll([e]) == [e]
  {
  }

  lemma ReadsQuoted(inp: Input, c: Cursor, s: string, isKey: bool)
    requires AcceptsAll(inp) && At(inp.text, c.pos, Quoted(s))
    ensures Peek(inp.text, c.pos) == '\"'
    ensures ParseString(inp, c, isKey) == Good(Behind(c, Quoted(s), [if isKey then Key(s) else String(s)]))
  {
    hide StringFrom, EscapeUnits, Quoted, At, ReadAll;
    ReadOne(if isKey then Key(s) else String(s));
    QuotedSplits(inp.text, c.pos, s);
    ReadsString(inp.flags, inp.text, c.pos + 1, "", s);
    assert "" + s == s;
  }

  lemma QuotedSplits(t: string, p: nat, s: string)
    requires At(t, p, Quoted(s))
    ensures Peek(t, p) == '\"' && At(t, p + 1, EscapeUnits(s) + "\"")
    ensures |Quoted(s)| == |EscapeUnits(s)| + 2
  {
    hide EscapeUnits;
    Regroup("\"", EscapeUnits(s), "\"");
    AtSplit(t, p, "\"", EscapeUnits(s) + "\"");
    AtPeek(t, p, "\"", 0);
  }

  lemma ReadsScalar(inp: Input, c: Cursor, style: Style, v: Json, depth: nat)
    requires AcceptsAll(inp) && Fits(v, false) && !v.JObject? && !v.JArray?
    requires var s := Text(style, v, depth); At(inp.text, c.pos, s) && Ends(Peek(inp.text, c.pos + |s|))
    ensures ParseValue(inp, c) == Good(Behind(c, Text(style, v, depth), Events(v)))
  {
    hide Quoted, Numeral, ParseNumber, ParseString, ParseLiteral;
    match v
    case JNull =>
      AtPeek(inp.text, c.pos, "null", 0);
      ReadsLiteral(inp, c, "null", Null);
    case JBool(b) =>
      AtPeek(inp.text, c.pos, if b then "true" else "false", 0);
      ReadsLiteral(inp, c, if b then "true" else "false", Bool(b));
    case JString(str) => ReadsQuoted(inp, c, str, false);
    case JNumber(value) =>
      NumeralStart(inp.text, c.pos, value);
      ReadsNumber(inp, c, value);
      assert ReadAll([NumberEvent(value)]) == [ReadBack(NumberEvent(value))];
  }

  lemma NumeralStart(t: string, p: nat, value: int)
    requires At(t, p, Numeral(value))
    ensures Peek(t, p) == '-' || IsDigit(Peek(t, p))
  {
    AtPeek(t, p, Numeral(value), 0);
    if value >= 0 { ReadsDigits(t, p, value); }
  }

  /** The first character of a value's text. */
  predicate Starts(c: char) {
    c == '-' || IsDigit(c) || c == '\"' || c == 'n' || c == 't' || c == 'f' || c == '{' || c == '['
  }

  lemma TextStarts(style: Style, v: Json, depth: nat)
    requires Fits(v, false)
    ensures Text(style, v, depth) != "" && Starts(Text(style, v, depth)[0])
  {
    if v.JNumber? && v.value >= 0 { DigitsStart(v.value); }
  }

  lemma {:induction false} DigitsStart(n: nat)
    ensures IsDigit(Digits(n)[0])
    decreases n
  {
    if n >= 10 { DigitsStart(n / 10); }
  }

  lemma BehindTwice(c: Cursor, a: string, es: seq<Event>, b: string, fs: seq<Event>)
    ensures Behind(Behind(c, a, es), b, fs) == Behind(c, a + b, es + fs)
  {
    ReadAppend(es, fs);
    assert c.events + ReadAll(es) + ReadAll(fs) == c.events + (ReadAll(es) + ReadAll(fs));
  }

  /** An end-of-container event reads back as itself. */
  lemma Sends(inp: Input, c: Cursor, s: string, e: Event)
    requires AcceptsAll(inp) && !IsInteger(e)
    ensures Emit(inp, c.(pos := c.pos + |s|), e) == Good(Behind(c, s, [e]))
  {
    assert ReadAll([e]) == [e];
  }

  /** A name and its colon. */
  lemma ReadsName(inp: Input, c: Cursor, style: Style, name: string, count: nat)
    requires AcceptsAll(inp) && ValidStyle(style)
    requires var s := Quoted(name) + Colon(style); At(inp.text, c.pos, s) && Starts(Peek(inp.text, c.pos + |s|))
    ensures MemberFrom(inp, c, count) == AfterColon(inp, Behind(c, Quoted(name) + Colon(style), [Key(name)]), count)
  {
    hide Quoted, ParseString, AfterName, AfterColon, Skip, Colon;
    var t, colon := inp.text, Colon(style);
    AtSplit(t, c.pos, Quoted(name), colon);
    ReadsQuoted(inp, c, name, true);
    var c1 := Behind(c, Quoted(name), [Key(name)]);
    ReadsColon(inp, c1, style, count);
    BehindTwice(c, Quoted(name), [Key(name)], colon, []);
    assert [Key(name)] + [] == [Key(name)];
  }

  /** The colon behind a name, with its white space. */
  lemma ReadsColon(inp: Input, c: Cursor, style: Style, count: nat)
    requires ValidStyle(style) && At(inp.text, c.pos, Colon(style)) && Starts(Peek(inp.text, c.pos + |Colon(style)|))
    ensures Skip(inp, c) == Good(c) && Within(inp, c)
    ensures AfterName(inp, c, count) == AfterColon(inp, Behind(c, Colon(style), []), count)
  {
    hide AfterColon, Skip;
    var colon := Colon(style);
    AtTail(inp.text, c.pos, colon);
    SkipsWhite(inp, c, "");
    SeparatorsAreWhite(style, false, false, false, 0);
    SkipsWhite(inp, Take(c), colon[1..]);
    assert c.events + ReadAll([]) == c.events;
  }

  /** What follows a member value: the other members, white space, the brace. */
  function MembersTail(style: Style, ms: Members, depth: nat, w: string): string {
    MembersText(style, ms, false, depth) + (w + "}")
  }

  /** A member and what follows it. */
  function FromName(style: Style, ms: Members, depth: nat, w: string): string
    requires ms.Member?
  {
    Quoted(ms.name) + Colon(style) + (Text(style, ms.value, depth) + MembersTail(style, ms.more, depth, w))
  }

  function ElementsTail(style: Style, es: Elements, depth: nat, w: string): string {
    ElementsText(style, es, false, depth) + (w + "]")
  }

  /** It starts with a character that ends a number. */
  lemma TailEnds(t: string, p: nat, tail: string, more: string, w: string, close: string)
    requires At(t, p, tail) && tail == more + (w + close) && (more == "" || more[0] == ',') && White(w)
    requires close == "}" || close == "]"
    ensures Ends(Peek(t, p))
  {
    AtPeek(t, p, tail, 0);
    if more == "" {
      assert tail == w + close;
      if w != "" { assert w[0] in w; }
    }
  }

  /** From the first name of a nonempty object to behind its brace. */
  lemma {:induction false} ReadsMembers(inp: Input, c: Cursor, style: Style, ms: Members, depth: nat, count: nat,
                                        w: string)
    requires AcceptsAll(inp) && ValidStyle(style) && ms.Member? && FitsMembers(ms, false) && White(w)
    requires count + MemberCount(ms) < SIZE_LIMIT
    requires At(inp.text, c.pos, FromName(style, ms, depth, w))
    ensures MemberFrom(inp, c, count) ==
            Good(Behind(c, FromName(style, ms, depth, w), MemberEvents(ms) + [EndObject(count + MemberCount(ms))]))
    decreases ms, 0
  {
    hide Quoted, Colon, Text, MembersText, MemberFrom, ParseValue, Skip, AfterMember, MemberEvents, Events, At,
         ReadAll, Behind;
    var t, name, text := inp.text, Quoted(ms.name) + Colon(style), Text(style, ms.value, depth);
    var tail := MembersTail(style, ms.more, depth, w);
    AtSplit(t, c.pos, name, text + tail);
    AtSplit(t, c.pos + |name|, text, tail);
    TextStarts(style, ms.value, depth);
    AtPeek(t, c.pos + |name|, text, 0);
    ReadsName(inp, c, style, ms.name, count);
    var c1 := Behind(c, name, [Key(ms.name)]);
    BehindPos(c, name, [Key(ms.name)]);
    MembersTextStarts(style, ms.more, depth);
    TailEnds(t, c1.pos + |text|, tail, MembersText(style, ms.more, false, depth), w, "}");
    ReadsValue(inp, c1, style, ms.value, depth);
    var c2 := Behind(c1, text, Events(ms.value));
    BehindPos(c1, text, Events(ms.value));
    ReadsMoreMembers(inp, c2, style, ms.more, depth, count, w);
    MembersCompose(c, ms, name, text, tail, EndObject(count + MemberCount(ms)));
  }

  lemma BehindPos(c: Cursor, s: string, es: seq<Event>)
    ensures Behind(c, s, es).pos == c.pos + |s|
  {
  }

  lemma MembersTextStarts(style: Style, ms: Members, depth: nat)
    ensures ms.Member? ==> MembersText(style, ms, false, depth) != ""
    ensures var s := MembersText(style, ms, false, depth); s == "" || s[0] == ','
  {
  }

  lemma MembersCompose(c: Cursor, ms: Members, name: string, text: string, tail: string, end: Event)
    requires ms.Member?
    ensures Behind(Behind(Behind(c, name, [Key(ms.name)]), text, Events(ms.value)), tail,
                   MemberEvents(ms.more) + [end]) ==
            Behind(c, name + (text + tail), MemberEvents(ms) + [end])
  {
    var key, value, more := [Key(ms.name)], Events(ms.value), MemberEvents(ms.more);
    BehindTwice(Behind(c, name, key), text, value, tail, more + [end]);
    BehindTwice(c, name, key, text + tail, value + (more + [end]));
    assert key + (value + (more + [end])) == MemberEvents(ms) + [end];
  }

  /** Behind a value: the bracket that closes the container, after white space. */
  lemma ReadsClose(inp: Input, c: Cursor, w: string, close: string, e: Event)
    requires AcceptsAll(inp) && White(w) && At(inp.text, c.pos, w + close) && !IsInteger(e)
    requires close == "}" || close == "]"
    ensures Skip(inp, c) == Good(c.(pos := c.pos + |w|)) && Peek(inp.text, c.pos + |w|) == close[0]
    ensures Emit(inp, Take(c.(pos := c.pos + |w|)), e) == Good(Behind(c, w + close, [e]))
  {
    AtSplit(inp.text, c.pos, w, close);
    AtPeek(inp.text, c.pos + |w|, close, 0);
    SkipsWhite(inp, c, w);
    Sends(inp, c, w + close, e);
  }

  /** Behind a value: the comma and the white space in front of the next item. */
  lemma ReadsComma(inp: Input, c: Cursor, style: Style, inArray: bool, depth: nat)
    requires ValidStyle(style)
    requires var lead := Lead(style, inArray, false, depth);
             At(inp.text, c.pos, lead) && Starts(Peek(inp.text, c.pos + |lead|))
    ensures Skip(inp, c) == Good(c) && Peek(inp.text, c.pos) == ','
    ensures Skip(inp, Take(c)) == Good(c.(pos := c.pos + |Lead(style, inArray, false, depth)|))
  {
    SeparatorsAreWhite(style, inArray, false, false, depth);
    var w := Space(style, inArray, false, depth);
    AtSplit(inp.text, c.pos, ",", w);
    AtPeek(inp.text, c.pos, ",", 0);
    assert At(inp.text, c.pos, "");
    SkipsWhite(inp, c, "");
    SkipsWhite(inp, Take(c), w);
  }

  /** From behind a member value to behind the brace. */
  lemma {:induction false} ReadsMoreMembers(inp: Input, c: Cursor, style: Style, ms: Members, depth: nat, count: nat,
                                            w: string)
    requires AcceptsAll(inp) && ValidStyle(style) && FitsMembers(ms, false) && White(w)
    requires count + 1 + MemberCount(ms) < SIZE_LIMIT && At(inp.text, c.pos, MembersTail(style, ms, depth, w))
    ensures Skip(inp, c).Good?
    ensures AfterMember(inp, Skip(inp, c).at, count) ==
            Good(Behind(c, MembersTail(style, ms, depth, w),
                        MemberEvents(ms) + [EndObject(count + 1 + MemberCount(ms))]))
    decreases ms, 2
  {
    if ms.NoMembers? {
      EndsMembers(inp, c, style, ms, depth, count, w);
    } else {
      ReadsNextMember(inp, c, style, ms, depth, count, w);
    }
  }

  lemma {:induction false} ReadsNextMember(inp: Input, c: Cursor, style: Style, ms: Members, depth: nat, count: nat,
                                           w: string)
    requires AcceptsAll(inp) && ValidStyle(style) && FitsMembers(ms, false) && White(w) && ms.Member?
    requires count + 1 + MemberCount(ms) < SIZE_LIMIT && At(inp.text, c.pos, MembersTail(style, ms, depth, w))
    ensures Skip(inp, c).Good?
    ensures AfterMember(inp, Skip(inp, c).at, count) ==
            Good(Behind(c, MembersTail(style, ms, depth, w),
                        MemberEvents(ms) + [EndObject(count + 1 + MemberCount(ms))]))
    decreases ms, 1
  {
    hide Skip, AfterMember, Text, At, Behind, Lead, MemberEvents, MembersTail, FromName;
    TailSplits(inp.text, c.pos, style, ms, depth, w);
    var lead, rest := Lead(style, false, false, depth), FromName(style, ms, depth, w);
    ReadsComma(inp, c, style, false, depth);
    var c1 := c.(pos := c.pos + |lead|);
    NextMember(inp, c, c1, count);
    ReadsMembers(inp, c1, style, ms, depth, count + 1, w);
    BehindLead(c, lead, rest, MemberEvents(ms) + [EndObject(count + 1 + MemberCount(ms))]);
  }

  lemma TailSplits(t: string, p: nat, style: Style, ms: Members, depth: nat, w: string)
    requires ms.Member? && At(t, p, MembersTail(style, ms, depth, w))
    ensures var lead := Lead(style, false, false, depth);
            At(t, p, lead) && At(t, p + |lead|, FromName(style, ms, depth, w)) && Peek(t, p + |lead|) == '\"'
            && MembersTail(style, ms, depth, w) == lead + FromName(style, ms, depth, w)
  {
    hide At, Lead;
    MembersTailLeads(style, ms, depth, w);
    AtSplit(t, p, Lead(style, false, false, depth), FromName(style, ms, depth, w));
    NameStarts(t, p + |Lead(style, false, false, depth)|, style, ms, depth, w);
  }

  lemma EndsMembers(inp: Input, c: Cursor, style: Style, ms: Members, depth: nat, count: nat, w: string)
    requires AcceptsAll(inp) && White(w) && ms.NoMembers?
    requires count + 1 < SIZE_LIMIT && At(inp.text, c.pos, MembersTail(style, ms, depth, w))
    ensures Skip(inp, c).Good?
    ensures AfterMember(inp, Skip(inp, c).at, count) ==
            Good(Behind(c, MembersTail(style, ms, depth, w),
                        MemberEvents(ms) + [EndObject(count + 1 + MemberCount(ms))]))
  {
    hide Skip, At, Emit;
    var end := EndObject(count + 1);
    assert MembersTail(style, ms, depth, w) == w + "}" && MemberEvents(ms) + [end] == [end];
    ReadsClose(inp, c, w, "}", end);
  }

  lemma NextMember(inp: Input, c: Cursor, c1: Cursor, count: nat)
    requires Within(inp, c) && Peek(inp.text, c.pos) == ',' && Skip(inp, Take(c)) == Good(c1)
    requires Peek(inp.text, c1.pos) == '\"' && count + 1 < SIZE_LIMIT
    ensures AfterMember(inp, c, count) == MemberFrom(inp, c1, count + 1)
  {
    hide Skip, MemberFrom;
  }

  lemma MembersTailLeads(style: Style, ms: Members, depth: nat, w: string)
    requires ms.Member?
    ensures MembersTail(style, ms, depth, w) ==
            Lead(style, false, false, depth) + FromName(style, ms, depth, w)
  {
    hide Lead, Quoted, Colon, Text;
    var lead := Lead(style, false, false, depth);
    var name, text := Quoted(ms.name) + Colon(style), Text(style, ms.value, depth);
    var more := MembersText(style, ms.more, false, depth);
    assert MembersText(style, ms, false, depth) == lead + name + text + more by {
      Regroup(lead, Quoted(ms.name), Colon(style));
    }
    Regroup5(lead, name, text, more, w + "}");
    Regroup5(name, text, more, w + "}", "");
    assert name + text + more + (w + "}") == name + (text + (more + (w + "}")));
  }

  lemma NameStarts(t: string, p: nat, style: Style, ms: Members, depth: nat, w: string)
    requires ms.Member? && At(t, p, FromName(style, ms, depth, w))
    ensures Peek(t, p) == '\"'
  {
    AtPeek(t, p, FromName(style, ms, depth, w), 0);
  }

  lemma BehindLead(c: Cursor, lead: string, rest: string, es: seq<Event>)
    ensures Behind(c.(pos := c.pos + |lead|), rest, es) == Behind(c, lead + rest, es)
  {
  }

  // arrays

  /** An element and what follows it. */
  function FromElement(style: Style, es: Elements, depth: nat, w: string): string
    requires es.Element?
  {
    Text(style, es.first, depth) + ElementsTail(style, es.rest, depth, w)
  }

  /** From the first element of a nonempty array to behind its bracket. */
  lemma {:induction false} ReadsElements(inp: Input, c: Cursor, style: Style, es: Elements, depth: nat, count: nat,
                                         w: string)
    requires AcceptsAll(inp) && ValidStyle(style) && es.Element? && FitsElements(es, false) && White(w)
    requires count + ElementCount(es) < SIZE_LIMIT
    requires At(inp.text, c.pos, FromElement(style, es, depth, w))
    ensures ElementFrom(inp, c, count) ==
            Good(Behind(c, FromElement(style, es, depth, w), ElementEvents(es) + [EndArray(count + ElementCount(es))]))
    decreases es, 0
  {
    hide Text, ElementsText, ParseValue, Skip, AfterElement, Events, At, ReadAll, Behind;
    var t, text, tail := inp.text, Text(style, es.first, depth), ElementsTail(style, es.rest, depth, w);
    AtSplit(t, c.pos, text, tail);
    ElementsTextStarts(style, es.rest, depth);
    TailEnds(t, c.pos + |text|, tail, ElementsText(style, es.rest, false, depth), w, "]");
    ReadsValue(inp, c, style, es.first, depth);
    var c1 := Behind(c, text, Events(es.first));
    BehindPos(c, text, Events(es.first));
    ReadsMoreElements(inp, c1, style, es.rest, depth, count, w);
    var end := EndArray(count + ElementCount(es));
    BehindTwice(c, text, Events(es.first), tail, ElementEvents(es.rest) + [end]);
    assert Events(es.first) + (ElementEvents(es.rest) + [end]) == ElementEvents(es) + [end];
  }

  lemma ElementsTextStarts(style: Style, es: Elements, depth: nat)
    ensures var s := ElementsText(style, es, false, depth); s == "" || s[0] == ','
  {
  }

  /** From behind an element to behind the bracket. */
  lemma {:induction false} ReadsMoreElements(inp: Input, c: Cursor, style: Style, es: Elements, depth: nat,
                                             count: nat, w: string)
    requires AcceptsAll(inp) && ValidStyle(style) && FitsElements(es, false) && White(w)
    requires count + 1 + ElementCount(es) < SIZE_LIMIT && At(inp.text, c.pos, ElementsTail(style, es, depth, w))
    ensures Skip(inp, c).Good?
    ensures AfterElement(inp, Skip(inp, c).at, count) ==
            Good(Behind(c, ElementsTail(style, es, depth, w),
                        ElementEvents(es) + [EndArray(count + 1 + ElementCount(es))]))
    decreases es, 2
  {
    if es.NoElements? {
      EndsElements(inp, c, style, es, depth, count, w);
    } else {
      ReadsNextElement(inp, c, style, es, depth, count, w);
    }
  }

  lemma {:induction false} ReadsNextElement(inp: Input, c: Cursor, style: Style, es: Elements, depth: nat, count: nat,
                                            w: string)
    requires AcceptsAll(inp) && ValidStyle(style) && FitsElements(es, false) && White(w) && es.Element?
    requires count + 1 + ElementCount(es) < SIZE_LIMIT && At(inp.text, c.pos, ElementsTail(style, es, depth, w))
    ensures Skip(inp, c).Good?
    ensures AfterElement(inp, Skip(inp, c).at, count) ==
            Good(Behind(c, ElementsTail(style, es, depth, w),
                        ElementEvents(es) + [EndArray(count + 1 + ElementCount(es))]))
    decreases es, 1
  {
    hide Skip, AfterElement, Text, At, Behind, Lead, ElementEvents, ElementsTail, FromElement;
    ElementsTailSplits(inp.text, c.pos, style, es, depth, w);
    var lead, rest := Lead(style, true, false, depth), FromElement(style, es, depth, w);
    ReadsComma(inp, c, style, true, depth);
    var c1 := c.(pos := c.pos + |lead|);
    NextElement(inp, c, c1, count);
    ReadsElements(inp, c1, style, es, depth, count + 1, w);
    BehindLead(c, lead, rest, ElementEvents(es) + [EndArray(count + 1 + ElementCount(es))]);
  }

  lemma ElementsTailSplits(t: string, p: nat, style: Style, es: Elements, depth: nat, w: string)
    requires es.Element? && FitsElements(es, false) && At(t, p, ElementsTail(style, es, depth, w))
    ensures var lead := Lead(style, true, false, depth);
            At(t, p, lead) && At(t, p + |lead|, FromElement(style, es, depth, w)) && Starts(Peek(t, p + |lead|))
            && ElementsTail(style, es, depth, w) == lead + FromElement(style, es, depth, w)
  {
    hide At, Lead, Text;
    var lead, text := Lead(style, true, false, depth), Text(style, es.first, depth);
    var more := ElementsText(style, es.rest, false, depth);
    Regroup5(lead, text, more, w + "]", "");
    assert lead + text + more + (w + "]") == lead + (text + (more + (w + "]")));
    AtSplit(t, p, lead, FromElement(style, es, depth, w));
    ElementStarts(t, p + |lead|, style, es, depth, w);
  }

  lemma ElementStarts(t: string, p: nat, style: Style, es: Elements, depth: nat, w: string)
    requires es.Element? && FitsElements(es, false) && At(t, p, FromElement(style, es, depth, w))
    ensures Starts(Peek(t, p))
  {
    hide Text;
    TextStarts(style, es.first, depth);
    AtPeek(t, p, FromElement(style, es, depth, w), 0);
  }

  lemma EndsElements(inp: Input, c: Cursor, style: Style, es: Elements, depth: nat, count: nat, w: string)
    requires AcceptsAll(inp) && White(w) && es.NoElements?
    requires count + 1 < SIZE_LIMIT && At(inp.text, c.pos, ElementsTail(style, es, depth, w))
    ensures Skip(inp, c).Good?
    ensures AfterElement(inp, Skip(inp, c).at, count) ==
            Good(Behind(c, ElementsTail(style, es, depth, w),
                        ElementEvents(es) + [EndArray(count + 1 + ElementCount(es))]))
  {
    hide Skip, At, Emit;
    var end := EndArray(count + 1);
    assert ElementsTail(style, es, depth, w) == w + "]" && ElementEvents(es) + [end] == [end];
    ReadsClose(inp, c, w, "]", end);
  }

  lemma NextElement(inp: Input, c: Cursor, c1: Cursor, count: nat)
    requires Within(inp, c) && Peek(inp.text, c.pos) == ',' && Skip(inp, Take(c)) == Good(c1)
    requires Starts(Peek(inp.text, c1.pos)) && count + 1 < SIZE_LIMIT
    ensures AfterElement(inp, c, count) == ElementFrom(inp, c1, count + 1)
  {
    hide Skip, ElementFrom;
  }

  // ---------------------------------------------------------------- whole values

  /** The opening bracket of a container, up to its first item or its closing bracket. */
  lemma Opens(inp: Input, c: Cursor, w: string, inArray: bool)
    requires AcceptsAll(inp) && White(w) && At(inp.text, c.pos, (if inArray then "[" else "{") + w)
    requires var next := Peek(inp.text, c.pos + 1 + |w|); !IsSpace(next) && next != '/'
    ensures Within(inp, c)
    ensures var c1 := Behind(c, (if inArray then "[" else "{") + w, [if inArray then StartArray else StartObject]);
            Within(inp, c1) && ParseValue(inp, c) == if inArray then ArrayInitial(inp, c1) else ObjectInitial(inp, c1)
  {
    hide Skip, ArrayInitial, ObjectInitial;
    var open, e := if inArray then "[" else "{", if inArray then StartArray else StartObject;
    AtSplit(inp.text, c.pos, open, w);
    AtPeek(inp.text, c.pos, open, 0);
    Sends(inp, c, open, e);
    assert Emit(inp, Take(c), e) == Good(Behind(c, open, [e]));
    SkipsWhite(inp, Behind(c, open, [e]), w);
  }

  /** A container without items. */
  lemma ReadsEmpty(inp: Input, c: Cursor, inArray: bool)
    requires AcceptsAll(inp) && At(inp.text, c.pos, if inArray then "[]" else "{}")
    ensures Within(inp, c)
    ensures ParseValue(inp, c) == Good(if inArray then Behind(c, "[]", [StartArray] + [EndArray(0)])
                                       else Behind(c, "{}", [StartObject] + [EndObject(0)]))
  {
    hide ParseValue, MemberFrom, ElementFrom, Behind;
    var open, close := if inArray then "[" else "{", if inArray then "]" else "}";
    var start, end := if inArray then StartArray else StartObject, if inArray then EndArray(0) else EndObject(0);
    assert open + close == if inArray then "[]" else "{}";
    AtSplit(inp.text, c.pos, open, close);
    AtPeek(inp.text, c.pos + 1, close, 0);
    assert open + "" == open;
    Opens(inp, c, "", inArray);
    BehindPos(c, open, [start]);
    var c1 := Behind(c, open, [start]);
    Sends(inp, c1, close, end);
    BehindTwice(c, open, [start], close, [end]);
  }

  lemma Nest(open: string, w: string, name: string, text: string, more: string, cl: string, close: string)
    ensures open + (w + name + text + more) + cl + close == (open + w) + (name + (text + (more + (cl + close))))
  {
    Regroup(open + (w + name + text + more), cl, close);
    Regroup(open, w + name + text + more, cl + close);
    Regroup(w + name + text, more, cl + close);
    Regroup(w + name, text, more + (cl + close));
    Regroup(w, name, text + (more + (cl + close)));
    Regroup(open, w, name + (text + (more + (cl + close))));
  }

  lemma LeadFirst(style: Style, inArray: bool, depth: nat)
    ensures Lead(style, inArray, true, depth) == Space(style, inArray, true, depth)
  {
    assert "" + Space(style, inArray, true, depth) == Space(style, inArray, true, depth);
  }

  lemma ObjectText(style: Style, ms: Members, depth: nat)
    requires ms.Member?
    ensures Text(style, JObject(ms), depth) ==
            ("{" + Space(style, false, true, depth + 1))
            + FromName(style, ms, depth + 1, Closing(style, false, false, depth))
  {
    hide Space, Closing, Quoted, Colon, Lead;
    var w, cl, d := Space(style, false, true, depth + 1), Closing(style, false, false, depth), depth + 1;
    var text, more := Text(style, ms.value, d), MembersText(style, ms.more, false, d);
    LeadFirst(style, false, d);
    Regroup(w, Quoted(ms.name), Colon(style));
    Nest("{", w, Quoted(ms.name) + Colon(style), text, more, cl, "}");
  }

  lemma ArrayText(style: Style, es: Elements, depth: nat)
    requires es.Element?
    ensures Text(style, JArray(es), depth) ==
            ("[" + Space(style, true, true, depth + 1))
            + FromElement(style, es, depth + 1, Closing(style, true, false, depth))
  {
    hide Space, Closing, Lead;
    var w, cl, d := Space(style, true, true, depth + 1), Closing(style, true, false, depth), depth + 1;
    var text, more := Text(style, es.first, d), ElementsText(style, es.rest, false, d);
    LeadFirst(style, true, d);
    assert w + "" == w && "" + (text + (more + (cl + "]"))) == text + (more + (cl + "]"));
    Nest("[", w, "", text, more, cl, "]");
  }

  lemma {:induction false} ReadsObject(inp: Input, c: Cursor, style: Style, ms: Members, depth: nat)
    requires AcceptsAll(inp) && ValidStyle(style) && Fits(JObject(ms), false) && ms.Member?
    requires At(inp.text, c.pos, Text(style, JObject(ms), depth))
    ensures ParseValue(inp, c) == Good(Behind(c, Text(style, JObject(ms), depth), Events(JObject(ms))))
    decreases ms, 3
  {
    hide ParseValue, MemberFrom, Text, FromName, Behind, At, MemberEvents, Space, Closing;
    var w, cl := Space(style, false, true, depth + 1), Closing(style, false, false, depth);
    var open, rest := "{" + w, FromName(style, ms, depth + 1, cl);
    ObjectText(style, ms, depth);
    AtSplit(inp.text, c.pos, open, rest);
    NameStarts(inp.text, c.pos + |open|, style, ms, depth + 1, cl);
    SeparatorsAreWhite(style, false, true, false, depth + 1);
    SeparatorsAreWhite(style, false, true, false, depth);
    Opens(inp, c, w, false);
    BehindPos(c, open, [StartObject]);
    var c1 := Behind(c, open, [StartObject]);
    ReadsMembers(inp, c1, style, ms, depth + 1, 0, cl);
    var end := EndObject(MemberCount(ms));
    BehindTwice(c, open, [StartObject], rest, MemberEvents(ms) + [end]);
    assert [StartObject] + (MemberEvents(ms) + [end]) == Events(JObject(ms));
  }

  lemma {:induction false} ReadsArray(inp: Input, c: Cursor, style: Style, es: Elements, depth: nat)
    requires AcceptsAll(inp) && ValidStyle(style) && Fits(JArray(es), false) && es.Element?
    requires At(inp.text, c.pos, Text(style, JArray(es), depth))
    ensures ParseValue(inp, c) == Good(Behind(c, Text(style, JArray(es), depth), Events(JArray(es))))
    decreases es, 3
  {
    hide ParseValue, ElementFrom, Text, FromElement, Behind, At, ElementEvents, Space, Closing;
    var w, cl := Space(style, true, true, depth + 1), Closing(style, true, false, depth);
    var open, rest := "[" + w, FromElement(style, es, depth + 1, cl);
    ArrayText(style, es, depth);
    AtSplit(inp.text, c.pos, open, rest);
    ElementStarts(inp.text, c.pos + |open|, style, es, depth + 1, cl);
    SeparatorsAreWhite(style, true, true, false, depth + 1);
    SeparatorsAreWhite(style, true, true, false, depth);
    Opens(inp, c, w, true);
    BehindPos(c, open, [StartArray]);
    var c1 := Behind(c, open, [StartArray]);
    ReadsElements(inp, c1, style, es, depth + 1, 0, cl);
    var end := EndArray(ElementCount(es));
    BehindTwice(c, open, [StartArray], rest, ElementEvents(es) + [end]);
    assert [StartArray] + (ElementEvents(es) + [end]) == Events(JArray(es));
  }

  /** The text of a value, wherever it stands, reads back as the value's events. */
  lemma {:induction false} ReadsValue(inp: Input, c: Cursor, style: Style, v: Json, depth: nat)
    requires AcceptsAll(inp) && ValidStyle(style) && Fits(v, false)
    requires var s := Text(style, v, depth); At(inp.text, c.pos, s) && Ends(Peek(inp.text, c.pos + |s|))
    ensures ParseValue(inp, c) == Good(Behind(c, Text(style, v, depth), Events(v)))
    decreases v, 0
  {
    if v.JObject? && v.members.Member? {
      ReadsObject(inp, c, style, v.members, depth);
    } else if v.JArray? && v.elements.Element? {
      ReadsArray(inp, c, style, v.elements, depth);
    } else if v.JObject? || v.JArray? {
      EmptyText(style, v, depth);
      hide Text;
      ReadsEmpty(inp, c, v.JArray?);
    } else {
      ReadsScalar(inp, c, style, v, depth);
    }
  }

  lemma EmptyText(style: Style, v: Json, depth: nat)
    requires v == JObject(NoMembers) || v == JArray(NoElements)
    ensures Text(style, v, depth) == if v.JArray? then "[]" else "{}"
    ensures Events(v) == if v.JArray? then [StartArray] + [EndArray(0)] else [StartObject] + [EndObject(0)]
  {
  }

  // ---------------------------------------------------------------- the round trip

  /** Reading the text of a value, compact or indented in any way, with any parse flags, by either
      reader: the text is accepted to its end and the events are the value's own. */
  lemma ReadsText(inp: Input, style: Style, v: Json)
    requires AcceptsAll(inp) && ValidStyle(style) && Fits(v, false) && inp.text == Text(style, v, 0)
    ensures ParseText(inp) == Good(Cursor(|inp.text|, ReadAll(Events(v))))
    ensures JsonMachine.IterativeText(inp) == ParseText(inp)
  {
    hide ParseValue, Events, Text, ReadAll;
    JsonMachine.IterativeIsRecursive(inp);
    var start, text := Cursor(0, []), inp.text;
    assert At(text, 0, "") && At(text, 0, text);
    TextStarts(style, v, 0);
    SkipsWhite(inp, start, "");
    ReadsValue(inp, start, style, v, 0);
    var end := Behind(start, text, Events(v));
    assert [] + ReadAll(Events(v)) == ReadAll(Events(v));
    assert At(text, |text|, "");
    SkipsWhite(inp, end, "");
  }

  lemma {:induction false} EventsFit(v: Json)
    requires Fits(v, false)
    ensures forall e :: e in Events(v) ==> FitsType(e)
    decreases v
  {
    match v
    case JObject(members) => MemberEventsFit(members);
    case JArray(elements) => ElementEventsFit(elements);
    case _ =>
  }

  lemma {:induction false} MemberEventsFit(ms: Members)
    requires FitsMembers(ms, false)
    ensures forall e :: e in MemberEvents(ms) ==> FitsType(e)
    decreases ms
  {
    if ms.Member? {
      EventsFit(ms.value);
      MemberEventsFit(ms.more);
    }
  }

  lemma {:induction false} ElementEventsFit(es: Elements)
    requires FitsElements(es, false)
    ensures forall e :: e in ElementEvents(es) ==> FitsType(e)
    decreases es
  {
    if es.Element? {
      EventsFit(es.first);
      ElementEventsFit(es.rest);
    }
  }

  /** Printer then parser: for every well-formed sequence of events the writer accepts each event and
      ends complete, and reading its text gives back the same events, integers by value. */
  lemma PrintThenParse(inp: Input, style: Style, es: seq<Event>, v: Json)
    requires AcceptsAll(inp) && ValidStyle(style) && Describes(es, v, false)
    ensures WriteAll(style, EMPTY, es) == Some(State([], true, Text(style, v, 0)))
    ensures inp.text == WriteAll(style, EMPTY, es).value.out ==>
              (ParseText(inp).Good? && ParseText(inp).at.pos == |inp.text| && SameAll(es, ParseText(inp).at.events))
  {
    hide Text, ParseText, JsonMachine.IterativeText;
    WritesSame(style, EMPTY, es, Events(v));
    WritesDocument(style, v);
    hide WriteAll;
    if inp.text == Text(style, v, 0) {
      ReadsText(inp, style, v);
      EventsFit(v);
      SameReadBack(es, Events(v));
    }
  }

  lemma EventsAreSame(es: seq<Event>)
    ensures SameAll(es, es)
  {
  }

  lemma SameReadBack(es: seq<Event>, fs: seq<Event>)
    requires SameAll(es, fs) && forall e :: e in fs ==> FitsType(e)
    ensures SameAll(es, ReadAll(fs))
  {
    forall i | 0 <= i < |es| ensures Same(es[i], ReadAll(fs)[i]) {
      assert Same(es[i], fs[i]) && fs[i] in fs;
    }
  }
}
