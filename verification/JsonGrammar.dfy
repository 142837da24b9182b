/**
 RapidJSON's reader (reader.h) as a reference: what each parsing function does to the position in
 the text and to the events sent so far, written as functions.  JsonReader proves that the
 recursive-descent methods compute them, JsonMachine that the table-driven machine does.
 A text is a sequence of code units (bytes kept as characters); reading at or past its end gives
 '\0', as the terminated streams do.
 */
module JsonGrammar {
  import opened Wrappers

  datatype Flags = Flags(comments: bool, trailingCommas: bool, stopWhenDone: bool, escapedApostrophe: bool)

  datatype Event =
    | Null
    | Bool(b: bool)
    | Int(i: int)
    | Uint(u: nat)
    | Int64(i64: int)
    | Uint64(u64: nat)
    | Double(lexeme: string)
    | String(str: string)
    | StartObject
    | Key(name: string)
    | EndObject(memberCount: nat)
    | StartArray
    | EndArray(elementCount: nat)

  /** What a parse depends on: the handler answers from the events so far whether to go on, and
      tooBig stands for the range check of strtod, which is not part of this model. */
  datatype Input = Input(text: string, flags: Flags, handler: seq<Event> -> bool, tooBig: string -> bool)

  datatype Cursor = Cursor(pos: nat, events: seq<Event>)

  /** The outcome of a parsing function; a failure keeps the events already sent. */
  datatype Parsed = Good(at: Cursor) | Bad(events: seq<Event>) {
    predicate IsFailure() { Bad? }
    function PropagateFailure(): Parsed requires Bad? { this }
    function Extract(): Cursor requires Good? { at }
  }

  // ---------------------------------------------------------------- the stream

  function Peek(t: string, p: nat): char { if p < |t| then t[p] else '\0' }

  /** s stands at p. */
  predicate At(t: string, p: nat, s: string) { p + |s| <= |t| && t[p..p + |s|] == s }

  function Take(c: Cursor): Cursor { c.(pos := c.pos + 1) }

  function Emit(inp: Input, c: Cursor, e: Event): (r: Parsed)
    ensures r.Good? ==> r.at.pos == c.pos
  {
    var events := c.events + [e];
    if inp.handler(events) then Good(c.(events := events)) else Bad(events)
  }

  /** SizeType has 32 bits. */
  function Next(count: nat): nat { (count + 1) % 0x1_0000_0000 }

  predicate Within(inp: Input, c: Cursor) { c.pos <= |inp.text| }

  // ---------------------------------------------------------------- white space and comments

  predicate IsSpace(c: char) { c == ' ' || c == '\n' || c == '\r' || c == '\t' }

  function SpaceEnd(t: string, p: nat): (q: nat)
    requires p <= |t|
    ensures p <= q <= |t|
    decreases |t| - p
  {
    if IsSpace(Peek(t, p)) then SpaceEnd(t, p + 1) else p
  }

  /** The position behind the closing star and slash of a block comment. */
  function BlockEnd(t: string, p: nat): (q: Option<nat>)
    ensures q.Some? ==> p < q.value <= |t|
    decreases |t| - p
  {
    if Peek(t, p) == '\0' then None
    else if Peek(t, p) == '*' && Peek(t, p + 1) == '/' then Some(p + 2)
    else BlockEnd(t, p + 1)
  }

  function LineEnd(t: string, p: nat): (q: nat)
    requires p <= |t|
    ensures p <= q <= |t|
    decreases |t| - p
  {
    if Peek(t, p) == '\0' then p else if t[p] == '\n' then p + 1 else LineEnd(t, p + 1)
  }

  /** SkipWhitespaceAndComments, after its first SkipWhitespace. */
  function SkipComments(t: string, p: nat): (q: Option<nat>)
    requires p <= |t|
    ensures q.Some? ==> p <= q.value <= |t|
    decreases |t| - p
  {
    if Peek(t, p) != '/' then Some(p)
    else if Peek(t, p + 1) == '*' then
      var q := BlockEnd(t, p + 2);
      if q.None? then None else SkipComments(t, SpaceEnd(t, q.value))
    else if Peek(t, p + 1) == '/' then SkipComments(t, SpaceEnd(t, LineEnd(t, p + 2)))
    else None
  }

  function Skip(inp: Input, c: Cursor): (r: Parsed)
    requires Within(inp, c)
    ensures r.Good? ==> c.pos <= r.at.pos <= |inp.text| && r.at.events == c.events
    ensures r.Bad? ==> r.events == c.events
  {
    var p := SpaceEnd(inp.text, c.pos);
    if !inp.flags.comments then Good(c.(pos := p))
    else var q := SkipComments(inp.text, p); if q.None? then Bad(c.events) else Good(c.(pos := q.value))
  }

  // ---------------------------------------------------------------- strings

  /** The single-character escapes; '\0' where there is none. */
  function Unescape(e: char): char {
    if e == '\"' || e == '/' || e == '\\' then e
    else if e == 'b' then '\U{08}' else if e == 'f' then '\U{0C}' else if e == 'n' then '\n'
    else if e == 'r' then '\r' else if e == 't' then '\t' else '\0'
  }

  function HexDigit(c: char): (d: Option<nat>)
    ensures d.Some? ==> d.value < 16
  {
    if '0' <= c <= '9' then Some(c as int - '0' as int)
    else if 'A' <= c <= 'F' then Some(c as int - 'A' as int + 10)
    else if 'a' <= c <= 'f' then Some(c as int - 'a' as int + 10)
    else None
  }

  /** The value of the first n of the four hexadecimal digits at p. */
  function Hex(t: string, p: nat, n: nat): (v: Option<nat>)
    requires n <= 4
    ensures v.Some? ==> n == 0 || p + n <= |t|
    ensures v.Some? ==> v.value < [1, 0x10, 0x100, 0x1000, 0x1_0000][n]
  {
    if n == 0 then Some(0) else
    var high, d := Hex(t, p, n - 1), HexDigit(Peek(t, p + n - 1));
    if high.None? || d.None? then None else Some(high.value * 16 + d.value)
  }

  function Unit(v: nat): char
    requires v < 0x100
  {
    v as char
  }

  /** UTF8::Encode. */
  function Utf8(codepoint: nat): string
    requires codepoint <= 0x10FFFF
  {
    if codepoint <= 0x7F then [Unit(codepoint)]
    else if codepoint <= 0x7FF then [Unit(0xC0 + codepoint / 0x40), Unit(0x80 + codepoint % 0x40)]
    else if codepoint <= 0xFFFF then
      [Unit(0xE0 + codepoint / 0x1000), Unit(0x80 + codepoint / 0x40 % 0x40), Unit(0x80 + codepoint % 0x40)]
    else
      [Unit(0xF0 + codepoint / 0x40000), Unit(0x80 + codepoint / 0x1000 % 0x40),
       Unit(0x80 + codepoint / 0x40 % 0x40), Unit(0x80 + codepoint % 0x40)]
  }

  /** What an escape stands for and where it ends. */
  datatype Escaped = Escaped(end: nat, units: string)

  function Surrogates(high: nat, low: nat): (codepoint: nat)
    requires 0xD800 <= high <= 0xDBFF && 0xDC00 <= low <= 0xDFFF
    ensures 0x10000 <= codepoint <= 0x10FFFF
  {
    (high - 0xD800) * 0x400 + (low - 0xDC00) + 0x10000
  }

  /** A \u escape, from its first digit. */
  function UnicodeEscape(t: string, p: nat): (r: Option<Escaped>)
    ensures r.Some? ==> p < r.value.end <= |t|
  {
    var high := Hex(t, p, 4);
    if high.None? then None
    else if !(0xD800 <= high.value <= 0xDBFF) then Some(Escaped(p + 4, Utf8(high.value)))
    else if Peek(t, p + 4) != '\\' || Peek(t, p + 5) != 'u' then None
    else
      var low := Hex(t, p + 6, 4);
      if low.None? || !(0xDC00 <= low.value <= 0xDFFF) then None
      else Some(Escaped(p + 10, Utf8(Surrogates(high.value, low.value))))
  }

  /** An escape, from the character behind the backslash. */
  function Escape(flags: Flags, t: string, p: nat): (r: Option<Escaped>)
    ensures r.Some? ==> p < r.value.end <= |t|
  {
    var e := Peek(t, p);
    if Unescape(e) != '\0' then Some(Escaped(p + 1, [Unescape(e)]))
    else if flags.escapedApostrophe && e == '\'' then Some(Escaped(p + 1, "'"))
    else if e == 'u' then UnicodeEscape(t, p + 1)
    else None
  }

  /** ParseStringToStream from behind the opening quote, with `acc` already put. */
  function StringFrom(flags: Flags, t: string, p: nat, acc: string): (r: Option<Escaped>)
    ensures r.Some? ==> p < r.value.end <= |t|
    decreases |t| - p
  {
    var c := Peek(t, p);
    if c == '\\' then
      var e := Escape(flags, t, p + 1);
      if e.None? then None else StringFrom(flags, t, e.value.end, acc + e.value.units)
    else if c == '\"' then Some(Escaped(p + 1, acc))
    else if c < ' ' then None
    else StringFrom(flags, t, p + 1, acc + [c])
  }

  function ParseString(inp: Input, c: Cursor, isKey: bool): (r: Parsed)
    ensures r.Good? ==> c.pos < r.at.pos <= |inp.text|
  {
    var s := StringFrom(inp.flags, inp.text, c.pos + 1, "");
    if s.None? then Bad(c.events)
    else Emit(inp, c.(pos := s.value.end), if isKey then Key(s.value.units) else String(s.value.units))
  }

  // ---------------------------------------------------------------- numbers

  predicate IsDigit(c: char) { '0' <= c <= '9' }

  function DigitsEnd(t: string, p: nat): (q: nat)
    ensures p <= q && (p <= |t| ==> q <= |t|)
    ensures forall k :: p <= k < q ==> k < |t| && IsDigit(t[k])
    ensures !IsDigit(Peek(t, q))
    decreases |t| - p
  {
    if IsDigit(Peek(t, p)) then DigitsEnd(t, p + 1) else p
  }

  function DigitValue(c: char): nat
    requires IsDigit(c)
  {
    c as int - '0' as int
  }

  /** The number the digits lo..hi denote. */
  function Decimal(t: string, lo: nat, hi: nat): nat
    requires lo <= hi <= |t| && forall k :: lo <= k < hi ==> IsDigit(t[k])
    decreases hi
  {
    if lo == hi then 0 else Decimal(t, lo, hi - 1) * 10 + DigitValue(t[hi - 1])
  }

  /** The event for an integer, in the narrowest of the reader's types; none if it needs a double. */
  function IntegerEvent(minus: bool, v: nat): Option<Event> {
    if minus then
      if v <= 0x8000_0000 then Some(Int(-(v as int)))
      else if v <= 0x8000_0000_0000_0000 then Some(Int64(-(v as int)))
      else None
    else
      if v < 0x1_0000_0000 then Some(Uint(v)) else if v < 0x1_0000_0000_0000_0000 then Some(Uint64(v)) else None
  }

  /** The end of the integer part at p: a zero, or digits that start with another one. */
  function IntegerEnd(t: string, p: nat): (q: Option<nat>)
    ensures q.Some? ==> p < q.value <= |t| && forall k :: p <= k < q.value ==> IsDigit(t[k])
  {
    if Peek(t, p) == '0' then Some(p + 1) else if IsDigit(Peek(t, p)) then Some(DigitsEnd(t, p)) else None
  }

  function FractionEnd(t: string, p: nat): (q: Option<nat>)
    requires p <= |t|
    ensures q.Some? ==> p <= q.value <= |t|
  {
    if Peek(t, p) != '.' then Some(p) else if IsDigit(Peek(t, p + 1)) then Some(DigitsEnd(t, p + 1)) else None
  }

  function ExponentEnd(t: string, p: nat): (q: Option<nat>)
    requires p <= |t|
    ensures q.Some? ==> p <= q.value <= |t|
  {
    if Peek(t, p) != 'e' && Peek(t, p) != 'E' then Some(p) else
    var d := if Peek(t, p + 1) == '+' || Peek(t, p + 1) == '-' then p + 2 else p + 1;
    if IsDigit(Peek(t, d)) then Some(DigitsEnd(t, d)) else None
  }

  /** What ParseNumber does behind the integer part start..end. */
  function NumberFrom(inp: Input, c: Cursor, minus: bool, start: nat, end: nat): (r: Parsed)
    requires c.pos <= start < end <= |inp.text| && forall k :: start <= k < end ==> IsDigit(inp.text[k])
    ensures r.Good? ==> c.pos < r.at.pos <= |inp.text|
  {
    var t, e := inp.text, IntegerEvent(minus, Decimal(inp.text, start, end));
    var f := FractionEnd(t, end);
    if f.None? then Bad(c.events) else
    var x := ExponentEnd(t, f.value);
    if x.None? then Bad(c.events)
    else if x.value == end && e.Some? then Emit(inp, c.(pos := end), e.value)
    else if inp.tooBig(t[c.pos..x.value]) then Bad(c.events)
    else Emit(inp, c.(pos := x.value), Double(t[c.pos..x.value]))
  }

  function ParseNumber(inp: Input, c: Cursor): (r: Parsed)
    requires Within(inp, c)
    ensures r.Good? ==> c.pos < r.at.pos <= |inp.text|
  {
    var minus := Peek(inp.text, c.pos) == '-';
    var start := if minus then c.pos + 1 else c.pos;
    var end := IntegerEnd(inp.text, start);
    if end.None? then Bad(c.events) else NumberFrom(inp, c, minus, start, end.value)
  }

  // ---------------------------------------------------------------- values

  /** ParseNull, ParseTrue and ParseFalse. */
  function ParseLiteral(inp: Input, c: Cursor, word: string, e: Event): (r: Parsed)
    requires |word| > 0
    ensures r.Good? ==> c.pos < r.at.pos <= |inp.text|
  {
    if c.pos + |word| <= |inp.text| && inp.text[c.pos..c.pos + |word|] == word
    then Emit(inp, c.(pos := c.pos + |word|), e)
    else Bad(c.events)
  }

  function ParseValue(inp: Input, c: Cursor): (r: Parsed)
    requires Within(inp, c)
    ensures r.Good? ==> c.pos < r.at.pos <= |inp.text|
    decreases |inp.text| - c.pos, 1
  {
    var first := Peek(inp.text, c.pos);
    if first == '{' then ParseObject(inp, c)
    else if first == '[' then ParseArray(inp, c)
    else ParseScalar(inp, c)
  }

  function ParseScalar(inp: Input, c: Cursor): (r: Parsed)
    requires Within(inp, c)
    ensures r.Good? ==> c.pos < r.at.pos <= |inp.text|
  {
    var first := Peek(inp.text, c.pos);
    if first == 'n' then ParseLiteral(inp, c, "null", Null)
    else if first == 't' then ParseLiteral(inp, c, "true", Bool(true))
    else if first == 'f' then ParseLiteral(inp, c, "false", Bool(false))
    else if first == '\"' then ParseString(inp, c, false)
    else ParseNumber(inp, c)
  }

  function ParseObject(inp: Input, c: Cursor): (r: Parsed)
    requires Within(inp, c) && Peek(inp.text, c.pos) == '{'
    ensures r.Good? ==> c.pos < r.at.pos <= |inp.text|
    decreases |inp.text| - c.pos, 0
  {
    var c1 :- Emit(inp, Take(c), StartObject);
    var c2 :- Skip(inp, c1);
    ObjectInitial(inp, c2)
  }

  /** Behind the opening brace. */
  function ObjectInitial(inp: Input, c: Cursor): (r: Parsed)
    requires Within(inp, c)
    ensures r.Good? ==> c.pos < r.at.pos <= |inp.text|
    decreases |inp.text| - c.pos, 6
  {
    if Peek(inp.text, c.pos) == '}' then Emit(inp, Take(c), EndObject(0)) else MemberFrom(inp, c, 0)
  }

  /** At a name; `count` members are complete. */
  function MemberFrom(inp: Input, c: Cursor, count: nat): (r: Parsed)
    requires Within(inp, c)
    ensures r.Good? ==> c.pos < r.at.pos <= |inp.text|
    decreases |inp.text| - c.pos, 5
  {
    if Peek(inp.text, c.pos) != '\"' then Bad(c.events) else
    var c1 :- ParseString(inp, c, true);
    var c2 :- Skip(inp, c1);
    AfterName(inp, c2, count)
  }

  function AfterName(inp: Input, c: Cursor, count: nat): (r: Parsed)
    requires Within(inp, c)
    ensures r.Good? ==> c.pos < r.at.pos <= |inp.text|
    decreases |inp.text| - c.pos, 4
  {
    if Peek(inp.text, c.pos) != ':' then Bad(c.events) else
    var c1 :- Skip(inp, Take(c));
    AfterColon(inp, c1, count)
  }

  function AfterColon(inp: Input, c: Cursor, count: nat): (r: Parsed)
    requires Within(inp, c)
    ensures r.Good? ==> c.pos < r.at.pos <= |inp.text|
    decreases |inp.text| - c.pos, 3
  {
    var c1 :- ParseValue(inp, c);
    var c2 :- Skip(inp, c1);
    AfterMember(inp, c2, count)
  }

  /** Behind the value of a member; `count` members were complete before it. */
  function AfterMember(inp: Input, c: Cursor, count: nat): (r: Parsed)
    requires Within(inp, c)
    ensures r.Good? ==> c.pos < r.at.pos <= |inp.text|
    decreases |inp.text| - c.pos, 2
  {
    if Peek(inp.text, c.pos) == ',' then
      var c1 :- Skip(inp, Take(c));
      AfterMemberComma(inp, c1, Next(count))
    else if Peek(inp.text, c.pos) == '}' then Emit(inp, Take(c), EndObject(Next(count)))
    else Bad(c.events)
  }

  function AfterMemberComma(inp: Input, c: Cursor, count: nat): (r: Parsed)
    requires Within(inp, c)
    ensures r.Good? ==> c.pos < r.at.pos <= |inp.text|
    decreases |inp.text| - c.pos, 6
  {
    if inp.flags.trailingCommas && Peek(inp.text, c.pos) == '}' then Emit(inp, Take(c), EndObject(count))
    else MemberFrom(inp, c, count)
  }

  function ParseArray(inp: Input, c: Cursor): (r: Parsed)
    requires Within(inp, c) && Peek(inp.text, c.pos) == '['
    ensures r.Good? ==> c.pos < r.at.pos <= |inp.text|
    decreases |inp.text| - c.pos, 0
  {
    var c1 :- Emit(inp, Take(c), StartArray);
    var c2 :- Skip(inp, c1);
    ArrayInitial(inp, c2)
  }

  /** Behind the opening bracket. */
  function ArrayInitial(inp: Input, c: Cursor): (r: Parsed)
    requires Within(inp, c)
    ensures r.Good? ==> c.pos < r.at.pos <= |inp.text|
    decreases |inp.text| - c.pos, 6
  {
    if Peek(inp.text, c.pos) == ']' then Emit(inp, Take(c), EndArray(0)) else ElementFrom(inp, c, 0)
  }

  /** At an element; `count` elements are complete. */
  function ElementFrom(inp: Input, c: Cursor, count: nat): (r: Parsed)
    requires Within(inp, c)
    ensures r.Good? ==> c.pos < r.at.pos <= |inp.text|
    decreases |inp.text| - c.pos, 5
  {
    var c1 :- ParseValue(inp, c);
    var c2 :- Skip(inp, c1);
    AfterElement(inp, c2, count)
  }

  /** Behind an element; `count` elements were complete before it. */
  function AfterElement(inp: Input, c: Cursor, count: nat): (r: Parsed)
    requires Within(inp, c)
    ensures r.Good? ==> c.pos < r.at.pos <= |inp.text|
    decreases |inp.text| - c.pos, 2
  {
    if Peek(inp.text, c.pos) == ',' then
      var c1 :- Skip(inp, Take(c));
      AfterElementComma(inp, c1, Next(count))
    else if Peek(inp.text, c.pos) == ']' then Emit(inp, Take(c), EndArray(Next(count)))
    else Bad(c.events)
  }

  function AfterElementComma(inp: Input, c: Cursor, count: nat): (r: Parsed)
    requires Within(inp, c)
    ensures r.Good? ==> c.pos < r.at.pos <= |inp.text|
    decreases |inp.text| - c.pos, 6
  {
    if inp.flags.trailingCommas && Peek(inp.text, c.pos) == ']' then Emit(inp, Take(c), EndArray(count))
    else ElementFrom(inp, c, count)
  }

  // ---------------------------------------------------------------- the document

  /** Behind the root value. */
  function AfterRoot(inp: Input, c: Cursor): Parsed
    requires Within(inp, c)
  {
    if inp.flags.stopWhenDone then Good(c) else
    var c1 :- Skip(inp, c);
    if Peek(inp.text, c1.pos) != '\0' then Bad(c1.events) else Good(c1)
  }

  /** GenericReader::Parse without the iterative flag. */
  function ParseText(inp: Input): Parsed {
    var c :- Skip(inp, Cursor(0, []));
    if Peek(inp.text, c.pos) == '\0' then Bad(c.events) else
    var c1 :- ParseValue(inp, c);
    AfterRoot(inp, c1)
  }
}
