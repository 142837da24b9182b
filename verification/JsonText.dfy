/**
 What RapidJSON's Writer (writer.h) and PrettyWriter (prettywriter.h) do at each event, as functions
 of the level stack and the output, and the text they produce for a whole value.
 */
module JsonText {
  import opened JsonGrammar
  import opened JsonValue
  import opened Wrappers

  /** Writer, or PrettyWriter with its indentation and the single-line array option. */
  datatype Style = Compact | Pretty(indentChar: char, indentCharCount: nat, singleLineArray: bool)

  /** SetIndent's assertion. */
  predicate ValidStyle(style: Style) { style.Pretty? ==> IsSpace(style.indentChar) }

  datatype Level = Level(valueCount: nat, inArray: bool)

  datatype State = State(levels: seq<Level>, hasRoot: bool, out: string)

  const EMPTY := State([], false, "")

  // ---------------------------------------------------------------- separators

  function Repeat(c: char, n: nat): string { seq(n, _ => c) }

  function Indent(style: Style, depth: nat): string
    requires style.Pretty?
  {
    Repeat(style.indentChar, depth * style.indentCharCount)
  }

  /** The white space in front of a name or an array element at the given depth. */
  function Space(style: Style, inArray: bool, first: bool, depth: nat): string {
    if style.Compact? then ""
    else if inArray && style.singleLineArray then (if first then "" else " ")
    else "\n" + Indent(style, depth)
  }

  function Lead(style: Style, inArray: bool, first: bool, depth: nat): string {
    (if first then "" else ",") + Space(style, inArray, first, depth)
  }

  function Colon(style: Style): string { if style.Compact? then ":" else ": " }

  /** The white space in front of a closing bracket; depth is that of the container. */
  function Closing(style: Style, inArray: bool, empty: bool, depth: nat): string {
    if style.Compact? || empty || (inArray && style.singleLineArray) then "" else "\n" + Indent(style, depth)
  }

  // ---------------------------------------------------------------- strings and integers

  /** The escape table: 'u' for a hexadecimal escape, '\0' for none. */
  function EscapeLetter(c: char): char {
    if c == '\"' || c == '\\' then c
    else if c == '\U{08}' then 'b' else if c == '\t' then 't' else if c == '\n' then 'n'
    else if c == '\U{0C}' then 'f' else if c == '\r' then 'r'
    else if c < ' ' then 'u' else '\0'
  }

  function HexUpper(n: nat): char
    requires n < 16
  {
    if n < 10 then (n + '0' as int) as char else (n - 10 + 'A' as int) as char
  }

  function EscapeUnit(c: char): string {
    var e := EscapeLetter(c);
    if e == '\0' then [c]
    else if e == 'u' then ['\\', 'u', '0', '0', HexUpper(c as int / 16 % 16), HexUpper(c as int % 16)]
    else ['\\', e]
  }

  function EscapeUnits(s: string): string { if s == "" then "" else EscapeUnit(s[0]) + EscapeUnits(s[1..]) }

  function Quoted(s: string): string { "\"" + EscapeUnits(s) + "\"" }

  function DigitChar(n: nat): char
    requires n < 10
  {
    (n + '0' as int) as char
  }

  /** u64toa. */
  function Digits(n: nat): (r: string)
    ensures r != ""
  {
    if n < 10 then [DigitChar(n)] else Digits(n / 10) + [DigitChar(n % 10)]
  }

  /** The decimal rendering that itoa stands for. */
  function Numeral(value: int): string { if value < 0 then "-" + Digits(-value) else Digits(value) }

  // ---------------------------------------------------------------- one event

  function PrefixText(style: Style, level: Level, depth: nat): string {
    if !level.inArray && level.valueCount % 2 == 1 then Colon(style)
    else Lead(style, level.inArray, level.valueCount == 0, depth)
  }

  /** Prefix and PrettyPrefix; none where they assert: a second root, or a name that is no string. */
  function Prefix(style: Style, s: State, isString: bool): Option<State> {
    if s.levels == [] then (if s.hasRoot then None else Some(s.(hasRoot := true))) else
    var k := |s.levels| - 1;
    var level := s.levels[k];
    if !level.inArray && level.valueCount % 2 == 0 && !isString then None
    else Some(s.(levels := s.levels[k := level.(valueCount := level.valueCount + 1)],
                 out := s.out + PrefixText(style, level, |s.levels|)))
  }

  function Put(style: Style, s: State, isString: bool, text: string): Option<State> {
    var p := Prefix(style, s, isString);
    if p.None? then None else Some(p.value.(out := p.value.out + text))
  }

  function Open(style: Style, s: State, inArray: bool): Option<State> {
    var p := Put(style, s, false, if inArray then "[" else "{");
    if p.None? then None else Some(p.value.(levels := p.value.levels + [Level(0, inArray)]))
  }

  function Close(style: Style, s: State, inArray: bool): Option<State> {
    if s.levels == [] then None else
    var k := |s.levels| - 1;
    var level := s.levels[k];
    if level.inArray != inArray || (!inArray && level.valueCount % 2 == 1) then None
    else
      Some(s.(levels := s.levels[..k],
              out := s.out + Closing(style, inArray, level.valueCount == 0, k) + if inArray then "]" else "}"))
  }

  /** The state after an event; none where the writer's assertions reject it, or for a double. */
  function Write(style: Style, s: State, e: Event): Option<State> {
    match e
    case Null => Put(style, s, false, "null")
    case Bool(b) => Put(style, s, false, if b then "true" else "false")
    case Int(i) => Put(style, s, false, Numeral(i))
    case Uint(u) => Put(style, s, false, Numeral(u))
    case Int64(i) => Put(style, s, false, Numeral(i))
    case Uint64(u) => Put(style, s, false, Numeral(u))
    case Double(_) => None
    case String(str) => Put(style, s, true, Quoted(str))
    case Key(name) => Put(style, s, true, Quoted(name))
    case StartObject => Open(style, s, false)
    case EndObject(_) => Close(style, s, false)
    case StartArray => Open(style, s, true)
    case EndArray(_) => Close(style, s, true)
  }

  function WriteAll(style: Style, s: State, es: seq<Event>): Option<State>
    decreases |es|
  {
    if es == [] then Some(s) else
    var s1 := Write(style, s, es[0]);
    if s1.None? then None else WriteAll(style, s1.value, es[1..])
  }

  // ---------------------------------------------------------------- the text of a value

  /** dtoa is not part of this model: the writers' lemmas are about values without doubles. */
  function Text(style: Style, v: Json, depth: nat): string {
    match v
    case JNull => "null"
    case JBool(b) => if b then "true" else "false"
    case JNumber(value) => Numeral(value)
    case JDouble(lexeme) => lexeme
    case JString(str) => Quoted(str)
    case JObject(members) =>
      "{" + MembersText(style, members, true, depth + 1) + Closing(style, false, members.NoMembers?, depth) + "}"
    case JArray(elements) =>
      "[" + ElementsText(style, elements, true, depth + 1) + Closing(style, true, elements.NoElements?, depth) + "]"
  }

  function MembersText(style: Style, ms: Members, first: bool, depth: nat): string {
    if ms.NoMembers? then "" else
    Lead(style, false, first, depth) + Quoted(ms.name) + Colon(style) + Text(style, ms.value, depth)
      + MembersText(style, ms.more, false, depth)
  }

  function ElementsText(style: Style, es: Elements, first: bool, depth: nat): string {
    if es.NoElements? then "" else
    Lead(style, true, first, depth) + Text(style, es.first, depth) + ElementsText(style, es.rest, false, depth)
  }

  lemma EscapeNext(s: string, i: nat)
    requires i < |s|
    ensures EscapeUnits(s[i..]) == EscapeUnit(s[i]) + EscapeUnits(s[i + 1..])
  {
    assert s[i..][1..] == s[i + 1..];
  }

  lemma EscapeNone()
    ensures EscapeUnits("") == ""
  {
  }

  // ---------------------------------------------------------------- the events of a value write its text

  lemma {:induction false} WriteAppend(style: Style, s: State, es: seq<Event>, fs: seq<Event>)
    ensures WriteAll(style, s, es + fs) ==
            var s1 := WriteAll(style, s, es);
            if s1.None? then None else WriteAll(style, s1.value, fs)
    decreases |es|
  {
    if es == [] {
      assert es + fs == fs;
    } else {
      assert (es + fs)[1..] == es[1..] + fs;
      var s1 := Write(style, s, es[0]);
      if s1.Some? { WriteAppend(style, s1.value, es[1..], fs); }
    }
  }

  lemma Regroup(a: string, b: string, c: string)
    ensures (a + b) + c == a + (b + c)
  {
  }

  lemma Regroup5(a: string, b: string, c: string, d: string, e: string)
    ensures a + b + c + d + e == a + (b + c + d + e)
  {
  }

  lemma WriteOne(style: Style, s: State, e: Event)
    ensures WriteAll(style, s, [e]) == Write(style, s, e)
  {
  }

  lemma Bracketed(style: Style, s: State, start: Event, middle: seq<Event>, end: Event, s1: State, s2: State)
    requires Write(style, s, start) == Some(s1) && WriteAll(style, s1, middle) == Some(s2)
    ensures WriteAll(style, s, [start] + middle + [end]) == Write(style, s2, end)
  {
    hide Write;
    WriteOne(style, s, start);
    WriteOne(style, s2, end);
    hide WriteAll;
    WriteAppend(style, s, [start], middle);
    WriteAppend(style, s, [start] + middle, [end]);
  }

  /** The level on top has room for a value (a name and a value come as two). */
  predicate AtName(s: State, first: bool) {
    s.levels != [] && var level := s.levels[|s.levels| - 1];
                      !level.inArray && level.valueCount % 2 == 0 && (first <==> level.valueCount == 0)
  }

  predicate AtElement(s: State, first: bool) {
    s.levels != [] && var level := s.levels[|s.levels| - 1];
                      level.inArray && (first <==> level.valueCount == 0)
  }

  /** s after `count` more values and `text`. */
  function Advanced(s: State, count: nat, text: string): State
    requires s.levels != []
  {
    var k := |s.levels| - 1;
    s.(levels := s.levels[k := s.levels[k].(valueCount := s.levels[k].valueCount + count)], out := s.out + text)
  }

  lemma AdvancedNone(s: State)
    requires s.levels != []
    ensures Advanced(s, 0, "") == s
  {
    assert s.out + "" == s.out;
  }

  /** Wherever the writer accepts a value, its events put the prefix and the value's text. */
  lemma {:induction false} WritesValue(style: Style, s: State, v: Json)
    requires Fits(v, false)
    requires Prefix(style, s, false).Some?
    ensures WriteAll(style, s, Events(v)) == Put(style, s, false, Text(style, v, |s.levels|))
    decreases v, 1
  {
    match v
    case JObject(members) => WritesObject(style, s, members);
    case JArray(elements) => WritesArray(style, s, elements);
    case JNull => WriteOne(style, s, Null);
    case JBool(b) => WriteOne(style, s, Bool(b));
    case JNumber(value) => WriteOne(style, s, NumberEvent(value));
    case JString(str) => WriteOne(style, s, String(str));
  }

  lemma {:induction false} WritesObject(style: Style, s: State, ms: Members)
    requires FitsMembers(ms, false)
    requires Prefix(style, s, false).Some?
    ensures WriteAll(style, s, Events(JObject(ms))) == Put(style, s, false, Text(style, JObject(ms), |s.levels|))
    decreases ms, 1
  {
    hide PrefixText, Close, WriteAll, MembersText, MemberEvents;
    var s1 := Open(style, s, false).value;
    var text := MembersText(style, ms, true, |s1.levels|);
    WritesMembers(style, s1, ms, true);
    assert |s1.levels| == |s.levels| + 1;
    hide Open, Put, Prefix;
    assert (2 * MemberCount(ms) == 0) == ms.NoMembers?;
    hide MemberCount;
    CloseAfter(style, s, false, 2 * MemberCount(ms), text);
    Bracketed(style, s, StartObject, MemberEvents(ms), EndObject(MemberCount(ms)), s1,
              Advanced(s1, 2 * MemberCount(ms), text));
  }

  lemma {:induction false} WritesArray(style: Style, s: State, es: Elements)
    requires FitsElements(es, false)
    requires Prefix(style, s, false).Some?
    ensures WriteAll(style, s, Events(JArray(es))) == Put(style, s, false, Text(style, JArray(es), |s.levels|))
    decreases es, 1
  {
    hide PrefixText, Close, WriteAll;
    var s1 := Open(style, s, true).value;
    var text := ElementsText(style, es, true, |s1.levels|);
    WritesElements(style, s1, es, true);
    assert |s1.levels| == |s.levels| + 1;
    hide Open, Put, Prefix;
    assert (ElementCount(es) == 0) == es.NoElements?;
    hide ElementsText, ElementEvents;
    CloseAfter(style, s, true, ElementCount(es), text);
    Bracketed(style, s, StartArray, ElementEvents(es), EndArray(ElementCount(es)), s1,
              Advanced(s1, ElementCount(es), text));
  }

  /** Opening a container, writing into it and closing it is one value for the level around it. */
  lemma CloseAfter(style: Style, s: State, inArray: bool, count: nat, text: string)
    requires Open(style, s, inArray).Some? && (inArray || count % 2 == 0)
    ensures Close(style, Advanced(Open(style, s, inArray).value, count, text), inArray) ==
            Put(style, s, false, (if inArray then "[" else "{") + text + Closing(style, inArray, count == 0, |s.levels|)
                                 + (if inArray then "]" else "}"))
  {
    hide PrefixText, Closing;
    var p, s1 := Prefix(style, s, false).value, Open(style, s, inArray).value;
    var s2 := Advanced(s1, count, text);
    assert s2.levels[..|s2.levels| - 1] == s1.levels[..|s1.levels| - 1] == p.levels;
    Regroup5(p.out, if inArray then "[" else "{", text, Closing(style, inArray, count == 0, |s.levels|),
             if inArray then "]" else "}");
  }

  lemma {:induction false} WritesMembers(style: Style, s: State, ms: Members, first: bool)
    requires AtName(s, first) && FitsMembers(ms, false)
    ensures WriteAll(style, s, MemberEvents(ms)) ==
            Some(Advanced(s, 2 * MemberCount(ms), MembersText(style, ms, first, |s.levels|)))
    decreases ms, 0
  {
    hide WriteAll, MemberEvents, Events, MembersText, Text, Quoted;
    if ms.Member? {
      var s1 := Advanced(s, 1, Lead(style, false, first, |s.levels|) + Quoted(ms.name));
      WriteOne(style, s, Key(ms.name));
      Regroup(s.out, Lead(style, false, first, |s.levels|), Quoted(ms.name));
      var s2 := Advanced(s1, 1, Colon(style) + Text(style, ms.value, |s.levels|));
      WritesValue(style, s1, ms.value);
      Regroup(s1.out, Colon(style), Text(style, ms.value, |s.levels|));
      WritesMembers(style, s2, ms.more, false);
      hide Write, Lead, Colon;
      MemberEventsWritten(style, s, ms, s1, s2);
      MembersTextAdvances(style, s, ms, first, s1, s2);
    } else {
      NoMembersWritten(style, s, ms, first);
    }
  }

  lemma NoMembersWritten(style: Style, s: State, ms: Members, first: bool)
    requires s.levels != [] && ms.NoMembers?
    ensures WriteAll(style, s, MemberEvents(ms)) ==
            Some(Advanced(s, 2 * MemberCount(ms), MembersText(style, ms, first, |s.levels|)))
  {
    AdvancedNone(s);
  }

  lemma MemberEventsWritten(style: Style, s: State, ms: Members, s1: State, s2: State)
    requires ms.Member? && WriteAll(style, s, [Key(ms.name)]) == Some(s1)
             && WriteAll(style, s1, Events(ms.value)) == Some(s2)
    ensures WriteAll(style, s, MemberEvents(ms)) == WriteAll(style, s2, MemberEvents(ms.more))
  {
    hide WriteAll, Events;
    WriteAppend(style, s, [Key(ms.name)], Events(ms.value));
    WriteAppend(style, s, [Key(ms.name)] + Events(ms.value), MemberEvents(ms.more));
  }

  lemma MembersTextAdvances(style: Style, s: State, ms: Members, first: bool, s1: State, s2: State)
    requires ms.Member? && s.levels != []
    requires s1 == Advanced(s, 1, Lead(style, false, first, |s.levels|) + Quoted(ms.name))
    requires s2 == Advanced(s1, 1, Colon(style) + Text(style, ms.value, |s.levels|))
    ensures Advanced(s2, 2 * MemberCount(ms.more), MembersText(style, ms.more, false, |s.levels|)) ==
            Advanced(s, 2 * MemberCount(ms), MembersText(style, ms, first, |s.levels|))
  {
    hide Text, Quoted, Lead, Colon;
  }

  lemma {:induction false} WritesElements(style: Style, s: State, es: Elements, first: bool)
    requires AtElement(s, first) && FitsElements(es, false)
    ensures WriteAll(style, s, ElementEvents(es)) ==
            Some(Advanced(s, ElementCount(es), ElementsText(style, es, first, |s.levels|)))
    decreases es, 0
  {
    if es.Element? {
      var s1 := Advanced(s, 1, Lead(style, true, first, |s.levels|) + Text(style, es.first, |s.levels|));
      WritesFirst(style, s, es.first, first);
      WritesElements(style, s1, es.rest, false);
      hide WriteAll, Text, Lead;
      WriteAppend(style, s, Events(es.first), ElementEvents(es.rest));
      ElementsTextAdvances(style, s, es, first, s1);
    } else {
      AdvancedNone(s);
    }
  }

  lemma {:induction false} WritesFirst(style: Style, s: State, v: Json, first: bool)
    requires AtElement(s, first) && Fits(v, false)
    ensures WriteAll(style, s, Events(v)) ==
            Some(Advanced(s, 1, Lead(style, true, first, |s.levels|) + Text(style, v, |s.levels|)))
    decreases v, 2
  {
    hide Text, Lead, WriteAll;
    WritesValue(style, s, v);
    Regroup(s.out, Lead(style, true, first, |s.levels|), Text(style, v, |s.levels|));
  }

  lemma ElementsTextAdvances(style: Style, s: State, es: Elements, first: bool, s1: State)
    requires es.Element? && s.levels != []
    requires s1 == Advanced(s, 1, Lead(style, true, first, |s.levels|) + Text(style, es.first, |s.levels|))
    ensures Advanced(s1, ElementCount(es.rest), ElementsText(style, es.rest, false, |s.levels|)) ==
            Advanced(s, ElementCount(es), ElementsText(style, es, first, |s.levels|))
  {
    hide Text, Lead;
  }

  /** A whole value, written by a fresh writer. */
  lemma WritesDocument(style: Style, v: Json)
    requires Fits(v, false)
    ensures WriteAll(style, EMPTY, Events(v)) == Some(State([], true, Text(style, v, 0)))
  {
    hide Text;
    WritesValue(style, EMPTY, v);
    assert "" + Text(style, v, 0) == Text(style, v, 0);
  }

  /** The writer does not distinguish integers of equal value, nor counts. */
  lemma {:induction false} WritesSame(style: Style, s: State, es: seq<Event>, fs: seq<Event>)
    requires SameAll(es, fs)
    ensures WriteAll(style, s, es) == WriteAll(style, s, fs)
    decreases |es|
  {
    if es != [] {
      assert Same(es[0], fs[0]);
      var s1 := Write(style, s, es[0]);
      if s1.Some? { WritesSame(style, s1.value, es[1..], fs[1..]); }
    }
  }
}
