/**
 GenericDocument as a handler (document.h): a stack of values that closing brackets reduce, the
 visitor that replays a value's events, and what they make of the reader's and the writers' work.
 */
module JsonDocument {
  import opened JsonGrammar
  import opened JsonValue
  import opened JsonText
  import JsonReader
  import JsonRoundTrip
  import JsonSpelled
  import JsonSyntax
  import JsonWellFormed
  import JsonWriter
  import opened Wrappers

  // ---------------------------------------------------------------- building

  /** Names and values in turn, as the stack holds the members of an object. */
  function MembersOf(s: seq<Json>): Option<Members>
    decreases |s|
  {
    if s == [] then Some(NoMembers)
    else if |s| == 1 || !s[0].JString? then None
    else var more := MembersOf(s[2..]); if more.None? then None else Some(Member(s[0].str, s[1], more.value))
  }

  function ElementsOf(s: seq<Json>): Elements
    decreases |s|
  {
    if s == [] then NoElements else Element(s[0], ElementsOf(s[1..]))
  }

  /** The handler functions; none for a count the stack does not hold or a name that is no string. */
  function Build(stack: seq<Json>, e: Event): Option<seq<Json>> {
    match e
    case Null => Some(stack + [JNull])
    case Bool(b) => Some(stack + [JBool(b)])
    case Int(i) => Some(stack + [JNumber(i)])
    case Uint(u) => Some(stack + [JNumber(u)])
    case Int64(i) => Some(stack + [JNumber(i)])
    case Uint64(u) => Some(stack + [JNumber(u)])
    case Double(lexeme) => Some(stack + [JDouble(lexeme)])
    case String(str) => Some(stack + [JString(str)])
    case Key(name) => Some(stack + [JString(name)])
    case StartObject => Some(stack + [JObject(NoMembers)])
    case EndObject(count) =>
      if |stack| < 2 * count + 1 then None else
      var base := |stack| - 2 * count;
      var members := MembersOf(stack[base..]);
      if members.None? then None else Some(stack[..base - 1] + [JObject(members.value)])
    case StartArray => Some(stack + [JArray(NoElements)])
    case EndArray(count) =>
      if |stack| < count + 1 then None else
      var base := |stack| - count;
      Some(stack[..base - 1] + [JArray(ElementsOf(stack[base..]))])
  }

  function BuildAll(stack: seq<Json>, es: seq<Event>): Option<seq<Json>>
    decreases |es|
  {
    if es == [] then Some(stack) else
    var s := Build(stack, es[0]);
    if s.None? then None else BuildAll(s.value, es[1..])
  }

  lemma {:induction false} BuildAppend(stack: seq<Json>, es: seq<Event>, fs: seq<Event>)
    ensures BuildAll(stack, es + fs) ==
            var s := BuildAll(stack, es);
            if s.None? then None else BuildAll(s.value, fs)
    decreases |es|
  {
    if es == [] {
      assert es + fs == fs;
    } else {
      assert (es + fs)[1..] == es[1..] + fs;
      var s := Build(stack, es[0]);
      if s.Some? { BuildAppend(s.value, es[1..], fs); }
    }
  }

  lemma BuildOne(stack: seq<Json>, e: Event)
    ensures BuildAll(stack, [e]) == Build(stack, e)
  {
  }

  /** Integers of equal value build equal values. */
  lemma {:induction false} BuildSame(stack: seq<Json>, es: seq<Event>, fs: seq<Event>)
    requires SameAll(es, fs)
    ensures BuildAll(stack, es) == BuildAll(stack, fs)
    decreases |es|
  {
    if es != [] {
      assert Same(es[0], fs[0]);
      var s := Build(stack, es[0]);
      if s.Some? { BuildSame(s.value, es[1..], fs[1..]); }
    }
  }

  // ---------------------------------------------------------------- a value's events build the value

  function Pairs(ms: Members): (s: seq<Json>)
    ensures |s| == 2 * MemberCount(ms)
  {
    if ms.NoMembers? then [] else [JString(ms.name), ms.value] + Pairs(ms.more)
  }

  function Items(es: Elements): (s: seq<Json>)
    ensures |s| == ElementCount(es)
  {
    if es.NoElements? then [] else [es.first] + Items(es.rest)
  }

  lemma {:induction false} PairsAreMembers(ms: Members)
    ensures MembersOf(Pairs(ms)) == Some(ms)
  {
    if ms.Member? {
      PairsAreMembers(ms.more);
      assert Pairs(ms)[2..] == Pairs(ms.more);
    }
  }

  lemma {:induction false} ItemsAreElements(es: Elements)
    ensures ElementsOf(Items(es)) == es
  {
    if es.Element? {
      ItemsAreElements(es.rest);
      assert Items(es)[1..] == Items(es.rest);
    }
  }

  /** On any stack, the events of a value push that value. */
  lemma {:induction false} BuildsValue(stack: seq<Json>, v: Json)
    ensures BuildAll(stack, Events(v)) == Some(stack + [v])
    decreases v, 1
  {
    match v
    case JObject(members) => BuildsObject(stack, members);
    case JArray(elements) => BuildsArray(stack, elements);
    case _ => BuildOne(stack, Events(v)[0]);
  }

  lemma {:induction false} BuildsObject(stack: seq<Json>, ms: Members)
    ensures BuildAll(stack, Events(JObject(ms))) == Some(stack + [JObject(ms)])
    decreases ms, 1
  {
    var start, end, open := [StartObject], EndObject(MemberCount(ms)), stack + [JObject(NoMembers)];
    BuildOne(stack, StartObject);
    BuildsMembers(open, ms);
    PairsAreMembers(ms);
    var full := open + Pairs(ms);
    assert full[..|stack|] == stack && full[|stack| + 1..] == Pairs(ms);
    BuildOne(full, end);
    assert BuildAll(full, [end]) == Some(stack + [JObject(ms)]);
    hide BuildAll, Build, MemberEvents, MembersOf, Pairs;
    BuildAppend(stack, start, MemberEvents(ms));
    BuildAppend(stack, start + MemberEvents(ms), [end]);
  }

  lemma {:induction false} BuildsArray(stack: seq<Json>, es: Elements)
    ensures BuildAll(stack, Events(JArray(es))) == Some(stack + [JArray(es)])
    decreases es, 1
  {
    var start, end, open := [StartArray], EndArray(ElementCount(es)), stack + [JArray(NoElements)];
    BuildOne(stack, StartArray);
    BuildsElements(open, es);
    ItemsAreElements(es);
    var full := open + Items(es);
    assert full[..|stack|] == stack && full[|stack| + 1..] == Items(es);
    BuildOne(full, end);
    assert BuildAll(full, [end]) == Some(stack + [JArray(es)]);
    hide BuildAll, Build, ElementEvents, ElementsOf, Items;
    BuildAppend(stack, start, ElementEvents(es));
    BuildAppend(stack, start + ElementEvents(es), [end]);
  }

  lemma {:induction false} BuildsMembers(stack: seq<Json>, ms: Members)
    ensures BuildAll(stack, MemberEvents(ms)) == Some(stack + Pairs(ms))
    decreases ms, 0
  {
    if ms.Member? {
      var key, value := [Key(ms.name)], Events(ms.value);
      BuildOne(stack, Key(ms.name));
      BuildsValue(stack + [JString(ms.name)], ms.value);
      BuildsMembers(stack + [JString(ms.name)] + [ms.value], ms.more);
      BuildAppend(stack, key, value);
      BuildAppend(stack, key + value, MemberEvents(ms.more));
      assert stack + [JString(ms.name)] + [ms.value] + Pairs(ms.more) == stack + Pairs(ms);
    } else {
      assert stack + [] == stack;
    }
  }

  lemma {:induction false} BuildsElements(stack: seq<Json>, es: Elements)
    ensures BuildAll(stack, ElementEvents(es)) == Some(stack + Items(es))
    decreases es, 0
  {
    if es.Element? {
      BuildsValue(stack, es.first);
      BuildsElements(stack + [es.first], es.rest);
      BuildAppend(stack, Events(es.first), ElementEvents(es.rest));
      assert stack + [es.first] + Items(es.rest) == stack + Items(es);
    } else {
      assert stack + [] == stack;
    }
  }

  /** A well-formed sequence of events leaves exactly the value it describes. */
  lemma BuildsDocument(es: seq<Event>, v: Json)
    requires Describes(es, v, true)
    ensures BuildAll([], es) == Some([v])
  {
    BuildSame([], es, Events(v));
    assert [] + [v] == [v];
    BuildsValue([], v);
  }

  /** Whatever text the reader accepts leaves exactly one value on the stack. */
  lemma ParseLeavesOneRoot(inp: Input) returns (v: Json)
    requires ParseText(inp).Good? && |inp.text| < SIZE_LIMIT
    ensures BuildAll([], ParseText(inp).at.events) == Some([v])
    ensures Describes(ParseText(inp).at.events, v, true)
    ensures !inp.flags.stopWhenDone ==> JsonSyntax.SpellsText(inp, v)
  {
    hide ParseText, Describes, JsonSyntax.SpellsText;
    v := JsonWellFormed.AcceptedIsWellFormed(inp);
    BuildsDocument(ParseText(inp).at.events, v);
  }

  /** A document of integers, printed in any style and parsed, is the same document. */
  lemma DocumentRoundTrip(inp: Input, style: Style, v: Json)
    requires JsonRoundTrip.AcceptsAll(inp) && ValidStyle(style) && Fits(v, false) && inp.text == Text(style, v, 0)
    ensures ParseText(inp).Good? && BuildAll([], ParseText(inp).at.events) == Some([v])
  {
    hide ParseText, Text;
    JsonRoundTrip.EventsAreSame(Events(v));
    JsonRoundTrip.PrintThenParse(inp, style, Events(v), v);
    BuildSame([], ParseText(inp).at.events, Events(v));
    BuildsValue([], v);
    assert [] + [v] == [v];
  }

  // ---------------------------------------------------------------- the class

  class Document {
    var stack: seq<Json>

    constructor ()
      ensures stack == []
    {
      stack := [];
    }

    /** The functions for values without parts. */
    method Push(v: Json)
      modifies this
      ensures stack == old(stack) + [v]
    {
      stack := stack + [v];
    }

    method EndObject(memberCount: nat)
      requires Build(stack, Event.EndObject(memberCount)).Some?
      modifies this
      ensures Some(stack) == Build(old(stack), Event.EndObject(memberCount))
    {
      var base := |stack| - 2 * memberCount;
      var members := MembersOf(stack[base..]).value;
      stack := stack[..base];
      stack := stack[base - 1 := JObject(members)];
      assert stack == old(stack)[..base - 1] + [JObject(members)];
    }

    method EndArray(elementCount: nat)
      requires Build(stack, Event.EndArray(elementCount)).Some?
      modifies this
      ensures Some(stack) == Build(old(stack), Event.EndArray(elementCount))
    {
      var base := |stack| - elementCount;
      var elements := ElementsOf(stack[base..]);
      stack := stack[..base];
      stack := stack[base - 1 := JArray(elements)];
      assert stack == old(stack)[..base - 1] + [JArray(elements)];
    }

    method Handle(e: Event)
      requires Build(stack, e).Some?
      modifies this
      ensures Some(stack) == Build(old(stack), e)
    {
      match e
      case Null => Push(JNull);
      case Bool(b) => Push(JBool(b));
      case Int(i) => Push(JNumber(i));
      case Uint(u) => Push(JNumber(u));
      case Int64(i) => Push(JNumber(i));
      case Uint64(u) => Push(JNumber(u));
      case Double(lexeme) => Push(JDouble(lexeme));
      case String(str) => Push(JString(str));
      case Key(name) => Push(JString(name));
      case StartObject => Push(JObject(NoMembers));
      case EndObject(count) => EndObject(count);
      case StartArray => Push(JArray(NoElements));
      case EndArray(count) => EndArray(count);
    }

    /** A whole parse as the handler sees it: the root value is moved out and the stack is empty again. */
    method HandleAll(events: seq<Event>, ghost v: Json) returns (root: Json)
      requires stack == [] && BuildAll([], events) == Some([v])
      modifies this
      ensures root == v && stack == []
    {
      hide BuildAll, Build;
      BuildNothing();
      var i := 0;
      while i < |events|
        invariant 0 <= i <= |events| && Some(stack) == BuildAll([], events[..i])
      {
        BuildStep(events, i);
        Handle(events[i]);
        i := i + 1;
      }
      assert events[..i] == events;
      root := stack[0];
      stack := [];
    }

    /** ParseStream: the root value, or none on a parse error; the stack is cleared on exit. */
    method ParseStream(inp: Input, iterative: bool) returns (root: Option<Json>)
      requires JsonRoundTrip.AcceptsAll(inp) && |inp.text| < SIZE_LIMIT && stack == []
      modifies this
      ensures root.Some? <==> ParseText(inp).Good?
      ensures root.Some? ==> Describes(ParseText(inp).at.events, root.value, true)
      ensures !inp.flags.stopWhenDone ==>
                (root.Some? <==> exists v :: JsonSyntax.SpellsText(inp, v))
                && (root.Some? ==> JsonSyntax.SpellsText(inp, root.value))
      ensures stack == []
    {
      hide ParseText, Describes, BuildAll, Build, JsonSyntax.SpellsText;
      if !inp.flags.stopWhenDone { JsonSpelled.AcceptsExactly(inp); }
      var reader := new JsonReader.Reader(inp);
      var ok;
      if iterative {
        ok := reader.IterativeParse();
      } else {
        ok := reader.Parse();
      }
      root := None;
      if !ok { return; }
      ghost var v := ParseLeavesOneRoot(inp);
      var value := HandleAll(reader.events, v);
      root := Some(value);
    }
  }

  lemma BuildNothing()
    ensures BuildAll([], []) == Some([])
  {
  }

  /** Every event of a sequence that can be built can be built after those before it. */
  lemma BuildStep(es: seq<Event>, i: nat)
    requires i < |es| && BuildAll([], es).Some? && BuildAll([], es[..i]).Some?
    ensures Build(BuildAll([], es[..i]).value, es[i]).Some?
    ensures BuildAll([], es[..i + 1]) == Build(BuildAll([], es[..i]).value, es[i])
  {
    hide Build;
    var before := BuildAll([], es[..i]).value;
    BuildOne(before, es[i]);
    assert es == es[..i] + es[i..] && es[..i + 1] == es[..i] + [es[i]];
    BuildAppend([], es[..i], es[i..]);
    BuildAppend([], es[..i], [es[i]]);
  }

  // ---------------------------------------------------------------- visiting

  /** Sends events until one is refused. */
  function Deliver(accepts: seq<Event> -> bool, sent: seq<Event>, es: seq<Event>): (r: (bool, seq<Event>))
    decreases |es|
  {
    if es == [] then (true, sent) else
    var sent1 := sent + [es[0]];
    if accepts(sent1) then Deliver(accepts, sent1, es[1..]) else (false, sent1)
  }

  lemma {:induction false} DeliverAppend(accepts: seq<Event> -> bool, sent: seq<Event>, es: seq<Event>, fs: seq<Event>)
    ensures Deliver(accepts, sent, es + fs) ==
            var r := Deliver(accepts, sent, es);
            if r.0 then Deliver(accepts, r.1, fs) else r
    decreases |es|
  {
    if es == [] {
      assert es + fs == fs;
    } else {
      assert (es + fs)[1..] == es[1..] + fs;
      if accepts(sent + [es[0]]) { DeliverAppend(accepts, sent + [es[0]], es[1..], fs); }
    }
  }

  /** A handler that never refuses gets everything. */
  lemma {:induction false} DeliverAll(accepts: seq<Event> -> bool, sent: seq<Event>, es: seq<Event>)
    requires forall s :: accepts(s)
    ensures Deliver(accepts, sent, es) == (true, sent + es)
    decreases |es|
  {
    if es == [] {
      assert sent + es == sent;
    } else {
      DeliverAll(accepts, sent + [es[0]], es[1..]);
      assert sent + [es[0]] + es[1..] == sent + es;
    }
  }

  class Handler {
    const accepts: seq<Event> -> bool
    var sent: seq<Event>

    constructor (accepts: seq<Event> -> bool)
      ensures this.accepts == accepts && sent == []
    {
      this.accepts := accepts;
      sent := [];
    }

    /** What is sent when `todo` is still to be delivered. */
    ghost function Goal(todo: seq<Event>): (bool, seq<Event>) reads this { Deliver(accepts, sent, todo) }

    method Send(e: Event, ghost rest: seq<Event>) returns (ok: bool)
      modifies this
      ensures old(Goal([e] + rest)) == if ok then Goal(rest) else (false, sent)
    {
      assert ([e] + rest)[1..] == rest;
      sent := sent + [e];
      ok := accepts(sent);
    }
  }

  function Size(v: Json): nat {
    match v
    case JObject(members) => 1 + MembersSize(members)
    case JArray(elements) => 1 + ElementsSize(elements)
    case _ => 0
  }

  function MembersSize(ms: Members): nat { if ms.NoMembers? then 0 else 1 + Size(ms.value) + MembersSize(ms.more) }

  function ElementsSize(es: Elements): nat { if es.NoElements? then 0 else 1 + Size(es.first) + ElementsSize(es.rest) }

  /** GenericValue::Accept: the handler receives exactly the value's events, up to one it refuses. */
  method Accept(v: Json, h: Handler) returns (ok: bool)
    modifies h
    ensures (ok, h.sent) == Deliver(h.accepts, old(h.sent), Events(v))
    decreases Size(v), 1
  {
    match v
    case JObject(members) => ok := AcceptObject(members, h);
    case JArray(elements) => ok := AcceptArray(elements, h);
    case _ =>
      var e := match v
        case JNull => Null
        case JBool(b) => Bool(b)
        case JString(str) => String(str)
        case JDouble(lexeme) => Double(lexeme)
        case JNumber(value) => NumberEvent(value);
      ok := h.Send(e, []);
      assert [e] + [] == Events(v);
  }

  method AcceptObject(members: Members, h: Handler) returns (ok: bool)
    modifies h
    ensures (ok, h.sent) == Deliver(h.accepts, old(h.sent), Events(JObject(members)))
    decreases MembersSize(members), 2
  {
    hide Deliver;
    ghost var end := [EndObject(MemberCount(members))];
    Regroup([StartObject], MemberEvents(members), end);
    ok := h.Send(StartObject, MemberEvents(members) + end);
    if !ok { return; }
    var m := members;
    while m.Member?
      invariant MembersSize(m) <= MembersSize(members)
      invariant h.Goal(MemberEvents(m) + end) == old(h.Goal(Events(JObject(members))))
      decreases MembersSize(m)
    {
      ghost var rest := MemberEvents(m.more) + end;
      MemberFirst(m, end);
      ok := h.Send(Key(m.name), Events(m.value) + rest);
      if !ok { return; }
      DeliverAppend(h.accepts, h.sent, Events(m.value), rest);
      ok := Accept(m.value, h);
      if !ok { return; }
      m := m.more;
    }
    assert MemberEvents(m) + end == end + [];
    ok := h.Send(EndObject(MemberCount(members)), []);
    DeliverNothing(h.accepts, h.sent);
  }

  method AcceptArray(elements: Elements, h: Handler) returns (ok: bool)
    modifies h
    ensures (ok, h.sent) == Deliver(h.accepts, old(h.sent), Events(JArray(elements)))
    decreases ElementsSize(elements), 2
  {
    hide Deliver;
    ghost var end := [EndArray(ElementCount(elements))];
    Regroup([StartArray], ElementEvents(elements), end);
    ok := h.Send(StartArray, ElementEvents(elements) + end);
    if !ok { return; }
    var m := elements;
    while m.Element?
      invariant ElementsSize(m) <= ElementsSize(elements)
      invariant h.Goal(ElementEvents(m) + end) == old(h.Goal(Events(JArray(elements))))
      decreases ElementsSize(m)
    {
      ghost var rest := ElementEvents(m.rest) + end;
      Regroup(Events(m.first), ElementEvents(m.rest), end);
      DeliverAppend(h.accepts, h.sent, Events(m.first), rest);
      ok := Accept(m.first, h);
      if !ok { return; }
      m := m.rest;
    }
    assert ElementEvents(m) + end == end + [];
    ok := h.Send(EndArray(ElementCount(elements)), []);
    DeliverNothing(h.accepts, h.sent);
  }

  // ---------------------------------------------------------------- there and back

  /** A document built from any well-formed sequence of events replays that sequence, integers by value. */
  method Replay(es: seq<Event>, ghost v: Json) returns (sent: seq<Event>)
    requires Describes(es, v, true)
    ensures SameAll(es, sent)
  {
    hide Events, Deliver, SameAll, Fits;
    var document := new Document();
    BuildsDocument(es, v);
    var root := document.HandleAll(es, v);
    var handler := new Handler((_: seq<Event>) => true);
    var ok := Accept(root, handler);
    DeliverAll(handler.accepts, [], Events(v));
    assert [] + Events(v) == Events(v);
    sent := handler.sent;
  }

  /** A document without doubles, written in any style and parsed again by either parser, is the same document. */
  method PrintAndParse(style: Style, flags: Flags, tooBig: string -> bool, iterative: bool, v: Json)
    returns (root: Json)
    requires ValidStyle(style) && Fits(v, false)
    ensures root == v
  {
    hide Events, Deliver, WriteAll, Text, ParseText, BuildAll;
    var handler := new Handler((_: seq<Event>) => true);
    var ok := Accept(v, handler);
    DeliverAll(handler.accepts, [], Events(v));
    assert [] + Events(v) == Events(v);
    WritesDocument(style, v);
    var writer := new JsonWriter.Writer(style);
    writer.HandleAll(handler.sent);
    assert writer.IsComplete();
    var inp := Input(writer.out, flags, (_: seq<Event>) => true, tooBig);
    DocumentRoundTrip(inp, style, v);
    var reader := new JsonReader.Reader(inp);
    if iterative {
      ok := reader.IterativeParse();
    } else {
      ok := reader.Parse();
    }
    var document := new Document();
    root := document.HandleAll(reader.events, v);
  }

  lemma DeliverNothing(accepts: seq<Event> -> bool, sent: seq<Event>)
    ensures Deliver(accepts, sent, []) == (true, sent)
  {
  }

  lemma Regroup(a: seq<Event>, b: seq<Event>, c: seq<Event>)
    ensures (a + b) + c == a + (b + c)
  {
  }

  lemma MemberFirst(ms: Members, end: seq<Event>)
    requires ms.Member?
    ensures MemberEvents(ms) + end == [Key(ms.name)] + (Events(ms.value) + (MemberEvents(ms.more) + end))
  {
    hide Events;
    Regroup([Key(ms.name)] + Events(ms.value), MemberEvents(ms.more), end);
    Regroup([Key(ms.name)], Events(ms.value), MemberEvents(ms.more) + end);
  }
}
