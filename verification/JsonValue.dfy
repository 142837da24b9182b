/** JSON values, the events that describe them, and equality of events up to the integer type. */
module JsonValue {
  import opened JsonGrammar

  datatype Json =
    | JNull
    | JBool(b: bool)
    | JNumber(value: int)
    | JDouble(lexeme: string)    // a number that needs a double, by its spelling
    | JString(str: string)
    | JObject(members: Members)
    | JArray(elements: Elements)

  datatype Members = NoMembers | Member(name: string, value: Json, more: Members)

  datatype Elements = NoElements | Element(first: Json, rest: Elements)

  function MemberCount(ms: Members): nat { if ms.NoMembers? then 0 else 1 + MemberCount(ms.more) }

  function ElementCount(es: Elements): nat { if es.NoElements? then 0 else 1 + ElementCount(es.rest) }

  const SIZE_LIMIT := 0x1_0000_0000

  /** Integers fit 64 bits, sizes fit SizeType; with or without numbers that are no integers. */
  predicate Fits(v: Json, doubles: bool) {
    match v
    case JNumber(value) => -0x8000_0000_0000_0000 <= value < 0x1_0000_0000_0000_0000
    case JDouble(_) => doubles
    case JObject(members) => MemberCount(members) < SIZE_LIMIT && FitsMembers(members, doubles)
    case JArray(elements) => ElementCount(elements) < SIZE_LIMIT && FitsElements(elements, doubles)
    case _ => true
  }

  predicate FitsMembers(ms: Members, doubles: bool) {
    ms.Member? ==> Fits(ms.value, doubles) && FitsMembers(ms.more, doubles)
  }

  predicate FitsElements(es: Elements, doubles: bool) {
    es.Element? ==> Fits(es.first, doubles) && FitsElements(es.rest, doubles)
  }

  /** The event GenericValue::Accept sends for an integer: the first that holds it of Int, Uint, Int64, Uint64. */
  function NumberEvent(value: int): Event {
    if -0x8000_0000 <= value < 0x8000_0000 then Int(value)
    else if 0 <= value < 0x1_0000_0000 then Uint(value)
    else if value < 0x8000_0000_0000_0000 then Int64(value)
    else Uint64(value)
  }

  /** The events of a value. */
  function Events(v: Json): seq<Event> {
    match v
    case JNull => [Null]
    case JBool(b) => [Bool(b)]
    case JNumber(value) => [NumberEvent(value)]
    case JDouble(lexeme) => [Double(lexeme)]
    case JString(str) => [String(str)]
    case JObject(members) => [StartObject] + MemberEvents(members) + [EndObject(MemberCount(members))]
    case JArray(elements) => [StartArray] + ElementEvents(elements) + [EndArray(ElementCount(elements))]
  }

  function MemberEvents(ms: Members): seq<Event> {
    if ms.NoMembers? then [] else [Key(ms.name)] + Events(ms.value) + MemberEvents(ms.more)
  }

  function ElementEvents(es: Elements): seq<Event> {
    if es.NoElements? then [] else Events(es.first) + ElementEvents(es.rest)
  }

  /** The events a reader sends for a value: as Events, with counts of SizeType. */
  function Sent(v: Json): seq<Event> {
    match v
    case JObject(members) =>
      [StartObject] + SentMembers(members) + [EndObject(MemberCount(members) % SIZE_LIMIT)]
    case JArray(elements) => [StartArray] + SentElements(elements) + [EndArray(ElementCount(elements) % SIZE_LIMIT)]
    case _ => Events(v)
  }

  function SentMembers(ms: Members): seq<Event> {
    if ms.NoMembers? then [] else [Key(ms.name)] + Sent(ms.value) + SentMembers(ms.more)
  }

  function SentElements(es: Elements): seq<Event> {
    if es.NoElements? then [] else Sent(es.first) + SentElements(es.rest)
  }

  // ---------------------------------------------------------------- integers by value

  predicate IsInteger(e: Event) { e.Int? || e.Uint? || e.Int64? || e.Uint64? }

  function IntegerValue(e: Event): int
    requires IsInteger(e)
  {
    match e
    case Int(i) => i
    case Uint(u) => u
    case Int64(i) => i
    case Uint64(u) => u
  }

  /** The arguments fit the types of the handler's integer functions. */
  predicate FitsType(e: Event) {
    match e
    case Int(i) => -0x8000_0000 <= i < 0x8000_0000
    case Uint(u) => u < 0x1_0000_0000
    case Int64(i) => -0x8000_0000_0000_0000 <= i < 0x8000_0000_0000_0000
    case Uint64(u) => u < 0x1_0000_0000_0000_0000
    case _ => true
  }

  /** The first of Int, Uint, Int64 and Uint64 that holds the value. */
  lemma NumberEventIsFirst(value: int)
    requires Fits(JNumber(value), false)
    ensures var e := NumberEvent(value);
            && IsInteger(e) && FitsType(e) && IntegerValue(e) == value
            && (FitsType(Int(value)) ==> e.Int?)
            && (value >= 0 && FitsType(Uint(value)) ==> e.Int? || e.Uint?)
            && (FitsType(Int64(value)) ==> !e.Uint64?)
            && (e.Int64? ==> value < 0 || !FitsType(Uint(value)))
  {
  }

  /** The same event, or integers of equal value. */
  predicate Same(e: Event, f: Event) {
    e == f || (IsInteger(e) && IsInteger(f) && IntegerValue(e) == IntegerValue(f))
  }

  predicate SameAll(es: seq<Event>, fs: seq<Event>) {
    |es| == |fs| && forall i :: 0 <= i < |es| ==> Same(es[i], fs[i])
  }

  lemma SameAppend(es: seq<Event>, fs: seq<Event>, es': seq<Event>, fs': seq<Event>)
    requires SameAll(es, fs) && SameAll(es', fs')
    ensures SameAll(es + es', fs + fs')
  {
  }

  /** A well-formed sequence of events: the events of a value, its integers sent as any type they fit. */
  predicate Describes(es: seq<Event>, v: Json, doubles: bool) {
    Fits(v, doubles) && SameAll(es, Events(v))
  }
}
