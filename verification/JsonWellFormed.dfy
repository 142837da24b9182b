/**
 What the readers accept is JSON, and what they send is well formed: on every text they accept, the text spells a value
 and the events are those of that value, whatever the flags.
 */
module JsonWellFormed {
  import opened JsonGrammar
  import opened JsonValue
  import opened JsonLexis
  import opened JsonSpelling
  import JsonSyntax

  lemma SameSelf(es: seq<Event>)
    ensures SameAll(es, es)
  {
  }

  // ---------------------------------------------------------------- between tokens

  /** What is skipped before a character is blank. */
  lemma SkippedBefore(inp: Input, c: Cursor)
    requires Within(inp, c) && Skip(inp, c).Good? && Peek(inp.text, Skip(inp, c).at.pos) != '\0'
    ensures JsonSyntax.Blank(inp.flags, inp.text, c.pos, Skip(inp, c).at.pos)
  {
    SkipIs(inp, c);
    SkippedIsBlank(inp.flags, inp.text, c.pos);
  }

  /** A comma between blanks. */
  lemma CommaBetween(inp: Input, b: nat, c: Cursor)
    requires Within(inp, c) && JsonSyntax.Blank(inp.flags, inp.text, b, c.pos) && Peek(inp.text, c.pos) == ','
    requires Skip(inp, Take(c)).Good? && Peek(inp.text, Skip(inp, Take(c)).at.pos) != '\0'
    ensures JsonSyntax.CommaAt(inp.flags, inp.text, b, Skip(inp, Take(c)).at.pos)
  {
    hide JsonSyntax.Blank, Skip;
    SkippedBefore(inp, Take(c));
  }

  // ---------------------------------------------------------------- scalars

  /** The number of an integer event is in range, and -0 is 0. */
  lemma IntegerDescribed(minus: bool, n: nat)
    requires IntegerEvent(minus, n).Some?
    ensures SameAll([IntegerEvent(minus, n).value], Sent(JNumber(if minus then -(n as int) else n)))
  {
  }

  lemma EmitsNumber(inp: Input, c: Cursor) returns (v: Json, e: Event)
    requires Within(inp, c) && ParseNumber(inp, c).Good?
    ensures ParseNumber(inp, c).at.events == c.events + [e] && SameAll([e], Sent(v))
    ensures JsonSyntax.Spells(inp, c.pos, ParseNumber(inp, c).at.pos, v)
  {
    hide ParseNumber, JsonSyntax.Signed, Decimal, IntegerEvent, JsonSyntax.RealAt;
    var t, j := inp.text, ParseNumber(inp, c).at.pos;
    ReadIsNumber(inp, c);
    if JsonSyntax.IntegerAt(t, c.pos, j, JsonSyntax.Signed(t, c.pos, j)) {
      var minus, n := JsonSyntax.Minus(t, c.pos), Decimal(t, JsonSyntax.BehindMinus(t, c.pos), j);
      IntegerDescribed(minus, n);
      v, e := JNumber(JsonSyntax.Signed(t, c.pos, j)), IntegerEvent(minus, n).value;
    } else {
      v, e := JDouble(t[c.pos..j]), Double(t[c.pos..j]);
    }
  }

  lemma EmitsString(inp: Input, c: Cursor, isKey: bool) returns (str: string)
    requires Within(inp, c) && Peek(inp.text, c.pos) == '\"' && ParseString(inp, c, isKey).Good?
    ensures var r := ParseString(inp, c, isKey).at;
            r.events == c.events + [if isKey then Key(str) else String(str)]
            && JsonSyntax.StringAt(inp.flags, inp.text, c.pos, r.pos, str)
  {
    hide StringFrom, JsonSyntax.Chars;
    var s := ReadIsChars(inp.flags, inp.text, c.pos + 1, "");
    str := StringFrom(inp.flags, inp.text, c.pos + 1, "").value.units;
    assert "" + s == s;
  }

  lemma EmitsScalar(inp: Input, c: Cursor) returns (v: Json, e: Event)
    requires Within(inp, c) && ParseScalar(inp, c).Good?
    ensures ParseScalar(inp, c).at.events == c.events + [e] && SameAll([e], Sent(v))
    ensures JsonSyntax.Spells(inp, c.pos, ParseScalar(inp, c).at.pos, v)
  {
    hide ParseNumber, ParseString, JsonSyntax.StringAt;
    var first := Peek(inp.text, c.pos);
    if first == 'n' {
      v, e := JNull, Null;
    } else if first == 't' {
      v, e := JBool(true), Bool(true);
    } else if first == 'f' {
      v, e := JBool(false), Bool(false);
    } else if first == '\"' {
      var s := EmitsString(inp, c, false);
      v, e := JString(s), String(s);
    } else {
      v, e := EmitsNumber(inp, c);
    }
  }

  /** A value does not begin with the end of the text. */
  lemma ValueBegins(inp: Input, c: Cursor)
    requires Within(inp, c) && ParseValue(inp, c).Good?
    ensures Peek(inp.text, c.pos) != '\0'
  {
  }

  // ---------------------------------------------------------------- values

  /** A parsed value is spelled by its characters and described by what was sent for it. */
  lemma {:induction false} EmitsValue(inp: Input, c: Cursor) returns (v: Json, es: seq<Event>)
    requires Within(inp, c) && ParseValue(inp, c).Good?
    ensures ParseValue(inp, c).at.events == c.events + es && SameAll(es, Sent(v))
    ensures JsonSyntax.Spells(inp, c.pos, ParseValue(inp, c).at.pos, v)
    decreases |inp.text| - c.pos, 4
  {
    hide JsonSyntax.Spells, Sent;
    var first := Peek(inp.text, c.pos);
    if first == '{' {
      v, es := EmitsObject(inp, c);
    } else if first == '[' {
      v, es := EmitsArray(inp, c);
    } else {
      var e;
      v, e := EmitsScalar(inp, c);
      es := [e];
    }
  }

  lemma EmptyObject(inp: Input, i: nat, j: nat)
    requires i + 2 <= j <= |inp.text| && inp.text[i] == '{' && inp.text[j - 1] == '}'
    requires JsonSyntax.Blank(inp.flags, inp.text, i + 1, j - 1)
    ensures JsonSyntax.Spells(inp, i, j, JObject(NoMembers))
  {
    hide JsonSyntax.Blank;
  }

  lemma FilledObject(inp: Input, i: nat, a: nat, b: nat, j: nat, ms: Members)
    requires i + 2 <= j <= |inp.text| && inp.text[i] == '{' && inp.text[j - 1] == '}'
    requires JsonSyntax.Blank(inp.flags, inp.text, i + 1, a) && JsonSyntax.SpellsMembers(inp, a, b, ms)
    requires JsonSyntax.Closing(inp.flags, inp.text, b, j - 1)
    ensures JsonSyntax.Spells(inp, i, j, JObject(ms))
  {
    hide JsonSyntax.Blank, JsonSyntax.Closing;
  }

  lemma EmptyArray(inp: Input, i: nat, j: nat)
    requires i + 2 <= j <= |inp.text| && inp.text[i] == '[' && inp.text[j - 1] == ']'
    requires JsonSyntax.Blank(inp.flags, inp.text, i + 1, j - 1)
    ensures JsonSyntax.Spells(inp, i, j, JArray(NoElements))
  {
    hide JsonSyntax.Blank;
  }

  lemma FilledArray(inp: Input, i: nat, a: nat, b: nat, j: nat, vs: Elements)
    requires i + 2 <= j <= |inp.text| && inp.text[i] == '[' && inp.text[j - 1] == ']'
    requires JsonSyntax.Blank(inp.flags, inp.text, i + 1, a) && JsonSyntax.SpellsElements(inp, a, b, vs)
    requires JsonSyntax.Closing(inp.flags, inp.text, b, j - 1)
    ensures JsonSyntax.Spells(inp, i, j, JArray(vs))
  {
    hide JsonSyntax.Blank, JsonSyntax.Closing;
  }

  lemma ObjectSent(ms: Members, es: seq<Event>)
    requires SameAll(es, SentMembers(ms))
    ensures SameAll([StartObject] + es + [EndObject(MemberCount(ms) % SIZE_LIMIT)], Sent(JObject(ms)))
  {
    hide SentMembers;
    SameAppend([StartObject], [StartObject], es, SentMembers(ms));
  }

  lemma ArraySent(vs: Elements, es: seq<Event>)
    requires SameAll(es, SentElements(vs))
    ensures SameAll([StartArray] + es + [EndArray(ElementCount(vs) % SIZE_LIMIT)], Sent(JArray(vs)))
  {
    hide SentElements;
    SameAppend([StartArray], [StartArray], es, SentElements(vs));
  }

  lemma {:induction false} EmitsObject(inp: Input, c: Cursor) returns (v: Json, es: seq<Event>)
    requires Within(inp, c) && Peek(inp.text, c.pos) == '{' && ParseObject(inp, c).Good?
    ensures ParseObject(inp, c).at.events == c.events + es && SameAll(es, Sent(v))
    ensures JsonSyntax.Spells(inp, c.pos, ParseObject(inp, c).at.pos, v)
    decreases |inp.text| - c.pos, 3
  {
    hide MemberFrom, Skip, Sent, JsonSyntax.Blank, JsonSyntax.Spells, JsonSyntax.SpellsMembers, JsonSyntax.Closing;
    var c1 := Emit(inp, Take(c), StartObject).at;
    var c2 := Skip(inp, c1).at;
    assert ParseObject(inp, c) == ObjectInitial(inp, c2);
    var ms, more, j := NoMembers, [], ParseObject(inp, c).at.pos;
    if Peek(inp.text, c2.pos) == '}' {
      SkippedBefore(inp, c1);
      EmptyObject(inp, c.pos, j);
    } else {
      var b;
      ms, more, b := EmitsMembers(inp, c2, 0);
      NameBegins(inp, c2, 0);
      SkippedBefore(inp, c1);
      FilledObject(inp, c.pos, c2.pos, b, j, ms);
    }
    v, es := JObject(ms), [StartObject] + more + [EndObject(MemberCount(ms) % SIZE_LIMIT)];
    ObjectSent(ms, more);
    assert c.events + [StartObject] + more + [EndObject(MemberCount(ms) % SIZE_LIMIT)] == c.events + es;
  }

  lemma NameBegins(inp: Input, c: Cursor, count: nat)
    requires Within(inp, c) && MemberFrom(inp, c, count).Good?
    ensures Peek(inp.text, c.pos) == '\"'
  {
    hide ParseString, Skip, AfterName;
  }

  /** Behind a member: the object ends, or another member follows. */
  lemma MemberEnd(inp: Input, b: nat, c: Cursor, count: nat) returns (last: bool, next: Cursor)
    requires Within(inp, c) && AfterMember(inp, c, Wrapped(count)).Good?
    requires JsonSyntax.Blank(inp.flags, inp.text, b, c.pos)
    ensures var r := AfterMember(inp, c, Wrapped(count)).at;
            if last then
              r.events == c.events + [EndObject(Wrapped(count + 1))] && r.pos > 0 && inp.text[r.pos - 1] == '}'
              && JsonSyntax.Closing(inp.flags, inp.text, b, r.pos - 1)
            else
              c.pos < next.pos <= |inp.text| && next.events == c.events
              && AfterMember(inp, c, Wrapped(count)) == MemberFrom(inp, next, Wrapped(count + 1))
              && JsonSyntax.CommaAt(inp.flags, inp.text, b, next.pos)
  {
    hide MemberFrom, Skip, JsonSyntax.Blank, JsonSyntax.CommaAt;
    NextWraps(count);
    last, next := true, c;
    if Peek(inp.text, c.pos) == ',' {
      next := Skip(inp, Take(c)).at;
      last := inp.flags.trailingCommas && Peek(inp.text, next.pos) == '}';
      if !last { NameBegins(inp, next, Wrapped(count + 1)); }
      CommaBetween(inp, b, c);
    }
  }

  function Wrapped(count: nat): nat { count % SIZE_LIMIT }

  lemma NextWraps(count: nat)
    ensures Next(Wrapped(count)) == Wrapped(count + 1)
  {
  }

  /** From a name to the closing brace; count members came before.  The last member ends at b. */
  lemma {:induction false} EmitsMembers(inp: Input, c: Cursor, count: nat)
    returns (ms: Members, es: seq<Event>, b: nat)
    requires Within(inp, c) && MemberFrom(inp, c, Wrapped(count)).Good?
    ensures var r := MemberFrom(inp, c, Wrapped(count)).at;
            && r.events == c.events + es + [EndObject(Wrapped(count + MemberCount(ms)))]
            && SameAll(es, SentMembers(ms)) && JsonSyntax.SpellsMembers(inp, c.pos, b, ms)
            && r.pos > 0 && inp.text[r.pos - 1] == '}' && JsonSyntax.Closing(inp.flags, inp.text, b, r.pos - 1)
    decreases |inp.text| - c.pos, 2
  {
    hide MemberFrom, AfterMember, SameAll, Sent, JsonSyntax.NameAt, JsonSyntax.Spells, JsonSyntax.Closing,
         JsonSyntax.CommaAt, JsonSyntax.Blank, Wrapped;
    var name, value, es1, a, d, c1 := EmitsMember(inp, c, Wrapped(count));
    var last, c2 := MemberEnd(inp, d, c1, count);
    var rest, more := NoMembers, [];
    b := d;
    SameSelf([]);
    if !last {
      rest, more, b := EmitsMembers(inp, c2, count + 1);
    }
    ms, es := Member(name, value, rest), es1 + more;
    SameAppend(es1, [Key(name)] + Sent(value), more, SentMembers(rest));
    assert c.events + es1 + more == c.events + es;
    assert JsonSyntax.NameAt(inp.flags, inp.text, c.pos, a, ms.name);
  }

  /** A name and its colon. */
  lemma NameParts(inp: Input, c: Cursor, count: nat) returns (name: string, next: Cursor)
    requires Within(inp, c) && MemberFrom(inp, c, count).Good?
    ensures c.pos < next.pos <= |inp.text| && next.events == c.events + [Key(name)]
    ensures MemberFrom(inp, c, count) == AfterColon(inp, next, count) && AfterColon(inp, next, count).Good?
    ensures JsonSyntax.Blank(inp.flags, inp.text, next.pos, next.pos)
    ensures JsonSyntax.NameAt(inp.flags, inp.text, c.pos, next.pos, name)
  {
    hide Skip, AfterColon, ParseString, JsonSyntax.StringAt, JsonSyntax.Blank;
    name := EmitsString(inp, c, true);
    var c1 := ParseString(inp, c, true).at;
    var c2 := Skip(inp, c1).at;
    assert MemberFrom(inp, c, count) == AfterName(inp, c2, count);
    next := Skip(inp, Take(c2)).at;
    ColonBegins(inp, next, count);
    SkippedBefore(inp, c1);
    SkippedBefore(inp, Take(c2));
    NoBlank(inp.flags, inp.text, next.pos);
  }

  lemma ColonBegins(inp: Input, c: Cursor, count: nat)
    requires Within(inp, c) && AfterColon(inp, c, count).Good?
    ensures Peek(inp.text, c.pos) != '\0'
  {
    hide ParseValue, Skip, AfterMember;
    ValueBegins(inp, c);
  }

  lemma ValueParts(inp: Input, c: Cursor, count: nat) returns (next: Cursor)
    requires Within(inp, c) && AfterColon(inp, c, count).Good?
    ensures ParseValue(inp, c).Good? && next.events == ParseValue(inp, c).at.events && c.pos < next.pos <= |inp.text|
    ensures AfterColon(inp, c, count) == AfterMember(inp, next, count)
    ensures JsonSyntax.Blank(inp.flags, inp.text, ParseValue(inp, c).at.pos, next.pos)
  {
    hide ParseValue, Skip, JsonSyntax.Blank;
    next := Skip(inp, ParseValue(inp, c).at).at;
    assert AfterColon(inp, c, count) == AfterMember(inp, next, count);
    SkippedBefore(inp, ParseValue(inp, c).at);
  }

  /** A name and its value, which lies at a..b, up to what follows them. */
  lemma {:induction false} EmitsMember(inp: Input, c: Cursor, count: nat)
    returns (name: string, value: Json, es: seq<Event>, a: nat, b: nat, next: Cursor)
    requires Within(inp, c) && MemberFrom(inp, c, count).Good?
    ensures c.pos < next.pos <= |inp.text| && next.events == c.events + es
    ensures MemberFrom(inp, c, count) == AfterMember(inp, next, count)
    ensures SameAll(es, [Key(name)] + Sent(value))
    ensures JsonSyntax.NameAt(inp.flags, inp.text, c.pos, a, name) && JsonSyntax.Spells(inp, a, b, value)
    ensures JsonSyntax.Blank(inp.flags, inp.text, b, next.pos)
    decreases |inp.text| - c.pos, 1
  {
    hide MemberFrom, AfterColon, AfterMember, ParseValue, Sent, JsonSyntax.NameAt, JsonSyntax.Spells, JsonSyntax.Blank;
    var c1;
    name, c1 := NameParts(inp, c, count);
    next := ValueParts(inp, c1, count);
    var es1;
    value, es1 := EmitsValue(inp, c1);
    a, b := c1.pos, ParseValue(inp, c1).at.pos;
    es := [Key(name)] + es1;
    SameAppend([Key(name)], [Key(name)], es1, Sent(value));
    assert c.events + [Key(name)] + es1 == c.events + es;
  }

  lemma {:induction false} EmitsArray(inp: Input, c: Cursor) returns (v: Json, es: seq<Event>)
    requires Within(inp, c) && Peek(inp.text, c.pos) == '[' && ParseArray(inp, c).Good?
    ensures ParseArray(inp, c).at.events == c.events + es && SameAll(es, Sent(v))
    ensures JsonSyntax.Spells(inp, c.pos, ParseArray(inp, c).at.pos, v)
    decreases |inp.text| - c.pos, 3
  {
    hide ElementFrom, Skip, Sent, JsonSyntax.Blank, JsonSyntax.Spells, JsonSyntax.SpellsElements, JsonSyntax.Closing;
    var c1 := Emit(inp, Take(c), StartArray).at;
    var c2 := Skip(inp, c1).at;
    assert ParseArray(inp, c) == ArrayInitial(inp, c2);
    var vs, more, j := NoElements, [], ParseArray(inp, c).at.pos;
    if Peek(inp.text, c2.pos) == ']' {
      SkippedBefore(inp, c1);
      EmptyArray(inp, c.pos, j);
    } else {
      var b;
      vs, more, b := EmitsElements(inp, c2, 0);
      ElementBegins(inp, c2, 0);
      SkippedBefore(inp, c1);
      FilledArray(inp, c.pos, c2.pos, b, j, vs);
    }
    v, es := JArray(vs), [StartArray] + more + [EndArray(ElementCount(vs) % SIZE_LIMIT)];
    ArraySent(vs, more);
    assert c.events + [StartArray] + more + [EndArray(ElementCount(vs) % SIZE_LIMIT)] == c.events + es;
  }

  lemma ElementBegins(inp: Input, c: Cursor, count: nat)
    requires Within(inp, c) && ElementFrom(inp, c, count).Good?
    ensures Peek(inp.text, c.pos) != '\0'
  {
    hide ParseValue, Skip, AfterElement;
    ValueBegins(inp, c);
  }

  /** Behind an element: the array ends, or another element follows. */
  lemma ElementEnd(inp: Input, b: nat, c: Cursor, count: nat) returns (last: bool, next: Cursor)
    requires Within(inp, c) && AfterElement(inp, c, Wrapped(count)).Good?
    requires JsonSyntax.Blank(inp.flags, inp.text, b, c.pos)
    ensures var r := AfterElement(inp, c, Wrapped(count)).at;
            if last then
              r.events == c.events + [EndArray(Wrapped(count + 1))] && r.pos > 0 && inp.text[r.pos - 1] == ']'
              && JsonSyntax.Closing(inp.flags, inp.text, b, r.pos - 1)
            else
              c.pos < next.pos <= |inp.text| && next.events == c.events
              && AfterElement(inp, c, Wrapped(count)) == ElementFrom(inp, next, Wrapped(count + 1))
              && JsonSyntax.CommaAt(inp.flags, inp.text, b, next.pos)
  {
    hide ElementFrom, Skip, JsonSyntax.Blank, JsonSyntax.CommaAt;
    NextWraps(count);
    last, next := true, c;
    if Peek(inp.text, c.pos) == ',' {
      next := Skip(inp, Take(c)).at;
      last := inp.flags.trailingCommas && Peek(inp.text, next.pos) == ']';
      if !last { ElementBegins(inp, next, Wrapped(count + 1)); }
      CommaBetween(inp, b, c);
    }
  }

  lemma ElementParts(inp: Input, c: Cursor, count: nat) returns (next: Cursor)
    requires Within(inp, c) && ElementFrom(inp, c, count).Good?
    ensures ParseValue(inp, c).Good? && next.events == ParseValue(inp, c).at.events && c.pos < next.pos <= |inp.text|
    ensures ElementFrom(inp, c, count) == AfterElement(inp, next, count)
    ensures JsonSyntax.Blank(inp.flags, inp.text, ParseValue(inp, c).at.pos, next.pos)
  {
    hide ParseValue, Skip, JsonSyntax.Blank;
    next := Skip(inp, ParseValue(inp, c).at).at;
    assert ElementFrom(inp, c, count) == AfterElement(inp, next, count);
    SkippedBefore(inp, ParseValue(inp, c).at);
  }

  /** From an element to the closing bracket; count elements came before.  The last element ends at b. */
  lemma {:induction false} EmitsElements(inp: Input, c: Cursor, count: nat)
    returns (vs: Elements, es: seq<Event>, b: nat)
    requires Within(inp, c) && ElementFrom(inp, c, Wrapped(count)).Good?
    ensures var r := ElementFrom(inp, c, Wrapped(count)).at;
            && r.events == c.events + es + [EndArray(Wrapped(count + ElementCount(vs)))]
            && SameAll(es, SentElements(vs)) && JsonSyntax.SpellsElements(inp, c.pos, b, vs)
            && r.pos > 0 && inp.text[r.pos - 1] == ']' && JsonSyntax.Closing(inp.flags, inp.text, b, r.pos - 1)
    decreases |inp.text| - c.pos, 5
  {
    hide ElementFrom, AfterElement, ParseValue, SameAll, Sent, JsonSyntax.Spells, JsonSyntax.Closing,
         JsonSyntax.CommaAt, JsonSyntax.Blank, Wrapped;
    var c1 := ElementParts(inp, c, Wrapped(count));
    var value, es1 := EmitsValue(inp, c);
    var d := ParseValue(inp, c).at.pos;
    var last, c2 := ElementEnd(inp, d, c1, count);
    var rest, more := NoElements, [];
    b := d;
    SameSelf([]);
    if !last {
      rest, more, b := EmitsElements(inp, c2, count + 1);
    }
    vs, es := Element(value, rest), es1 + more;
    SameAppend(es1, Sent(value), more, SentElements(rest));
    assert c.events + es1 + more == c.events + es;
  }

  // ---------------------------------------------------------------- texts

  /** Whatever may stand behind the root. */
  lemma RootEnds(inp: Input, c: Cursor)
    requires Within(inp, c) && AfterRoot(inp, c).Good? && !inp.flags.stopWhenDone
    ensures var e := AfterRoot(inp, c).at;
            e.events == c.events && JsonSyntax.Tail(inp.flags, inp.text, c.pos, e.pos)
            && e.pos <= |inp.text| && Peek(inp.text, e.pos) == '\0'
  {
    hide JsonSyntax.Tail;
    SkipIs(inp, c);
    SkippedIsBlank(inp.flags, inp.text, c.pos);
  }

  /** Every accepted text stands for one value, which it spells: the events sent are those of that value. */
  lemma AcceptedIsWellFormed(inp: Input) returns (v: Json)
    requires ParseText(inp).Good?
    ensures SameAll(ParseText(inp).at.events, Sent(v))
    ensures |inp.text| < SIZE_LIMIT ==> Describes(ParseText(inp).at.events, v, true)
    ensures if inp.flags.stopWhenDone then JsonSyntax.SpellsFront(inp, v, ParseText(inp).at.pos)
            else JsonSyntax.SpellsText(inp, v) && ParseText(inp).at.pos == JsonSyntax.TextEnd(inp.text, 0)
  {
    hide ParseValue, Skip, Sent, SameAll, AfterRoot, JsonSyntax.Blank, JsonSyntax.Spells, JsonSyntax.Tail;
    var c := Skip(inp, Cursor(0, [])).at;
    var es;
    v, es := EmitsValue(inp, c);
    SkippedBefore(inp, Cursor(0, []));
    var c1 := ParseValue(inp, c).at;
    assert ParseText(inp) == AfterRoot(inp, c1);
    assert [] + es == es;
    if |inp.text| < SIZE_LIMIT { SpellsFits(inp, c.pos, c1.pos, v); }
    if inp.flags.stopWhenDone {
      StopsAtRoot(inp, c1);
    } else {
      RootEnds(inp, c1);
      TextEnds(inp, c.pos, c1.pos, v, AfterRoot(inp, c1).at.pos);
    }
  }

  lemma StopsAtRoot(inp: Input, c: Cursor)
    requires Within(inp, c) && inp.flags.stopWhenDone
    ensures AfterRoot(inp, c) == Good(c)
  {
  }
}
