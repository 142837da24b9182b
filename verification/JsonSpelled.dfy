/**
 What spells a JSON value is accepted, by both parsers; so the readers accept exactly JSON.  A handler that refuses
 nothing is assumed where acceptance is claimed.
 */
module JsonSpelled {
  import opened JsonGrammar
  import opened JsonValue
  import opened JsonLexis
  import opened JsonSpelling
  import opened JsonWellFormed
  import opened JsonRoundTrip
  import JsonMachine
  import S = JsonSyntax

  lemma EmitGood(inp: Input, c: Cursor, e: Event)
    requires AcceptsAll(inp)
    ensures Emit(inp, c, e) == Good(c.(events := c.events + [e]))
  {
  }

  // ---------------------------------------------------------------- between tokens

  /** Neither blanks nor a comma go on a number. */
  lemma BlankEnds(flags: Flags, t: string, i: nat, j: nat)
    requires S.Blank(flags, t, i, j) && Ends(Peek(t, j))
    ensures Ends(Peek(t, i))
  {
  }

  lemma CommaEnds(flags: Flags, t: string, i: nat, j: nat)
    requires S.CommaAt(flags, t, i, j)
    ensures Ends(Peek(t, i))
  {
    hide S.Blank;
    var k: nat :| k < |t| && S.Blank(flags, t, i, k) && t[k] == ',' && S.Blank(flags, t, k + 1, j);
    BlankEnds(flags, t, i, k);
  }

  lemma ClosingEnds(flags: Flags, t: string, i: nat, j: nat)
    requires S.Closing(flags, t, i, j) && Ends(Peek(t, j))
    ensures Ends(Peek(t, i))
  {
    hide S.Blank, S.CommaAt;
    if S.Blank(flags, t, i, j) { BlankEnds(flags, t, i, j); } else { CommaEnds(flags, t, i, j); }
  }

  /** A comma is taken with the blanks around it. */
  lemma CommaTaken(inp: Input, c: Cursor, j: nat) returns (at: Cursor)
    requires S.CommaAt(inp.flags, inp.text, c.pos, j) && StopsBlank(inp.flags, Peek(inp.text, j))
    ensures Within(inp, c) && Skip(inp, c) == Good(at) && at.pos < |inp.text| && inp.text[at.pos] == ','
    ensures Skip(inp, Take(at)) == Good(c.(pos := j))
  {
    hide S.Blank, Skip;
    var k: nat :| k < |inp.text| && S.Blank(inp.flags, inp.text, c.pos, k) && inp.text[k] == ','
                  && S.Blank(inp.flags, inp.text, k + 1, j);
    SkipsBlank(inp, c, k);
    at := c.(pos := k);
    SkipsBlank(inp, Take(at), j);
  }

  // ---------------------------------------------------------------- scalars

  /** How a value begins. */
  predicate Begins(c: char) {
    c == '{' || c == '[' || c == '\"' || c == 'n' || c == 't' || c == 'f' || c == '-' || IsDigit(c)
  }

  lemma ValueBeginsSo(inp: Input, i: nat, j: nat, v: Json)
    requires S.Spells(inp, i, j, v)
    ensures Begins(Peek(inp.text, i)) && (forall flags: Flags :: StopsBlank(flags, Peek(inp.text, i)))
    ensures v.JObject? <==> Peek(inp.text, i) == '{'
    ensures v.JArray? <==> Peek(inp.text, i) == '['
  {
    hide S.Chars, S.Signed, S.SpellsMembers, S.SpellsElements, S.Blank, S.Closing;
    SpellsClean(inp, i, j, v);
    if v.JNull? || v.JBool? { assert inp.text[i..j][0] == inp.text[i]; }
  }

  lemma StringIsRead(inp: Input, c: Cursor, j: nat, str: string, isKey: bool)
    requires AcceptsAll(inp) && S.StringAt(inp.flags, inp.text, c.pos, j, str)
    ensures Within(inp, c)
    ensures ParseString(inp, c, isKey) ==
            Good(Cursor(j, c.events + [if isKey then Key(str) else String(str)]))
  {
    hide S.Chars, StringFrom;
    CharsAreRead(inp.flags, inp.text, c.pos + 1, j - 1, str, "");
    assert "" + str == str;
  }

  lemma NumberIsRead(inp: Input, c: Cursor, j: nat, v: Json) returns (e: Event)
    requires AcceptsAll(inp) && S.Spells(inp, c.pos, j, v) && Ends(Peek(inp.text, j)) && (v.JNumber? || v.JDouble?)
    ensures Within(inp, c)
    ensures ParseNumber(inp, c) == Good(Cursor(j, c.events + [e])) && SameAll([e], Sent(v))
  {
    hide ParseNumber, S.Signed, Decimal, IntegerEvent, S.RealAt, S.IntegerPart;
    if v.JNumber? {
      IntegerIsRead(inp, c, j, v.value);
      var minus, n := S.Minus(inp.text, c.pos), Decimal(inp.text, S.BehindMinus(inp.text, c.pos), j);
      IntegerDescribed(minus, n);
      e := IntegerEvent(minus, n).value;
    } else {
      RealIsRead(inp, c, j);
      e := Double(inp.text[c.pos..j]);
    }
  }

  lemma ScalarIsRead(inp: Input, c: Cursor, j: nat, v: Json) returns (e: Event)
    requires AcceptsAll(inp) && S.Spells(inp, c.pos, j, v) && Ends(Peek(inp.text, j)) && !v.JObject? && !v.JArray?
    ensures Within(inp, c)
    ensures ParseScalar(inp, c) == Good(Cursor(j, c.events + [e])) && SameAll([e], Sent(v))
  {
    hide ParseNumber, ParseString, S.StringAt, S.IntegerAt, S.RealAt;
    SpellsClean(inp, c.pos, j, v);
    match v
    case JNull =>
      e := Null;
      WordIsRead(inp, c, j, "null", e);
    case JBool(b) =>
      e := Bool(b);
      WordIsRead(inp, c, j, if b then "true" else "false", e);
    case JString(str) =>
      e := String(str);
      StringIsRead(inp, c, j, str, false);
      StringBegins(inp, c.pos, j, str);
    case _ =>
      e := NumberIsRead(inp, c, j, v);
      NumberBegins(inp, c.pos, j, v);
  }

  lemma StringBegins(inp: Input, i: nat, j: nat, str: string)
    requires S.StringAt(inp.flags, inp.text, i, j, str)
    ensures Peek(inp.text, i) == '\"'
  {
  }

  lemma NumberBegins(inp: Input, i: nat, j: nat, v: Json)
    requires S.Spells(inp, i, j, v) && (v.JNumber? || v.JDouble?)
    ensures Peek(inp.text, i) == '-' || IsDigit(Peek(inp.text, i))
  {
    hide S.Signed;
  }

  lemma WordIsRead(inp: Input, c: Cursor, j: nat, word: string, e: Event)
    requires AcceptsAll(inp) && S.Reads(inp.text, c.pos, j, word) && word != ""
    ensures ParseLiteral(inp, c, word, e) == Good(Cursor(j, c.events + [e])) && Peek(inp.text, c.pos) == word[0]
  {
  }

  // ---------------------------------------------------------------- values

  /** What is spelled is read to its end, and described by what is sent. */
  lemma {:induction false} ValueIsRead(inp: Input, c: Cursor, j: nat, v: Json) returns (es: seq<Event>)
    requires AcceptsAll(inp) && S.Spells(inp, c.pos, j, v) && Ends(Peek(inp.text, j))
    ensures Within(inp, c)
    ensures ParseValue(inp, c) == Good(Cursor(j, c.events + es)) && SameAll(es, Sent(v))
    decreases v, 2
  {
    hide ParseObject, ParseArray, ParseScalar, S.Spells, Sent;
    SpellsClean(inp, c.pos, j, v);
    ValueBeginsSo(inp, c.pos, j, v);
    match v
    case JObject(ms) => es := ObjectIsRead(inp, c, j, ms);
    case JArray(vs) => es := ArrayIsRead(inp, c, j, vs);
    case _ =>
      var e := ScalarIsRead(inp, c, j, v);
      es := [e];
  }

  lemma Regrouped(a: seq<Event>, b: seq<Event>, es: seq<Event>, d: seq<Event>)
    ensures a + b + es + d == a + (b + es + d)
  {
  }

  lemma {:induction false} ObjectIsRead(inp: Input, c: Cursor, j: nat, ms: Members) returns (es: seq<Event>)
    requires AcceptsAll(inp) && S.Spells(inp, c.pos, j, JObject(ms))
    ensures Within(inp, c) && Peek(inp.text, c.pos) == '{'
    ensures ParseObject(inp, c) == Good(Cursor(j, c.events + es)) && SameAll(es, Sent(JObject(ms)))
    decreases ms, 1
  {
    hide MemberFrom, Skip, S.Blank, S.Closing, S.SpellsMembers, Sent;
    var c1 := Cursor(c.pos + 1, c.events + [StartObject]);
    EmitGood(inp, Take(c), StartObject);
    var more := [];
    if ms.NoMembers? {
      SkipsBlank(inp, c1, j - 1);
      EmitGood(inp, c1.(pos := j), EndObject(0));
    } else {
      var a: nat, b: nat :|
        S.Blank(inp.flags, inp.text, c.pos + 1, a) && S.SpellsMembers(inp, a, b, ms)
        && S.Closing(inp.flags, inp.text, b, j - 1);
      MembersBegin(inp, a, b, ms);
      SkipsBlank(inp, c1, a);
      more := MembersAreRead(inp, c1.(pos := a), b, j - 1, 0, ms);
    }
    assert ParseObject(inp, c) ==
           Good(Cursor(j, c1.events + more + [EndObject(MemberCount(ms) % SIZE_LIMIT)]));
    es := [StartObject] + more + [EndObject(MemberCount(ms) % SIZE_LIMIT)];
    Regrouped(c.events, [StartObject], more, [EndObject(MemberCount(ms) % SIZE_LIMIT)]);
    NothingSent();
    ObjectSent(ms, more);
  }

  lemma NothingSent()
    ensures SentMembers(NoMembers) == [] && SentElements(NoElements) == [] && SameAll([], [])
  {
  }

  lemma MembersBegin(inp: Input, i: nat, j: nat, ms: Members)
    requires S.SpellsMembers(inp, i, j, ms)
    ensures Peek(inp.text, i) == '\"'
  {
    hide S.Chars, S.Spells, S.CommaAt, S.Blank;
  }

  lemma ElementsBegin(inp: Input, i: nat, j: nat, vs: Elements)
    requires S.SpellsElements(inp, i, j, vs)
    ensures Begins(Peek(inp.text, i)) && StopsBlank(inp.flags, Peek(inp.text, i))
  {
    hide S.Spells, S.CommaAt;
    var b: nat :|
      S.Spells(inp, i, b, vs.first)
      && if vs.rest.NoElements? then b == j
         else exists c: nat :: S.CommaAt(inp.flags, inp.text, b, c) && S.SpellsElements(inp, c, j, vs.rest);
    ValueBeginsSo(inp, i, b, vs.first);
  }

  /** A name, its colon and the blanks up to the value. */
  lemma NameIsRead(inp: Input, c: Cursor, a: nat, name: string, count: nat)
    requires AcceptsAll(inp) && S.NameAt(inp.flags, inp.text, c.pos, a, name)
    requires StopsBlank(inp.flags, Peek(inp.text, a))
    ensures Within(inp, c) && a <= |inp.text|
    ensures MemberFrom(inp, c, count) == AfterColon(inp, Cursor(a, c.events + [Key(name)]), count)
  {
    hide S.StringAt, S.Blank, Skip, AfterColon, ParseString;
    var k: nat, m: nat :|
      m < |inp.text| && S.StringAt(inp.flags, inp.text, c.pos, k, name) && S.Blank(inp.flags, inp.text, k, m)
      && inp.text[m] == ':' && S.Blank(inp.flags, inp.text, m + 1, a);
    StringIsRead(inp, c, k, name, true);
    StringBegins(inp, c.pos, k, name);
    var c1 := Cursor(k, c.events + [Key(name)]);
    SkipsBlank(inp, c1, m);
    SkipsBlank(inp, Take(c1.(pos := m)), a);
    assert MemberFrom(inp, c, count) == AfterName(inp, c1.(pos := m), count);
  }

  /** Behind the last value: the closing brace, blanks and perhaps a comma before it. */
  lemma ObjectCloses(inp: Input, c: Cursor, e: nat, count: nat) returns (at: Cursor)
    requires AcceptsAll(inp) && S.Closing(inp.flags, inp.text, c.pos, e) && e < |inp.text| && inp.text[e] == '}'
    ensures Within(inp, c) && Skip(inp, c) == Good(at) && Within(inp, at)
    ensures AfterMember(inp, at, Wrapped(count)) == Good(Cursor(e + 1, c.events + [EndObject(Wrapped(count + 1))]))
  {
    hide S.Blank, S.CommaAt, Skip, MemberFrom;
    NextWraps(count);
    EmitGood(inp, c.(pos := e + 1), EndObject(Wrapped(count + 1)));
    if S.Blank(inp.flags, inp.text, c.pos, e) {
      SkipsBlank(inp, c, e);
      at := c.(pos := e);
    } else {
      at := CommaTaken(inp, c, e);
    }
  }

  lemma {:induction false} MembersAreRead(inp: Input, c: Cursor, b: nat, e: nat, count: nat, ms: Members)
    returns (es: seq<Event>)
    requires AcceptsAll(inp) && S.SpellsMembers(inp, c.pos, b, ms) && S.Closing(inp.flags, inp.text, b, e)
    requires e < |inp.text| && inp.text[e] == '}'
    ensures Within(inp, c) && SameAll(es, SentMembers(ms))
    ensures MemberFrom(inp, c, Wrapped(count)) ==
            Good(Cursor(e + 1, c.events + es + [EndObject(Wrapped(count + MemberCount(ms)))]))
    decreases ms, 0
  {
    hide S.NameAt, S.Spells, S.CommaAt, S.Closing, S.Blank, MemberFrom, ParseValue, Skip, AfterMember, Sent, Wrapped;
    var a: nat, d: nat :|
      S.NameAt(inp.flags, inp.text, c.pos, a, ms.name) && S.Spells(inp, a, d, ms.value)
      && if ms.more.NoMembers? then d == b
         else exists f: nat :: S.CommaAt(inp.flags, inp.text, d, f) && S.SpellsMembers(inp, f, b, ms.more);
    ValueBeginsSo(inp, a, d, ms.value);
    NameIsRead(inp, c, a, ms.name, Wrapped(count));
    var c1 := Cursor(a, c.events + [Key(ms.name)]);
    var f: nat := d;
    if ms.more.NoMembers? {
      ClosingEnds(inp.flags, inp.text, d, e);
    } else {
      f :| S.CommaAt(inp.flags, inp.text, d, f) && S.SpellsMembers(inp, f, b, ms.more);
      CommaEnds(inp.flags, inp.text, d, f);
    }
    var es1 := ValueIsRead(inp, c1, d, ms.value);
    var c2 := Cursor(d, c1.events + es1);
    var more := MemberGoesOn(inp, c2, f, b, e, count, ms);
    es := [Key(ms.name)] + es1 + more;
    SameAppend([Key(ms.name)], [Key(ms.name)], es1, Sent(ms.value));
    SameAppend([Key(ms.name)] + es1, [Key(ms.name)] + Sent(ms.value), more, SentMembers(ms.more));
    assert c.events + [Key(ms.name)] + es1 + more == c.events + es;
  }

  /** Behind the value of the first member: the rest, or the end. */
  lemma {:induction false} MemberGoesOn(inp: Input, c: Cursor, f: nat, b: nat, e: nat, count: nat, ms: Members)
    returns (more: seq<Event>)
    requires AcceptsAll(inp) && ms.Member? && S.Closing(inp.flags, inp.text, b, e)
    requires e < |inp.text| && inp.text[e] == '}'
    requires if ms.more.NoMembers? then c.pos == b
             else S.CommaAt(inp.flags, inp.text, c.pos, f) && S.SpellsMembers(inp, f, b, ms.more)
    ensures Within(inp, c) && Skip(inp, c).Good? && SameAll(more, SentMembers(ms.more))
    ensures AfterMember(inp, Skip(inp, c).at, Wrapped(count)) ==
            Good(Cursor(e + 1, c.events + more + [EndObject(Wrapped(count + MemberCount(ms)))]))
    decreases ms.more, 1
  {
    hide S.SpellsMembers, S.CommaAt, S.Closing, MemberFrom, Skip, Sent;
    NothingSent();
    more := [];
    if ms.more.NoMembers? {
      var at := ObjectCloses(inp, c, e, count);
      assert c.events + [] == c.events;
    } else {
      MembersBegin(inp, f, b, ms.more);
      var at := CommaTaken(inp, c, f);
      NextWraps(count);
      hide Wrapped;
      more := MembersAreRead(inp, c.(pos := f), b, e, count + 1, ms.more);
    }
  }

  // ---------------------------------------------------------------- arrays

  lemma {:induction false} ArrayIsRead(inp: Input, c: Cursor, j: nat, vs: Elements) returns (es: seq<Event>)
    requires AcceptsAll(inp) && S.Spells(inp, c.pos, j, JArray(vs))
    ensures Within(inp, c) && Peek(inp.text, c.pos) == '['
    ensures ParseArray(inp, c) == Good(Cursor(j, c.events + es)) && SameAll(es, Sent(JArray(vs)))
    decreases vs, 1
  {
    hide ElementFrom, Skip, S.Blank, S.Closing, S.SpellsElements, Sent;
    var c1 := Cursor(c.pos + 1, c.events + [StartArray]);
    EmitGood(inp, Take(c), StartArray);
    var more := [];
    if vs.NoElements? {
      SkipsBlank(inp, c1, j - 1);
      EmitGood(inp, c1.(pos := j), EndArray(0));
    } else {
      var a: nat, b: nat :|
        S.Blank(inp.flags, inp.text, c.pos + 1, a) && S.SpellsElements(inp, a, b, vs)
        && S.Closing(inp.flags, inp.text, b, j - 1);
      ElementsBegin(inp, a, b, vs);
      SkipsBlank(inp, c1, a);
      more := ElementsAreRead(inp, c1.(pos := a), b, j - 1, 0, vs);
    }
    assert ParseArray(inp, c) ==
           Good(Cursor(j, c1.events + more + [EndArray(ElementCount(vs) % SIZE_LIMIT)]));
    es := [StartArray] + more + [EndArray(ElementCount(vs) % SIZE_LIMIT)];
    Regrouped(c.events, [StartArray], more, [EndArray(ElementCount(vs) % SIZE_LIMIT)]);
    NothingSent();
    ArraySent(vs, more);
  }

  /** Behind the last element: the closing bracket, blanks and perhaps a comma before it. */
  lemma ArrayCloses(inp: Input, c: Cursor, e: nat, count: nat) returns (at: Cursor)
    requires AcceptsAll(inp) && S.Closing(inp.flags, inp.text, c.pos, e) && e < |inp.text| && inp.text[e] == ']'
    ensures Within(inp, c) && Skip(inp, c) == Good(at) && Within(inp, at)
    ensures AfterElement(inp, at, Wrapped(count)) == Good(Cursor(e + 1, c.events + [EndArray(Wrapped(count + 1))]))
  {
    hide S.Blank, S.CommaAt, Skip, ElementFrom;
    NextWraps(count);
    EmitGood(inp, c.(pos := e + 1), EndArray(Wrapped(count + 1)));
    if S.Blank(inp.flags, inp.text, c.pos, e) {
      SkipsBlank(inp, c, e);
      at := c.(pos := e);
    } else {
      at := CommaTaken(inp, c, e);
    }
  }

  lemma {:induction false} ElementsAreRead(inp: Input, c: Cursor, b: nat, e: nat, count: nat, vs: Elements)
    returns (es: seq<Event>)
    requires AcceptsAll(inp) && S.SpellsElements(inp, c.pos, b, vs) && S.Closing(inp.flags, inp.text, b, e)
    requires e < |inp.text| && inp.text[e] == ']'
    ensures Within(inp, c) && SameAll(es, SentElements(vs))
    ensures ElementFrom(inp, c, Wrapped(count)) ==
            Good(Cursor(e + 1, c.events + es + [EndArray(Wrapped(count + ElementCount(vs)))]))
    decreases vs, 0
  {
    hide S.Spells, S.CommaAt, S.Closing, S.Blank, ParseValue, Skip, AfterElement, Sent, Wrapped;
    var d: nat :|
      S.Spells(inp, c.pos, d, vs.first)
      && if vs.rest.NoElements? then d == b
         else exists f: nat :: S.CommaAt(inp.flags, inp.text, d, f) && S.SpellsElements(inp, f, b, vs.rest);
    var f: nat := d;
    if vs.rest.NoElements? {
      ClosingEnds(inp.flags, inp.text, d, e);
    } else {
      f :| S.CommaAt(inp.flags, inp.text, d, f) && S.SpellsElements(inp, f, b, vs.rest);
      CommaEnds(inp.flags, inp.text, d, f);
    }
    var es1 := ValueIsRead(inp, c, d, vs.first);
    var c2 := Cursor(d, c.events + es1);
    var more := ElementGoesOn(inp, c2, f, b, e, count, vs);
    es := es1 + more;
    SameAppend(es1, Sent(vs.first), more, SentElements(vs.rest));
    assert c.events + es1 + more == c.events + es;
  }

  /** Behind the first element: the rest, or the end. */
  lemma {:induction false} ElementGoesOn(inp: Input, c: Cursor, f: nat, b: nat, e: nat, count: nat, vs: Elements)
    returns (more: seq<Event>)
    requires AcceptsAll(inp) && vs.Element? && S.Closing(inp.flags, inp.text, b, e)
    requires e < |inp.text| && inp.text[e] == ']'
    requires if vs.rest.NoElements? then c.pos == b
             else S.CommaAt(inp.flags, inp.text, c.pos, f) && S.SpellsElements(inp, f, b, vs.rest)
    ensures Within(inp, c) && Skip(inp, c).Good? && SameAll(more, SentElements(vs.rest))
    ensures AfterElement(inp, Skip(inp, c).at, Wrapped(count)) ==
            Good(Cursor(e + 1, c.events + more + [EndArray(Wrapped(count + ElementCount(vs)))]))
    decreases vs.rest, 1
  {
    hide S.SpellsElements, S.CommaAt, S.Closing, ElementFrom, Skip, Sent;
    NothingSent();
    more := [];
    if vs.rest.NoElements? {
      var at := ArrayCloses(inp, c, e, count);
      assert c.events + [] == c.events;
    } else {
      ElementsBegin(inp, f, b, vs.rest);
      var at := CommaTaken(inp, c, f);
      NextWraps(count);
      hide Wrapped;
      more := ElementsAreRead(inp, c.(pos := f), b, e, count + 1, vs.rest);
    }
  }

  // ---------------------------------------------------------------- texts

  /** What may stand behind the root leads to the end. */
  lemma TailIsRead(inp: Input, c: Cursor, e: nat)
    requires S.Tail(inp.flags, inp.text, c.pos, e) && Peek(inp.text, e) == '\0' && !inp.flags.stopWhenDone
    ensures Within(inp, c) && e <= |inp.text| && AfterRoot(inp, c) == Good(c.(pos := e)) && Ends(Peek(inp.text, c.pos))
  {
    hide S.Blank, Skip, SkipFrom;
    if S.Blank(inp.flags, inp.text, c.pos, e) {
      SkipsBlank(inp, c, e);
      BlankEnds(inp.flags, inp.text, c.pos, e);
    } else {
      var k: nat :| S.Blank(inp.flags, inp.text, c.pos, k) && S.OpenComment(inp.text, k, e);
      OpenIsSkipped(inp, c, k, e);
      BlankEnds(inp.flags, inp.text, c.pos, k);
    }
  }

  lemma {:induction false} OpenIsSkipped(inp: Input, c: Cursor, k: nat, e: nat)
    requires S.Blank(inp.flags, inp.text, c.pos, k) && S.OpenComment(inp.text, k, e) && Peek(inp.text, e) == '\0'
    requires inp.flags.comments
    ensures Within(inp, c) && Skip(inp, c) == Good(c.(pos := e))
    decreases k - c.pos
  {
    hide SkipFrom, Skip;
    if c.pos == k {
      LineEndOpen(inp.text, k + 2, k, e);
      OpenAtEnd(inp.flags, inp.text, k, e);
    } else {
      var m: nat :| c.pos < m <= k && S.BlankUnit(inp.flags, inp.text, c.pos, m) && S.Blank(inp.flags, inp.text, m, k);
      UnitSkipped(inp.flags, inp.text, c.pos, m);
      OpenIsSkipped(inp, c.(pos := m), k, e);
      SkipIs(inp, c.(pos := m));
    }
    SkipIs(inp, c);
  }

  /** A value behind blanks that nothing goes on is read as the front of the text. */
  lemma FrontIsRead(inp: Input, v: Json, j: nat)
    requires AcceptsAll(inp) && S.SpellsFront(inp, v, j) && Ends(Peek(inp.text, j))
    ensures exists c: Cursor ::
              Within(inp, c) && c.pos == j && ParseText(inp) == AfterRoot(inp, c) && SameAll(c.events, Sent(v))
  {
    hide S.Blank, S.Spells, Skip, ParseValue, AfterRoot, Sent;
    var i: nat :| S.Blank(inp.flags, inp.text, 0, i) && S.Spells(inp, i, j, v);
    ValueBeginsSo(inp, i, j, v);
    SkipsBlank(inp, Cursor(0, []), i);
    SpellsClean(inp, i, j, v);
    var es := ValueIsRead(inp, Cursor(i, []), j, v);
    assert [] + es == es;
    var c := Cursor(j, es);
    assert ParseText(inp) == AfterRoot(inp, c);
  }

  lemma SpelledIsAccepted(inp: Input, v: Json)
    requires AcceptsAll(inp) && !inp.flags.stopWhenDone && S.SpellsText(inp, v)
    ensures ParseText(inp).Good? && SameAll(ParseText(inp).at.events, Sent(v))
    ensures |inp.text| < SIZE_LIMIT ==> Describes(ParseText(inp).at.events, v, true)
  {
    hide S.Blank, S.Spells, S.Tail, ParseText, AfterRoot, Sent, SameAll;
    var i: nat, j: nat :|
      S.Blank(inp.flags, inp.text, 0, i) && S.Spells(inp, i, j, v)
      && S.Tail(inp.flags, inp.text, j, S.TextEnd(inp.text, 0));
    TailIsRead(inp, Cursor(j, []), S.TextEnd(inp.text, 0));
    FrontIsRead(inp, v, j);
    var c: Cursor :|
      Within(inp, c) && c.pos == j && ParseText(inp) == AfterRoot(inp, c) && SameAll(c.events, Sent(v));
    TailIsRead(inp, c, S.TextEnd(inp.text, 0));
    if |inp.text| < SIZE_LIMIT { SpellsFits(inp, i, j, v); }
  }

  /** With kParseStopWhenDoneFlag what stands behind the root does not matter, if it does not go on a number. */
  lemma FrontIsAccepted(inp: Input, v: Json, j: nat)
    requires AcceptsAll(inp) && inp.flags.stopWhenDone && S.SpellsFront(inp, v, j) && Ends(Peek(inp.text, j))
    ensures ParseText(inp).Good? && ParseText(inp).at.pos == j && SameAll(ParseText(inp).at.events, Sent(v))
  {
    hide S.SpellsFront, ParseText, Sent, SameAll;
    FrontIsRead(inp, v, j);
    var c: Cursor :|
      Within(inp, c) && c.pos == j && ParseText(inp) == AfterRoot(inp, c) && SameAll(c.events, Sent(v));
    StopsAtRoot(inp, c);
  }

  /** Without kParseStopWhenDoneFlag, and with a handler that refuses nothing, both readers accept exactly the texts
      that spell a value, and what they send describes every value the text spells. */
  lemma AcceptsExactly(inp: Input)
    requires AcceptsAll(inp) && !inp.flags.stopWhenDone
    ensures ParseText(inp).Good? <==> exists v :: S.SpellsText(inp, v)
    ensures JsonMachine.IterativeText(inp).Good? <==> exists v :: S.SpellsText(inp, v)
    ensures forall v :: S.SpellsText(inp, v) ==>
              SameAll(ParseText(inp).at.events, Sent(v))
              && (|inp.text| < SIZE_LIMIT ==> Describes(ParseText(inp).at.events, v, true))
  {
    hide S.SpellsText, ParseText, Sent, SameAll, Describes, JsonMachine.IterativeText;
    JsonMachine.IterativeIsRecursive(inp);
    if ParseText(inp).Good? { var v := AcceptedIsWellFormed(inp); }
    forall v | S.SpellsText(inp, v)
      ensures ParseText(inp).Good? && SameAll(ParseText(inp).at.events, Sent(v))
      ensures |inp.text| < SIZE_LIMIT ==> Describes(ParseText(inp).at.events, v, true)
    {
      SpelledIsAccepted(inp, v);
    }
  }

  // ---------------------------------------------------------------- the types of integers

  predicate Has32Bits(e: Event) { e.Int? || e.Uint? }

  /** An integer is sent as the type of 32 bits that has its sign, or as the one of 64 bits where that does not hold
      it. */
  lemma IntegerIsSentAs(inp: Input, c: Cursor, j: nat, n: int) returns (e: Event)
    requires AcceptsAll(inp) && S.IntegerAt(inp.text, c.pos, j, n) && Ends(Peek(inp.text, j))
    ensures Within(inp, c) && ParseNumber(inp, c) == Good(Cursor(j, c.events + [e]))
    ensures IsInteger(e) && IntegerValue(e) == n && FitsType(e)
    ensures S.Minus(inp.text, c.pos) <==> e.Int? || e.Int64?
    ensures Has32Bits(e) <==>
            if S.Minus(inp.text, c.pos) then FitsType(Int(n)) else FitsType(Uint(if n >= 0 then n else 0))
  {
    hide ParseNumber, S.Signed, Decimal, S.IntegerPart;
    IntegerIsRead(inp, c, j, n);
    e := IntegerEvent(S.Minus(inp.text, c.pos), Decimal(inp.text, S.BehindMinus(inp.text, c.pos), j)).value;
  }
}
