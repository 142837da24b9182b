/** What is spelled lies inside the text, contains no NUL, and its counts are bounded by its length. */
module JsonSpelling {
  import opened JsonSyntax
  import opened JsonValue

  predicate Clean(t: string, i: nat, j: nat) { i <= j <= |t| && forall k :: i <= k < j ==> t[k] != '\0' }

  lemma CleanAppend(t: string, i: nat, k: nat, j: nat)
    requires Clean(t, i, k) && Clean(t, k, j)
    ensures Clean(t, i, j)
  {
  }

  // ---------------------------------------------------------------- blanks, strings, numbers

  lemma {:induction false} BlankClean(flags: Flags, t: string, i: nat, j: nat)
    requires Blank(flags, t, i, j)
    ensures Clean(t, i, j)
    decreases j - i
  {
    if i < j {
      var k: nat :| i < k <= j && BlankUnit(flags, t, i, k) && Blank(flags, t, k, j);
      BlankClean(flags, t, k, j);
    }
  }

  lemma TailClean(flags: Flags, t: string, i: nat, e: nat)
    requires Tail(flags, t, i, e)
    ensures Clean(t, i, e)
  {
    if Blank(flags, t, i, e) {
      BlankClean(flags, t, i, e);
    } else {
      var k: nat :| Blank(flags, t, i, k) && OpenComment(t, k, e);
      BlankClean(flags, t, i, k);
    }
  }

  lemma CharClean(flags: Flags, t: string, i: nat, j: nat, u: string)
    requires Char(flags, t, i, j, u)
    ensures i < j && Clean(t, i, j)
  {
    hide Octets;
    hide Hex4, ShortEscape;
    HexClean(t, i + 2);
    HexClean(t, i + 8);
    ShortClean(flags);
  }

  lemma ShortClean(flags: Flags)
    ensures forall u :: !ShortEscape(flags, '\0', u)
  {
  }

  lemma HexClean(t: string, i: nat)
    ensures Hex4(t, i) >= 0 ==> Clean(t, i, i + 4)
  {
  }

  lemma {:induction false} CharsClean(flags: Flags, t: string, i: nat, j: nat, str: string)
    requires Chars(flags, t, i, j, str)
    ensures Clean(t, i, j)
    decreases j - i
  {
    hide Char;
    if i < j {
      var k: nat, u: string :| i < k <= j && Char(flags, t, i, k, u) && u <= str && Chars(flags, t, k, j, str[|u|..]);
      CharClean(flags, t, i, k, u);
      CharsClean(flags, t, k, j, str[|u|..]);
    }
  }

  lemma StringClean(flags: Flags, t: string, i: nat, j: nat, str: string)
    requires StringAt(flags, t, i, j, str)
    ensures i < j && Clean(t, i, j)
  {
    hide Chars;
    CharsClean(flags, t, i + 1, j - 1, str);
  }

  lemma RealClean(t: string, i: nat, j: nat)
    requires RealAt(t, i, j)
    ensures i < j && Clean(t, i, j)
  {
    hide Signed;
  }

  lemma CommaClean(flags: Flags, t: string, i: nat, j: nat)
    requires CommaAt(flags, t, i, j)
    ensures i < j && Clean(t, i, j)
  {
    var k: nat :| k < |t| && Blank(flags, t, i, k) && t[k] == ',' && Blank(flags, t, k + 1, j);
    BlankClean(flags, t, i, k);
    BlankClean(flags, t, k + 1, j);
  }

  lemma NameClean(flags: Flags, t: string, i: nat, j: nat, name: string)
    requires NameAt(flags, t, i, j, name)
    ensures i < j && Clean(t, i, j)
  {
    hide StringAt, Blank;
    var k: nat, m: nat :|
      m < |t| && StringAt(flags, t, i, k, name) && Blank(flags, t, k, m) && t[m] == ':' && Blank(flags, t, m + 1, j);
    StringClean(flags, t, i, k, name);
    BlankClean(flags, t, k, m);
    BlankClean(flags, t, m + 1, j);
  }

  lemma ClosingClean(flags: Flags, t: string, i: nat, j: nat)
    requires Closing(flags, t, i, j)
    ensures Clean(t, i, j)
  {
    if Blank(flags, t, i, j) { BlankClean(flags, t, i, j); } else { CommaClean(flags, t, i, j); }
  }

  // ---------------------------------------------------------------- values

  lemma {:induction false} SpellsClean(inp: Input, i: nat, j: nat, v: Json)
    requires Spells(inp, i, j, v)
    ensures i < j && Clean(inp.text, i, j)
    decreases v, 1
  {
    hide SpellsMembers, SpellsElements, Blank, Closing, Clean, StringAt, RealAt;
    match v
    case JString(str) => StringClean(inp.flags, inp.text, i, j, str);
    case JDouble(_) => RealClean(inp.text, i, j);
    case JObject(members) => ObjectClean(inp, i, j, members);
    case JArray(elements) => ArrayClean(inp, i, j, elements);
    case _ => WordClean(inp, i, j, v);
  }

  lemma WordClean(inp: Input, i: nat, j: nat, v: Json)
    requires Spells(inp, i, j, v) && (v.JNull? || v.JBool? || v.JNumber?)
    ensures i < j && Clean(inp.text, i, j)
  {
    if !v.JNumber? {
      var word := inp.text[i..j];
      assert forall k :: i <= k < j ==> inp.text[k] == word[k - i];
    }
  }

  lemma {:induction false} ObjectClean(inp: Input, i: nat, j: nat, ms: Members)
    requires Spells(inp, i, j, JObject(ms))
    ensures i < j && Clean(inp.text, i, j)
    decreases ms, 1
  {
    hide SpellsMembers, Blank, Closing;
    if ms.NoMembers? {
      BlankClean(inp.flags, inp.text, i + 1, j - 1);
    } else {
      var a: nat, b: nat :|
        Blank(inp.flags, inp.text, i + 1, a) && SpellsMembers(inp, a, b, ms) && Closing(inp.flags, inp.text, b, j - 1);
      BlankClean(inp.flags, inp.text, i + 1, a);
      MembersClean(inp, a, b, ms);
      ClosingClean(inp.flags, inp.text, b, j - 1);
    }
  }

  lemma {:induction false} ArrayClean(inp: Input, i: nat, j: nat, es: Elements)
    requires Spells(inp, i, j, JArray(es))
    ensures i < j && Clean(inp.text, i, j)
    decreases es, 1
  {
    hide SpellsElements, Blank, Closing;
    if es.NoElements? {
      BlankClean(inp.flags, inp.text, i + 1, j - 1);
    } else {
      var a: nat, b: nat :|
        Blank(inp.flags, inp.text, i + 1, a) && SpellsElements(inp, a, b, es) && Closing(inp.flags, inp.text, b, j - 1);
      BlankClean(inp.flags, inp.text, i + 1, a);
      ElementsClean(inp, a, b, es);
      ClosingClean(inp.flags, inp.text, b, j - 1);
    }
  }

  lemma {:induction false} MembersClean(inp: Input, i: nat, j: nat, ms: Members)
    requires SpellsMembers(inp, i, j, ms)
    ensures i + MemberCount(ms) <= j && Clean(inp.text, i, j)
    decreases ms, 0
  {
    hide Spells, NameAt, CommaAt;
    var a: nat, b: nat :|
      NameAt(inp.flags, inp.text, i, a, ms.name) && Spells(inp, a, b, ms.value)
      && if ms.more.NoMembers? then b == j
         else exists c: nat :: CommaAt(inp.flags, inp.text, b, c) && SpellsMembers(inp, c, j, ms.more);
    NameClean(inp.flags, inp.text, i, a, ms.name);
    SpellsClean(inp, a, b, ms.value);
    if ms.more.Member? {
      var c: nat :| CommaAt(inp.flags, inp.text, b, c) && SpellsMembers(inp, c, j, ms.more);
      CommaClean(inp.flags, inp.text, b, c);
      MembersClean(inp, c, j, ms.more);
    }
  }

  lemma {:induction false} ElementsClean(inp: Input, i: nat, j: nat, es: Elements)
    requires SpellsElements(inp, i, j, es)
    ensures i + ElementCount(es) <= j && Clean(inp.text, i, j)
    decreases es, 0
  {
    hide Spells, CommaAt;
    var b: nat :|
      Spells(inp, i, b, es.first)
      && if es.rest.NoElements? then b == j
         else exists c: nat :: CommaAt(inp.flags, inp.text, b, c) && SpellsElements(inp, c, j, es.rest);
    SpellsClean(inp, i, b, es.first);
    if es.rest.Element? {
      var c: nat :| CommaAt(inp.flags, inp.text, b, c) && SpellsElements(inp, c, j, es.rest);
      CommaClean(inp.flags, inp.text, b, c);
      ElementsClean(inp, c, j, es.rest);
    }
  }

  // ---------------------------------------------------------------- short texts

  /** In a text of less than 2^32 characters no count wraps. */
  lemma {:induction false} SpellsFits(inp: Input, i: nat, j: nat, v: Json)
    requires Spells(inp, i, j, v) && |inp.text| < SIZE_LIMIT
    ensures Fits(v, true) && Sent(v) == Events(v)
    decreases v, 2
  {
    hide Spells, Fits, Sent, Events;
    match v
    case JObject(ms) => ObjectFits(inp, i, j, ms);
    case JArray(es) => ArrayFits(inp, i, j, es);
    case _ => ScalarFits(inp, i, j, v);
  }

  lemma ScalarFits(inp: Input, i: nat, j: nat, v: Json)
    requires Spells(inp, i, j, v) && !v.JObject? && !v.JArray?
    ensures Fits(v, true) && Sent(v) == Events(v)
  {
    hide StringAt, RealAt, IntegerPart, Signed, Reads, Events;
  }

  lemma {:induction false} ObjectFits(inp: Input, i: nat, j: nat, ms: Members)
    requires Spells(inp, i, j, JObject(ms)) && |inp.text| < SIZE_LIMIT
    ensures Fits(JObject(ms), true) && Sent(JObject(ms)) == Events(JObject(ms))
    decreases ms, 1
  {
    hide SpellsMembers, Blank, Closing, FitsMembers, SentMembers, MemberEvents;
    if ms.Member? {
      var a: nat, b: nat :|
        Blank(inp.flags, inp.text, i + 1, a) && SpellsMembers(inp, a, b, ms) && Closing(inp.flags, inp.text, b, j - 1);
      MembersFit(inp, a, b, ms);
    } else {
      NoMembersFit();
    }
  }

  lemma NoMembersFit()
    ensures FitsMembers(NoMembers, true) && SentMembers(NoMembers) == [] == MemberEvents(NoMembers)
    ensures FitsElements(NoElements, true) && SentElements(NoElements) == [] == ElementEvents(NoElements)
  {
  }

  lemma {:induction false} ArrayFits(inp: Input, i: nat, j: nat, es: Elements)
    requires Spells(inp, i, j, JArray(es)) && |inp.text| < SIZE_LIMIT
    ensures Fits(JArray(es), true) && Sent(JArray(es)) == Events(JArray(es))
    decreases es, 1
  {
    hide SpellsElements, Blank, Closing, FitsElements, SentElements, ElementEvents;
    if es.Element? {
      var a: nat, b: nat :|
        Blank(inp.flags, inp.text, i + 1, a) && SpellsElements(inp, a, b, es) && Closing(inp.flags, inp.text, b, j - 1);
      ElementsFit(inp, a, b, es);
    } else {
      NoMembersFit();
    }
  }

  lemma {:induction false} MembersFit(inp: Input, i: nat, j: nat, ms: Members)
    requires SpellsMembers(inp, i, j, ms) && |inp.text| < SIZE_LIMIT
    ensures FitsMembers(ms, true) && SentMembers(ms) == MemberEvents(ms) && MemberCount(ms) < SIZE_LIMIT
    decreases ms, 0
  {
    MembersClean(inp, i, j, ms);
    hide Spells, NameAt, CommaAt, Fits, Sent, Events;
    var a: nat, b: nat :|
      NameAt(inp.flags, inp.text, i, a, ms.name) && Spells(inp, a, b, ms.value)
      && if ms.more.NoMembers? then b == j
         else exists c: nat :: CommaAt(inp.flags, inp.text, b, c) && SpellsMembers(inp, c, j, ms.more);
    SpellsFits(inp, a, b, ms.value);
    if ms.more.Member? {
      var c: nat :| CommaAt(inp.flags, inp.text, b, c) && SpellsMembers(inp, c, j, ms.more);
      MembersFit(inp, c, j, ms.more);
    }
  }

  lemma {:induction false} ElementsFit(inp: Input, i: nat, j: nat, es: Elements)
    requires SpellsElements(inp, i, j, es) && |inp.text| < SIZE_LIMIT
    ensures FitsElements(es, true) && SentElements(es) == ElementEvents(es) && ElementCount(es) < SIZE_LIMIT
    decreases es, 0
  {
    ElementsClean(inp, i, j, es);
    hide Spells, CommaAt, Fits, Sent, Events;
    var b: nat :|
      Spells(inp, i, b, es.first)
      && if es.rest.NoElements? then b == j
         else exists c: nat :: CommaAt(inp.flags, inp.text, b, c) && SpellsElements(inp, c, j, es.rest);
    SpellsFits(inp, i, b, es.first);
    if es.rest.Element? {
      var c: nat :| CommaAt(inp.flags, inp.text, b, c) && SpellsElements(inp, c, j, es.rest);
      ElementsFit(inp, c, j, es.rest);
    }
  }

  // ---------------------------------------------------------------- texts

  lemma {:induction false} FirstNul(t: string, i: nat, e: nat)
    requires Clean(t, i, e) && (e == |t| || t[e] == '\0')
    ensures TextEnd(t, i) == e
  {
  }

  /** A root between blanks, up to a NUL or the end, is the text up to its first NUL. */
  lemma TextEnds(inp: Input, i: nat, j: nat, v: Json, e: nat)
    requires Blank(inp.flags, inp.text, 0, i) && Spells(inp, i, j, v) && Tail(inp.flags, inp.text, j, e)
    requires e <= |inp.text| && (e == |inp.text| || inp.text[e] == '\0')
    ensures TextEnd(inp.text, 0) == e && SpellsText(inp, v)
  {
    hide Blank, Spells, Tail;
    BlankClean(inp.flags, inp.text, 0, i);
    SpellsClean(inp, i, j, v);
    TailClean(inp.flags, inp.text, j, e);
    FirstNul(inp.text, 0, e);
  }
}
