/**
 What the writers write spells the value, and no text that spells it is shorter than Writer's: no blanks, no escape that
 is not needed, the shorter of two escapes, no sign or zeros in front of a number that need not be there.
 */
module JsonShortest {
  import opened JsonSyntax
  import opened JsonValue
  import opened JsonSpelling
  import T = JsonText
  import G = JsonGrammar
  import R = JsonRoundTrip
  import D = JsonDocument

  // ---------------------------------------------------------------- strings

  /** The hexadecimal digits of an escape are written in upper case. */
  lemma HexIsUpper(c: char, k: nat)
    requires 2 <= k < |T.EscapeUnit(c)|
    ensures c < ' ' && !('a' <= T.EscapeUnit(c)[k] <= 'f')
  {
  }

  lemma {:induction false} EscapeAppend(a: string, b: string)
    ensures |T.EscapeUnits(a + b)| == |T.EscapeUnits(a)| + |T.EscapeUnits(b)|
    decreases |a|
  {
    hide T.EscapeUnit;
    if a == "" {
      assert a + b == b;
    } else {
      assert (a + b)[1..] == a[1..] + b && (a + b)[0] == a[0];
      EscapeAppend(a[1..], b);
    }
  }

  /** Characters beyond ASCII are written as they are. */
  lemma {:induction false} HighUnits(u: string)
    requires forall k :: 0 <= k < |u| ==> u[k] as int >= 0x80
    ensures |T.EscapeUnits(u)| == |u|
    decreases |u|
  {
    if u != "" { HighUnits(u[1..]); }
  }

  lemma OneUnit(u: string)
    requires |u| == 1
    ensures |T.EscapeUnits(u)| == |T.EscapeUnit(u[0])|
  {
    hide T.EscapeUnit;
    assert u[1..] == "" && |T.EscapeUnits("")| == 0;
  }

  lemma OctetsLong(n: nat, u: string)
    requires Octets(n, u)
    ensures |T.EscapeUnits(u)| <= 6 && (n >= 0x80 ==> |T.EscapeUnits(u)| == |u| <= 4)
  {
    if |u| == 1 { OneUnit(u); } else { HighUnits(u); }
  }

  /** However a character is spelled, Writer's spelling is not longer. */
  lemma CharLong(flags: Flags, t: string, i: nat, j: nat, u: string)
    requires Char(flags, t, i, j, u)
    ensures |T.EscapeUnits(u)| <= j - i
  {
    hide Octets, Hex4, T.EscapeUnits;
    if UnitEscape(t, i, j, u) {
      OctetsLong(Hex4(t, i + 2), u);
    } else if PairEscape(t, i, j, u) {
      OctetsLong(0x10000 + (Hex4(t, i + 2) - 0xD800) * 0x400 + (Hex4(t, i + 8) - 0xDC00), u);
    } else {
      OneUnit(u);
    }
  }

  lemma {:induction false} CharsLong(flags: Flags, t: string, i: nat, j: nat, str: string)
    requires Chars(flags, t, i, j, str)
    ensures i + |T.EscapeUnits(str)| <= j
    decreases j - i
  {
    hide Char;
    if i < j {
      var k: nat, u: string :| i < k <= j && Char(flags, t, i, k, u) && u <= str && Chars(flags, t, k, j, str[|u|..]);
      hide T.EscapeUnits;
      CharLong(flags, t, i, k, u);
      CharsLong(flags, t, k, j, str[|u|..]);
      assert str == u + str[|u|..];
      EscapeAppend(u, str[|u|..]);
    }
  }

  lemma StringLong(flags: Flags, t: string, i: nat, j: nat, str: string)
    requires StringAt(flags, t, i, j, str)
    ensures i + |T.Quoted(str)| <= j
  {
    hide Chars, T.EscapeUnits;
    CharsLong(flags, t, i + 1, j - 1, str);
  }

  // ---------------------------------------------------------------- numbers

  /** Digits without leading zeros are as many as the number has. */
  lemma {:induction false} DigitsLong(t: string, i: nat, j: nat)
    requires IntegerPart(t, i, j)
    ensures NumberOf(t, i, j) >= 0 && |T.Digits(NumberOf(t, i, j))| == j - i
    ensures t[i] != '0' ==> NumberOf(t, i, j) > 0
    decreases j
  {
    if j > i + 1 {
      DigitsLong(t, i, j - 1);
      var n, d := NumberOf(t, i, j - 1), t[j - 1] as int - '0' as int;
      assert NumberOf(t, i, j) == 10 * n + d && (10 * n + d) / 10 == n;
    } else {
      assert NumberOf(t, i, i) == 0;
    }
  }

  lemma NumberLong(t: string, i: nat, j: nat, n: int)
    requires IntegerAt(t, i, j, n)
    ensures i + |T.Numeral(n)| <= j
  {
    DigitsLong(t, BehindMinus(t, i), j);
    hide NumberOf, T.Digits;
  }

  // ---------------------------------------------------------------- values

  lemma BlankLong(flags: Flags, t: string, i: nat, j: nat)
    requires Blank(flags, t, i, j)
    ensures i <= j
  {
  }

  lemma CommaLong(flags: Flags, t: string, i: nat, j: nat)
    requires CommaAt(flags, t, i, j)
    ensures i < j
  {
    hide Blank;
    CommaClean(flags, t, i, j);
  }

  lemma NameLong(flags: Flags, t: string, i: nat, j: nat, name: string)
    requires NameAt(flags, t, i, j, name)
    ensures i + |T.Quoted(name)| + 1 <= j
  {
    hide StringAt, Blank, T.Quoted;
    var k: nat, m: nat :|
      m < |t| && StringAt(flags, t, i, k, name) && Blank(flags, t, k, m) && t[m] == ':' && Blank(flags, t, m + 1, j);
    StringLong(flags, t, i, k, name);
    BlankLong(flags, t, k, m);
    BlankLong(flags, t, m + 1, j);
  }

  /** No spelling of a value is shorter than Writer's text. */
  lemma {:induction false} SpellsLong(inp: Input, i: nat, j: nat, v: Json, depth: nat)
    requires Spells(inp, i, j, v)
    ensures i + |T.Text(T.Compact, v, depth)| <= j
    decreases v, 1
  {
    hide SpellsMembers, SpellsElements, Blank, Closing, StringAt, RealAt, IntegerAt, T.Quoted, T.Numeral, T.MembersText,
         T.ElementsText;
    match v
    case JString(str) => StringLong(inp.flags, inp.text, i, j, str);
    case JNumber(n) => NumberLong(inp.text, i, j, n);
    case JObject(ms) => ObjectLong(inp, i, j, ms, depth);
    case JArray(es) => ArrayLong(inp, i, j, es, depth);
    case _ =>
  }

  lemma {:induction false} ObjectLong(inp: Input, i: nat, j: nat, ms: Members, depth: nat)
    requires Spells(inp, i, j, JObject(ms))
    ensures i + |T.Text(T.Compact, JObject(ms), depth)| <= j
    decreases ms, 1
  {
    hide SpellsMembers, Blank, Closing;
    if ms.Member? {
      hide T.MembersText;
      var a: nat, b: nat :|
        Blank(inp.flags, inp.text, i + 1, a) && SpellsMembers(inp, a, b, ms) && Closing(inp.flags, inp.text, b, j - 1);
      BlankLong(inp.flags, inp.text, i + 1, a);
      MembersLong(inp, a, b, ms, true, depth + 1);
      ClosingClean(inp.flags, inp.text, b, j - 1);
    }
  }

  lemma {:induction false} ArrayLong(inp: Input, i: nat, j: nat, es: Elements, depth: nat)
    requires Spells(inp, i, j, JArray(es))
    ensures i + |T.Text(T.Compact, JArray(es), depth)| <= j
    decreases es, 1
  {
    hide SpellsElements, Blank, Closing;
    if es.Element? {
      hide T.ElementsText;
      var a: nat, b: nat :|
        Blank(inp.flags, inp.text, i + 1, a) && SpellsElements(inp, a, b, es) && Closing(inp.flags, inp.text, b, j - 1);
      BlankLong(inp.flags, inp.text, i + 1, a);
      ElementsLong(inp, a, b, es, true, depth + 1);
      ClosingClean(inp.flags, inp.text, b, j - 1);
    }
  }

  lemma {:induction false} MembersLong(inp: Input, i: nat, j: nat, ms: Members, first: bool, depth: nat)
    requires SpellsMembers(inp, i, j, ms)
    ensures i + |T.MembersText(T.Compact, ms, first, depth)| <= j + if first then 0 else 1
    decreases ms, 0
  {
    hide Spells, NameAt, CommaAt, T.Quoted, T.Text;
    var a: nat, b: nat :|
      NameAt(inp.flags, inp.text, i, a, ms.name) && Spells(inp, a, b, ms.value)
      && if ms.more.NoMembers? then b == j
         else exists c: nat :: CommaAt(inp.flags, inp.text, b, c) && SpellsMembers(inp, c, j, ms.more);
    NameLong(inp.flags, inp.text, i, a, ms.name);
    SpellsLong(inp, a, b, ms.value, depth);
    if ms.more.Member? {
      var c: nat :| CommaAt(inp.flags, inp.text, b, c) && SpellsMembers(inp, c, j, ms.more);
      CommaLong(inp.flags, inp.text, b, c);
      MembersLong(inp, c, j, ms.more, false, depth);
    }
  }

  lemma {:induction false} ElementsLong(inp: Input, i: nat, j: nat, es: Elements, first: bool, depth: nat)
    requires SpellsElements(inp, i, j, es)
    ensures i + |T.ElementsText(T.Compact, es, first, depth)| <= j + if first then 0 else 1
    decreases es, 0
  {
    hide Spells, CommaAt, T.Text;
    var b: nat :|
      Spells(inp, i, b, es.first)
      && if es.rest.NoElements? then b == j
         else exists c: nat :: CommaAt(inp.flags, inp.text, b, c) && SpellsElements(inp, c, j, es.rest);
    SpellsLong(inp, i, b, es.first, depth);
    if es.rest.Element? {
      var c: nat :| CommaAt(inp.flags, inp.text, b, c) && SpellsElements(inp, c, j, es.rest);
      CommaLong(inp.flags, inp.text, b, c);
      ElementsLong(inp, c, j, es.rest, false, depth);
    }
  }

  // ---------------------------------------------------------------- texts

  /** No text that spells a value is shorter than what Writer writes for it. */
  lemma CompactIsShortest(inp: Input, v: Json)
    requires SpellsText(inp, v)
    ensures |T.Text(T.Compact, v, 0)| <= |inp.text|
  {
    hide Spells, Blank, Tail, T.Text;
    var i: nat, j: nat :|
      Blank(inp.flags, inp.text, 0, i) && Spells(inp, i, j, v) && Tail(inp.flags, inp.text, j, TextEnd(inp.text, 0));
    SpellsLong(inp, i, j, v, 0);
    SpellsClean(inp, i, j, v);
  }

  /** What a writer writes for a value without doubles spells that value, whatever the style and the reader's flags. */
  lemma WrittenSpells(inp: Input, style: T.Style, v: Json)
    requires R.AcceptsAll(inp) && !inp.flags.stopWhenDone && T.ValidStyle(style) && Fits(v, false)
    requires inp.text == T.Text(style, v, 0) && |inp.text| < SIZE_LIMIT
    ensures SpellsText(inp, v)
  {
    hide T.Text, G.ParseText, D.BuildAll, SpellsText;
    D.DocumentRoundTrip(inp, style, v);
    var w := D.ParseLeavesOneRoot(inp);
    assert [v][0] == [w][0];
  }
}
