/**
 PrettyWriter against a formatter that knows nothing of values: what PrettyWriter writes is what Writer writes, broken
 into lines by looking at its brackets, commas and colons only.
 */
module JsonLayout {
  import opened JsonGrammar
  import opened JsonValue
  import opened JsonText
  import opened JsonRoundTrip

  // ---------------------------------------------------------------- the formatter

  predicate Opening(c: char) { c == '{' || c == '[' }

  predicate Ending(c: char) { c == '}' || c == ']' }

  /** The position behind the closing quote of the string that goes on at i. */
  function StringEnd(t: string, i: nat): (e: nat)
    requires i <= |t|
    ensures i <= e <= |t|
    decreases |t| - i
  {
    if i == |t| then i
    else if t[i] == '\"' then i + 1
    else if t[i] == '\\' && i + 1 < |t| then StringEnd(t, i + 2)
    else StringEnd(t, i + 1)
  }

  /** A new line at the given depth; arrays may be kept on one line. */
  function Break(style: Style, inside: char, depth: nat): string
    requires style.Pretty?
  {
    if inside == '[' && style.singleLineArray then ""
    else "\n" + Repeat(style.indentChar, depth * style.indentCharCount)
  }

  function Innermost(nest: string): char { if nest == "" then '\0' else nest[|nest| - 1] }

  function Outside(nest: string): string { if nest == "" then "" else nest[..|nest| - 1] }

  /** The text from i on, inside the given brackets: a line break behind an opening bracket, before a closing one (none
      between the two of an empty pair) and behind a comma; a blank behind a colon, and behind a comma on a single
      line. */
  function Formatted(style: Style, t: string, i: nat, nest: string): string
    requires style.Pretty?
    decreases |t| - i
  {
    if i >= |t| then "" else
    var c := t[i];
    if c == '\"' then
      var e := StringEnd(t, i + 1);
      t[i..e] + Formatted(style, t, e, nest)
    else if Opening(c) then
      if i + 1 < |t| && Ending(t[i + 1]) then t[i..i + 2] + Formatted(style, t, i + 2, nest)
      else [c] + Break(style, c, |nest| + 1) + Formatted(style, t, i + 1, nest + [c])
    else if Ending(c) then
      Break(style, Innermost(nest), |Outside(nest)|) + [c] + Formatted(style, t, i + 1, Outside(nest))
    else if c == ',' then
      "," + (if Innermost(nest) == '[' && style.singleLineArray then " " else Break(style, Innermost(nest), |nest|))
        + Formatted(style, t, i + 1, nest)
    else if c == ':' then ": " + Formatted(style, t, i + 1, nest)
    else [c] + Formatted(style, t, i + 1, nest)
  }

  // ---------------------------------------------------------------- characters it copies

  predicate PlainChar(c: char) { c != '\"' && !Opening(c) && !Ending(c) && c != ',' && c != ':' }

  predicate Plain(s: string) { forall k :: 0 <= k < |s| ==> PlainChar(s[k]) }

  lemma {:induction false} CopiesPlain(style: Style, t: string, i: nat, nest: string, s: string)
    requires style.Pretty? && At(t, i, s) && Plain(s)
    ensures Formatted(style, t, i, nest) == s + Formatted(style, t, i + |s|, nest)
    decreases |s|
  {
    hide Formatted, At, PlainChar;
    if s == "" {
      NoLead(Formatted(style, t, i, nest));
    } else {
      AtTail(t, i, s);
      AtLength(t, i, s);
      CopiesChar(style, t, i, nest, s[0]);
      CopiesPlain(style, t, i + 1, nest, s[1..]);
      Regroup([s[0]], s[1..], Formatted(style, t, i + |s|, nest));
      assert [s[0]] + s[1..] == s;
    }
  }

  lemma AtLength(t: string, i: nat, s: string)
    requires At(t, i, s) && s != ""
    ensures i < |t| && t[i] == s[0]
  {
    AtPeek(t, i, s, 0);
  }

  lemma CopiesChar(style: Style, t: string, i: nat, nest: string, c: char)
    requires style.Pretty? && i < |t| && t[i] == c && PlainChar(c)
    ensures Formatted(style, t, i, nest) == [c] + Formatted(style, t, i + 1, nest)
  {
  }

  lemma {:induction false} DigitsArePlain(n: nat)
    ensures Plain(Digits(n))
    decreases n
  {
    if n >= 10 { DigitsArePlain(n / 10); }
  }

  lemma StringEndUnit(t: string, i: nat, c: char)
    requires At(t, i, EscapeUnit(c))
    ensures i + |EscapeUnit(c)| <= |t| && StringEnd(t, i) == StringEnd(t, i + |EscapeUnit(c)|)
  {
    var u := EscapeUnit(c);
    AtPeek(t, i, u, 0);
    if |u| > 1 { AtPeek(t, i, u, 1); }
    if |u| == 6 {
      AtPeek(t, i, u, 2);
      AtPeek(t, i, u, 3);
      AtPeek(t, i, u, 4);
      AtPeek(t, i, u, 5);
      assert StringEnd(t, i) == StringEnd(t, i + 2) == StringEnd(t, i + 3);
      assert StringEnd(t, i + 3) == StringEnd(t, i + 4) == StringEnd(t, i + 5) == StringEnd(t, i + 6);
    }
  }

  lemma {:induction false} StringEnds(t: string, i: nat, s: string)
    requires At(t, i, EscapeUnits(s) + "\"")
    ensures StringEnd(t, i) == i + |EscapeUnits(s)| + 1
    decreases |s|
  {
    hide EscapeUnit, At;
    if s == "" {
      AtPeek(t, i, EscapeUnits(s) + "\"", 0);
    } else {
      var head, tail := EscapeUnit(s[0]), EscapeUnits(s[1..]);
      Regroup(head, tail, "\"");
      AtSplit(t, i, head, tail + "\"");
      StringEndUnit(t, i, s[0]);
      StringEnds(t, i + |head|, s[1..]);
    }
  }

  lemma CopiesString(style: Style, t: string, i: nat, nest: string, s: string)
    requires style.Pretty? && At(t, i, Quoted(s))
    ensures Formatted(style, t, i, nest) == Quoted(s) + Formatted(style, t, i + |Quoted(s)|, nest)
  {
    hide EscapeUnits;
    QuotedSplits(t, i, s);
    StringEnds(t, i + 1, s);
  }

  // ---------------------------------------------------------------- values

  /** A value's text begins with no bracket that closes. */
  lemma TextBegins(style: Style, v: Json, depth: nat)
    requires Fits(v, false)
    ensures Text(style, v, depth) != "" && !Ending(Text(style, v, depth)[0])
  {
    if v.JNumber? { DigitsArePlain(if v.value < 0 then -v.value else v.value); }
  }

  lemma FormatsScalar(style: Style, t: string, i: nat, nest: string, v: Json)
    requires style.Pretty? && At(t, i, Text(Compact, v, |nest|)) && Fits(v, false) && !v.JObject? && !v.JArray?
    ensures Formatted(style, t, i, nest) ==
            Text(style, v, |nest|) + Formatted(style, t, i + |Text(Compact, v, |nest|)|, nest)
  {
    hide Formatted, Quoted, Digits;
    match v
    case JString(str) => CopiesString(style, t, i, nest, str);
    case JNumber(value) =>
      DigitsArePlain(if value < 0 then -value else value);
      CopiesPlain(style, t, i, nest, Numeral(value));
    case JNull => CopiesPlain(style, t, i, nest, "null");
    case JBool(b) => CopiesPlain(style, t, i, nest, if b then "true" else "false");
  }

  lemma {:induction false} FormatsValue(style: Style, t: string, i: nat, nest: string, v: Json)
    requires style.Pretty? && At(t, i, Text(Compact, v, |nest|)) && Fits(v, false)
    ensures Formatted(style, t, i, nest) ==
            Text(style, v, |nest|) + Formatted(style, t, i + |Text(Compact, v, |nest|)|, nest)
    decreases v, 1
  {
    hide Formatted, At, Text;
    match v
    case JObject(ms) =>
      if ms.Member? { FormatsObject(style, t, i, nest, ms); } else { FormatsEmpty(style, t, i, nest, v); }
    case JArray(es) =>
      if es.Element? { FormatsArray(style, t, i, nest, es); } else { FormatsEmpty(style, t, i, nest, v); }
    case _ => FormatsScalar(style, t, i, nest, v);
  }

  lemma FormatsEmpty(style: Style, t: string, i: nat, nest: string, v: Json)
    requires style.Pretty? && At(t, i, Text(Compact, v, |nest|)) && (v == JObject(NoMembers) || v == JArray(NoElements))
    ensures Formatted(style, t, i, nest) ==
            Text(style, v, |nest|) + Formatted(style, t, i + |Text(Compact, v, |nest|)|, nest)
  {
    var s := Text(Compact, v, |nest|);
    assert |s| == 2 && s == Text(style, v, |nest|);
    AtPeek(t, i, s, 0);
    AtPeek(t, i, s, 1);
    assert t[i..i + 2] == s;
  }

  /** A bracket, what is inside it, and the bracket that closes behind `space`. */
  predicate Wraps(whole: string, open: char, inner: string, space: string, close: char) {
    whole == [open] + inner + space + [close]
  }

  lemma InsideAt(t: string, i: nat, whole: string, open: char, compact: string, close: char)
    requires At(t, i, whole) && Wraps(whole, open, compact, "", close)
    ensures |whole| == |compact| + 2 && i + |whole| <= |t|
    ensures t[i] == open && At(t, i + 1, compact) && t[i + 1 + |compact|] == close
  {
    assert compact + "" == compact;
    AtSplit(t, i, [open] + compact, [close]);
    AtSplit(t, i, [open], compact);
    AtPeek(t, i, [open], 0);
    AtPeek(t, i + 1 + |compact|, [close], 0);
  }

  lemma FormatsInside(style: Style, t: string, i: nat, nest: string, open: char, close: char, whole: string,
                      compact: string, pretty: string, text: string)
    requires style.Pretty? && Opening(open) && Ending(close) && compact != "" && !Ending(compact[0])
    requires At(t, i, whole) && Wraps(whole, open, compact, "", close)
    requires Wraps(pretty, open, text, Break(style, open, |nest|), close)
    requires Break(style, open, |nest| + 1) + Formatted(style, t, i + 1, nest + [open]) ==
             text + Formatted(style, t, i + 1 + |compact|, nest + [open])
    ensures Formatted(style, t, i, nest) == pretty + Formatted(style, t, i + |whole|, nest)
  {
    hide Formatted, Break, At, Opening, Ending, Innermost, Outside, Wraps;
    InsideAt(t, i, whole, open, compact, close);
    FormatsOpening(style, t, i, nest, compact);
    Nested(nest, open);
    FormatsEnding(style, t, i + 1 + |compact|, nest + [open], nest);
    Surrounded(pretty, open, text, Break(style, open, |nest|), close, Formatted(style, t, i + |whole|, nest));
  }

  lemma Brackets()
    ensures Opening('{') && Ending('}') && Opening('[') && Ending(']')
  {
  }

  lemma Nested(nest: string, open: char)
    ensures Innermost(nest + [open]) == open && Outside(nest + [open]) == nest
  {
  }

  lemma FormatsOpening(style: Style, t: string, i: nat, nest: string, compact: string)
    requires style.Pretty? && i < |t| && Opening(t[i]) && At(t, i + 1, compact) && compact != "" && !Ending(compact[0])
    ensures Formatted(style, t, i, nest) ==
            [t[i]] + (Break(style, t[i], |nest| + 1) + Formatted(style, t, i + 1, nest + [t[i]]))
  {
    hide Break;
    AtPeek(t, i + 1, compact, 0);
    Regroup([t[i]], Break(style, t[i], |nest| + 1), Formatted(style, t, i + 1, nest + [t[i]]));
  }

  lemma FormatsEnding(style: Style, t: string, i: nat, inner: string, nest: string)
    requires style.Pretty? && i < |t| && Ending(t[i]) && Outside(inner) == nest
    ensures Formatted(style, t, i, inner) ==
            Break(style, Innermost(inner), |nest|) + [t[i]] + Formatted(style, t, i + 1, nest)
  {
    hide Break, Innermost, Outside;
  }

  lemma Surrounded(whole: string, open: char, inner: string, space: string, close: char, rest: string)
    requires Wraps(whole, open, inner, space, close)
    ensures [open] + (inner + (space + [close] + rest)) == whole + rest
  {
  }

  lemma ObjectText(style: Style, ms: Members, depth: nat)
    requires style.Pretty? && ms.Member?
    ensures Wraps(Text(style, JObject(ms), depth), '{', MembersText(style, ms, true, depth + 1),
                  Break(style, '{', depth), '}')
    ensures var compact := MembersText(Compact, ms, true, depth + 1);
            Wraps(Text(Compact, JObject(ms), depth), '{', compact, "", '}') && compact != "" && !Ending(compact[0])
  {
    var compact := MembersText(Compact, ms, true, depth + 1);
    assert compact != "" && compact[0] == '\"';
    hide MembersText;
  }

  lemma ArrayText(style: Style, es: Elements, depth: nat)
    requires style.Pretty? && es.Element? && FitsElements(es, false)
    ensures Wraps(Text(style, JArray(es), depth), '[', ElementsText(style, es, true, depth + 1),
                  Break(style, '[', depth), ']')
    ensures var compact := ElementsText(Compact, es, true, depth + 1);
            Wraps(Text(Compact, JArray(es), depth), '[', compact, "", ']') && compact != "" && !Ending(compact[0])
  {
    var compact := ElementsText(Compact, es, true, depth + 1);
    TextBegins(Compact, es.first, depth + 1);
    assert compact != "" && compact[0] == Text(Compact, es.first, depth + 1)[0];
    hide ElementsText;
  }

  lemma {:induction false} FormatsObject(style: Style, t: string, i: nat, nest: string, ms: Members)
    requires style.Pretty? && At(t, i, Text(Compact, JObject(ms), |nest|)) && FitsMembers(ms, false) && ms.Member?
    ensures Formatted(style, t, i, nest) ==
            Text(style, JObject(ms), |nest|) + Formatted(style, t, i + |Text(Compact, JObject(ms), |nest|)|, nest)
    decreases ms, 1
  {
    hide Formatted, At, FitsMembers, MembersText, Text, Break, Wraps, Opening, Ending, Innermost, Outside;
    Brackets();
    Nested(nest, '{');
    var compact, inner := MembersText(Compact, ms, true, |nest| + 1), nest + ['{'];
    ObjectText(style, ms, |nest|);
    InsideAt(t, i, Text(Compact, JObject(ms), |nest|), '{', compact, '}');
    FormatsMembers(style, t, i + 1, inner, ms, true);
    FormatsInside(style, t, i, nest, '{', '}', Text(Compact, JObject(ms), |nest|), compact,
                  Text(style, JObject(ms), |nest|), MembersText(style, ms, true, |nest| + 1));
  }

  lemma {:induction false} FormatsArray(style: Style, t: string, i: nat, nest: string, es: Elements)
    requires style.Pretty? && At(t, i, Text(Compact, JArray(es), |nest|)) && FitsElements(es, false) && es.Element?
    ensures Formatted(style, t, i, nest) ==
            Text(style, JArray(es), |nest|) + Formatted(style, t, i + |Text(Compact, JArray(es), |nest|)|, nest)
    decreases es, 1
  {
    hide Formatted, At, Fits, FitsElements, ElementsText, Text, Break, Wraps, Opening, Ending, Innermost, Outside;
    Brackets();
    Nested(nest, '[');
    var compact, inner := ElementsText(Compact, es, true, |nest| + 1), nest + ['['];
    ArrayText(style, es, |nest|);
    InsideAt(t, i, Text(Compact, JArray(es), |nest|), '[', compact, ']');
    FormatsElements(style, t, i + 1, inner, es, true);
    FormatsInside(style, t, i, nest, '[', ']', Text(Compact, JArray(es), |nest|), compact,
                  Text(style, JArray(es), |nest|), ElementsText(style, es, true, |nest| + 1));
  }

  /** s is these parts. */
  predicate Parts(s: string, a: string, b: string, c: string, d: string, e: string) { s == a + b + c + d + e }

  lemma AtParts(t: string, i: nat, s: string, a: string, b: string, c: string, d: string, e: string)
    requires At(t, i, s) && Parts(s, a, b, c, d, e)
    ensures |s| == |a| + |b| + |c| + |d| + |e|
    ensures At(t, i, a) && At(t, i + |a|, b) && At(t, i + |a| + |b|, c)
    ensures At(t, i + |a| + |b| + |c|, d) && At(t, i + |a| + |b| + |c| + |d|, e)
  {
    hide At;
    AtSplit(t, i, a + b + c + d, e);
    AtSplit(t, i, a + b + c, d);
    AtSplit(t, i, a + b, c);
    AtSplit(t, i, a, b);
  }

  /** The comma in front of all but the first; in front of that one the bracket has made the break. */
  lemma FormatsLead(style: Style, t: string, i: nat, nest: string, first: bool)
    requires style.Pretty? && (Innermost(nest) == '{' || Innermost(nest) == '[')
    requires At(t, i, if first then "" else ",")
    ensures var inArray, f := Innermost(nest) == '[', Formatted(style, t, i + if first then 0 else 1, nest);
            (if first then Break(style, Innermost(nest), |nest|) else "") + Formatted(style, t, i, nest) ==
            Lead(style, inArray, first, |nest|) + f
  {
    if !first { AtPeek(t, i, ",", 0); }
  }

  lemma FormatsColon(style: Style, t: string, i: nat, nest: string)
    requires style.Pretty? && At(t, i, ":")
    ensures Formatted(style, t, i, nest) == Colon(style) + Formatted(style, t, i + 1, nest)
  {
    AtPeek(t, i, ":", 0);
  }

  /** Joins what is formatted part by part. */
  lemma Joined(s: string, lead: string, name: string, colon: string, value: string, more: string, f1: string,
               f2: string, f3: string, f4: string, f5: string)
    requires Parts(s, lead, name, colon, value, more)
    requires f1 == name + f2 && f2 == colon + f3 && f3 == value + f4 && f4 == more + f5
    ensures lead + f1 == s + f5
  {
    Regroup5(lead + name, colon, value, more, f5);
    Regroup(lead, name, colon + value + more + f5);
    Regroup5(name, colon, value, more, f5);
    Regroup(colon, value, more + f5);
    Regroup(colon + value, more, f5);
  }

  lemma {:induction false} FormatsMembers(style: Style, t: string, i: nat, nest: string, ms: Members, first: bool)
    requires style.Pretty? && At(t, i, MembersText(Compact, ms, first, |nest|)) && FitsMembers(ms, false)
    requires Innermost(nest) == '{'
    ensures (if first && ms.Member? then Break(style, '{', |nest|) else "") + Formatted(style, t, i, nest) ==
            MembersText(style, ms, first, |nest|)
            + Formatted(style, t, i + |MembersText(Compact, ms, first, |nest|)|, nest)
    decreases ms, 0
  {
    hide Formatted, At, Text, Quoted, Break, Parts, MembersText, Lead, Colon, Innermost, Fits;
    if ms.NoMembers? {
      NothingFormatted(style, ms, NoElements, first, |nest|);
      NoLead(Formatted(style, t, i, nest));
    } else {
      var comma, value := if first then "" else ",", Text(Compact, ms.value, |nest|);
      var more := MembersText(Compact, ms.more, false, |nest|);
      MembersParts(style, ms, first, |nest|);
      AtParts(t, i, MembersText(Compact, ms, first, |nest|), comma, Quoted(ms.name), ":", value, more);
      var p1 := i + |comma|;
      var p2 := p1 + |Quoted(ms.name)|;
      var p4 := p2 + 1 + |value|;
      FormatsLead(style, t, i, nest, first);
      CopiesString(style, t, p1, nest, ms.name);
      FormatsColon(style, t, p2, nest);
      FormatsValue(style, t, p2 + 1, nest, ms.value);
      FormatsMembers(style, t, p4, nest, ms.more, false);
      NoLead(Formatted(style, t, p4, nest));
      Joined(MembersText(style, ms, first, |nest|), Lead(style, false, first, |nest|), Quoted(ms.name), Colon(style),
             Text(style, ms.value, |nest|), MembersText(style, ms.more, false, |nest|), Formatted(style, t, p1, nest),
             Formatted(style, t, p2, nest), Formatted(style, t, p2 + 1, nest), Formatted(style, t, p4, nest),
             Formatted(style, t, p4 + |more|, nest));
    }
  }

  lemma NothingFormatted(style: Style, ms: Members, es: Elements, first: bool, depth: nat)
    ensures ms.NoMembers? ==> MembersText(style, ms, first, depth) == "" == MembersText(Compact, ms, first, depth)
    ensures es.NoElements? ==> ElementsText(style, es, first, depth) == "" == ElementsText(Compact, es, first, depth)
  {
  }

  lemma NoLead(s: string)
    ensures "" + s == s
  {
  }

  lemma MembersParts(style: Style, ms: Members, first: bool, depth: nat)
    requires ms.Member?
    ensures Parts(MembersText(style, ms, first, depth), Lead(style, false, first, depth), Quoted(ms.name), Colon(style),
                  Text(style, ms.value, depth), MembersText(style, ms.more, false, depth))
    ensures Parts(MembersText(Compact, ms, first, depth), if first then "" else ",", Quoted(ms.name), ":",
                  Text(Compact, ms.value, depth), MembersText(Compact, ms.more, false, depth))
  {
    hide Quoted, Text;
  }

  lemma {:induction false} FormatsElements(style: Style, t: string, i: nat, nest: string, es: Elements, first: bool)
    requires style.Pretty? && At(t, i, ElementsText(Compact, es, first, |nest|)) && FitsElements(es, false)
    requires Innermost(nest) == '['
    ensures (if first && es.Element? then Break(style, '[', |nest|) else "") + Formatted(style, t, i, nest) ==
            ElementsText(style, es, first, |nest|)
            + Formatted(style, t, i + |ElementsText(Compact, es, first, |nest|)|, nest)
    decreases es, 0
  {
    hide Formatted, At, Text, Break;
    if es.Element? {
      var comma, value := if first then "" else ",", Text(Compact, es.first, |nest|);
      var more := ElementsText(Compact, es.rest, false, |nest|);
      assert ElementsText(Compact, es, first, |nest|) == comma + value + more;
      AtSplit(t, i, comma + value, more);
      AtSplit(t, i, comma, value);
      var p1 := i + |comma|;
      var p2 := p1 + |value|;
      FormatsLead(style, t, i, nest, first);
      FormatsValue(style, t, p1, nest, es.first);
      FormatsElements(style, t, p2, nest, es.rest, false);
      assert "" + Formatted(style, t, p2, nest) == Formatted(style, t, p2, nest);
      hide Lead;
      Regroup(Lead(style, true, first, |nest|), Text(style, es.first, |nest|), Formatted(style, t, p2, nest));
      Regroup(Lead(style, true, first, |nest|) + Text(style, es.first, |nest|),
              ElementsText(style, es.rest, false, |nest|), Formatted(style, t, p2 + |more|, nest));
    }
  }

  /** What PrettyWriter writes for a value is what Writer writes for it, formatted. */
  lemma PrettyIsFormatted(style: Style, v: Json)
    requires style.Pretty? && Fits(v, false)
    ensures Text(style, v, 0) == Formatted(style, Text(Compact, v, 0), 0, "")
  {
    hide Text;
    var t := Text(Compact, v, 0);
    assert t[0..|t|] == t;
    FormatsValue(style, t, 0, "", v);
    assert Formatted(style, t, |t|, "") == "";
  }
}
