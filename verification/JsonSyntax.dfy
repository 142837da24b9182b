/**
 JSON (RFC 4627, section 2) as a grammar that calls none of the parsing functions: when the characters i..j of a text
 spell a value.  What the reader's flags add is in it: comments, one comma behind the last member or element, escaped
 apostrophes.  Where RapidJSON differs from the RFC it follows RapidJSON: any value may be the root, a text ends at its
 first NUL, bytes beyond ASCII are not looked at, and an escape may stand for a lone low surrogate but not for a lone
 high one.
 */
module JsonSyntax {
  import opened JsonValue
  import JsonGrammar

  type Input = JsonGrammar.Input
  type Flags = JsonGrammar.Flags

  // ---------------------------------------------------------------- between tokens

  predicate SpaceChar(c: char) { c == ' ' || c == '\t' || c == '\n' || c == '\r' }

  predicate BlockComment(t: string, i: nat, j: nat) {
    && i + 4 <= j <= |t| && t[i] == '/' && t[i + 1] == '*' && t[j - 2] == '*' && t[j - 1] == '/'
    && forall k :: i + 2 <= k < j - 2 ==> t[k] != '\0' && !(t[k] == '*' && t[k + 1] == '/')
  }

  predicate LineComment(t: string, i: nat, j: nat) {
    && i + 3 <= j <= |t| && t[i] == '/' && t[i + 1] == '/' && t[j - 1] == '\n'
    && forall k :: i + 2 <= k < j - 1 ==> t[k] != '\0' && t[k] != '\n'
  }

  predicate BlankUnit(flags: Flags, t: string, i: nat, j: nat) {
    || (i + 1 == j <= |t| && SpaceChar(t[i]))
    || (flags.comments && (BlockComment(t, i, j) || LineComment(t, i, j)))
  }

  /** White space, and comments where they are allowed. */
  ghost predicate Blank(flags: Flags, t: string, i: nat, j: nat)
    decreases j - i
  {
    i <= j <= |t| && (i == j || exists k: nat :: i < k <= j && BlankUnit(flags, t, i, k) && Blank(flags, t, k, j))
  }

  // ---------------------------------------------------------------- strings

  /** c is the hexadecimal digit d, in either case. */
  predicate HexIs(c: char, d: nat) {
    d < 16 && (c == "0123456789ABCDEF"[d] || c == "0123456789abcdef"[d])
  }

  /** The digit c is, or -1. */
  function HexOf(c: char): (d: int)
    ensures -1 <= d < 16 && (d >= 0 ==> HexIs(c, d)) && forall e: nat :: HexIs(c, e) ==> d == e
  {
    var n := c as int;
    if 0x30 <= n <= 0x39 then n - 0x30 else if 0x41 <= n <= 0x46 then n - 0x37
    else if 0x61 <= n <= 0x66 then n - 0x57 else -1
  }

  /** The value of the four hexadecimal digits at i, or -1. */
  function Hex4(t: string, i: nat): int {
    if i + 4 <= |t| && HexOf(t[i]) >= 0 && HexOf(t[i + 1]) >= 0 && HexOf(t[i + 2]) >= 0 && HexOf(t[i + 3]) >= 0
    then ((HexOf(t[i]) * 16 + HexOf(t[i + 1])) * 16 + HexOf(t[i + 2])) * 16 + HexOf(t[i + 3])
    else -1
  }

  predicate Continuation(c: char) { 0x80 <= c as int < 0xC0 }

  /** The octets of a code point (RFC 3629, section 3): the free bits, six in each continuation octet, are its value. */
  predicate Octets(n: nat, u: string) {
    || (|u| == 1 && n < 0x80 && u[0] as int == n)
    || (|u| == 2 && 0x80 <= n < 0x800 && Continuation(u[1]) && n == (u[0] as int - 0xC0) * 64 + (u[1] as int - 0x80))
    || (|u| == 3 && 0x800 <= n < 0x10000 && Continuation(u[1]) && Continuation(u[2])
        && n == ((u[0] as int - 0xE0) * 64 + (u[1] as int - 0x80)) * 64 + (u[2] as int - 0x80))
    || (|u| == 4 && 0x10000 <= n < 0x110000 && Continuation(u[1]) && Continuation(u[2]) && Continuation(u[3])
        && n == (((u[0] as int - 0xF0) * 64 + (u[1] as int - 0x80)) * 64 + (u[2] as int - 0x80)) * 64
                + (u[3] as int - 0x80))
  }

  /** The characters that may stand behind a backslash, and what they stand for. */
  predicate ShortEscape(flags: Flags, c: char, u: char) {
    || ((c == '\"' || c == '\\' || c == '/') && u == c)
    || (c == 'b' && u as int == 8) || (c == 't' && u as int == 9) || (c == 'n' && u as int == 10)
    || (c == 'f' && u as int == 12) || (c == 'r' && u as int == 13)
    || (flags.escapedApostrophe && c == '\'' && u == c)
  }

  /** A character that is no high surrogate, as \u and four digits. */
  predicate UnitEscape(t: string, i: nat, j: nat, u: string) {
    && i + 6 == j <= |t| && t[i + 1] == 'u'
    && var n := Hex4(t, i + 2);
       n >= 0 && !(0xD800 <= n < 0xDC00) && Octets(n, u)
  }

  /** A character beyond FFFF, as its pair of surrogates. */
  predicate PairEscape(t: string, i: nat, j: nat, u: string) {
    && i + 12 == j <= |t| && t[i + 1] == 'u' && t[i + 6] == '\\' && t[i + 7] == 'u'
    && var high, low := Hex4(t, i + 2), Hex4(t, i + 8);
       && 0xD800 <= high < 0xDC00 && 0xDC00 <= low < 0xE000
       && Octets(0x10000 + (high - 0xD800) * 0x400 + (low - 0xDC00), u)
  }

  /** One character of a string and the bytes it stands for. */
  predicate Char(flags: Flags, t: string, i: nat, j: nat, u: string) {
    && i < j <= |t|
    && if t[i] != '\\' then i + 1 == j && t[i] >= ' ' && t[i] != '\"' && u == [t[i]]
       else (i + 2 == j && |u| == 1 && ShortEscape(flags, t[i + 1], u[0])) || UnitEscape(t, i, j, u)
            || PairEscape(t, i, j, u)
  }

  ghost predicate Chars(flags: Flags, t: string, i: nat, j: nat, str: string)
    decreases j - i
  {
    if i >= j then i == j <= |t| && str == ""
    else exists k: nat, u: string ::
           i < k <= j && Char(flags, t, i, k, u) && u <= str && Chars(flags, t, k, j, str[|u|..])
  }

  ghost predicate StringAt(flags: Flags, t: string, i: nat, j: nat, str: string) {
    i + 2 <= j <= |t| && t[i] == '\"' && t[j - 1] == '\"' && Chars(flags, t, i + 1, j - 1, str)
  }

  // ---------------------------------------------------------------- numbers

  predicate SomeDigits(t: string, i: nat, j: nat) { i < j <= |t| && forall k :: i <= k < j ==> '0' <= t[k] <= '9' }

  /** The number that digits denote. */
  function NumberOf(t: string, i: nat, j: nat): int
    requires j <= |t|
  {
    if i >= j then 0 else 10 * NumberOf(t, i, j - 1) + (t[j - 1] as int - '0' as int)
  }

  /** No leading zeros. */
  predicate IntegerPart(t: string, i: nat, j: nat) { SomeDigits(t, i, j) && (t[i] == '0' ==> j == i + 1) }

  predicate FractionPart(t: string, i: nat, j: nat) {
    i == j <= |t| || (i < j <= |t| && t[i] == '.' && SomeDigits(t, i + 1, j))
  }

  predicate ExponentPart(t: string, i: nat, j: nat) {
    || i == j <= |t|
    || (i < j <= |t| && (t[i] == 'e' || t[i] == 'E')
        && (SomeDigits(t, i + 1, j)
            || (i + 1 < j && (t[i + 1] == '+' || t[i + 1] == '-') && SomeDigits(t, i + 2, j))))
  }

  predicate Minus(t: string, i: nat) { i < |t| && t[i] == '-' }

  function BehindMinus(t: string, i: nat): nat { if Minus(t, i) then i + 1 else i }

  /** The integer of a sign and digits. */
  function Signed(t: string, i: nat, j: nat): int
    requires j <= |t|
  {
    if Minus(t, i) then -NumberOf(t, i + 1, j) else NumberOf(t, i, j)
  }

  /** Representable in 64 bits, with or without sign. */
  predicate In64(n: int) { -0x8000_0000_0000_0000 <= n < 0x1_0000_0000_0000_0000 }

  predicate IntegerAt(t: string, i: nat, j: nat, n: int) {
    IntegerPart(t, BehindMinus(t, i), j) && n == Signed(t, i, j) && In64(n)
  }

  /** A number with a fraction, an exponent, or too many digits. */
  ghost predicate RealAt(t: string, i: nat, j: nat) {
    exists p: nat, q: nat ::
      && IntegerPart(t, BehindMinus(t, i), p) && FractionPart(t, p, q) && ExponentPart(t, q, j)
      && (p == j ==> !In64(Signed(t, i, j)))
  }

  // ---------------------------------------------------------------- values

  predicate Reads(t: string, i: nat, j: nat, word: string) { i <= j <= |t| && t[i..j] == word }

  /** A comma between blanks. */
  ghost predicate CommaAt(flags: Flags, t: string, i: nat, j: nat) {
    exists k: nat :: k < |t| && Blank(flags, t, i, k) && t[k] == ',' && Blank(flags, t, k + 1, j)
  }

  /** What may stand between the last member or element and the closing brace or bracket: blanks; and one comma, if
      trailing commas are allowed. */
  ghost predicate Closing(flags: Flags, t: string, i: nat, j: nat) {
    Blank(flags, t, i, j) || (flags.trailingCommas && CommaAt(flags, t, i, j))
  }

  /** A name and its colon, up to the value. */
  ghost predicate NameAt(flags: Flags, t: string, i: nat, j: nat, name: string) {
    exists k: nat, m: nat ::
      m < |t| && StringAt(flags, t, i, k, name) && Blank(flags, t, k, m) && t[m] == ':' && Blank(flags, t, m + 1, j)
  }

  /** The characters i..j spell the value v; numbers for which strtod would be out of range spell nothing. */
  ghost predicate Spells(inp: Input, i: nat, j: nat, v: Json)
    decreases v, 1
  {
    match v
    case JNull => Reads(inp.text, i, j, "null")
    case JBool(b) => Reads(inp.text, i, j, if b then "true" else "false")
    case JNumber(n) => IntegerAt(inp.text, i, j, n)
    case JDouble(lexeme) => RealAt(inp.text, i, j) && Reads(inp.text, i, j, lexeme) && !inp.tooBig(lexeme)
    case JString(str) => StringAt(inp.flags, inp.text, i, j, str)
    case JObject(members) =>
      && i + 2 <= j <= |inp.text| && inp.text[i] == '{' && inp.text[j - 1] == '}'
      && if members.NoMembers? then Blank(inp.flags, inp.text, i + 1, j - 1)
         else exists a: nat, b: nat ::
                Blank(inp.flags, inp.text, i + 1, a) && SpellsMembers(inp, a, b, members)
                && Closing(inp.flags, inp.text, b, j - 1)
    case JArray(elements) =>
      && i + 2 <= j <= |inp.text| && inp.text[i] == '[' && inp.text[j - 1] == ']'
      && if elements.NoElements? then Blank(inp.flags, inp.text, i + 1, j - 1)
         else exists a: nat, b: nat ::
                Blank(inp.flags, inp.text, i + 1, a) && SpellsElements(inp, a, b, elements)
                && Closing(inp.flags, inp.text, b, j - 1)
  }

  /** Members with commas between them, at least one. */
  ghost predicate SpellsMembers(inp: Input, i: nat, j: nat, ms: Members)
    decreases ms, 0
  {
    && ms.Member?
    && exists a: nat, b: nat ::
         NameAt(inp.flags, inp.text, i, a, ms.name) && Spells(inp, a, b, ms.value)
         && if ms.more.NoMembers? then b == j
            else exists c: nat :: CommaAt(inp.flags, inp.text, b, c) && SpellsMembers(inp, c, j, ms.more)
  }

  /** Elements with commas between them, at least one. */
  ghost predicate SpellsElements(inp: Input, i: nat, j: nat, es: Elements)
    decreases es, 0
  {
    && es.Element?
    && exists b: nat ::
         Spells(inp, i, b, es.first)
         && if es.rest.NoElements? then b == j
            else exists c: nat :: CommaAt(inp.flags, inp.text, b, c) && SpellsElements(inp, c, j, es.rest)
  }

  // ---------------------------------------------------------------- texts

  /** The position of the first NUL, or the end. */
  function TextEnd(t: string, i: nat): (e: nat)
    requires i <= |t|
    ensures i <= e <= |t| && (e < |t| ==> t[e] == '\0') && forall k :: i <= k < e ==> t[k] != '\0'
    decreases |t| - i
  {
    if i == |t| || t[i] == '\0' then i else TextEnd(t, i + 1)
  }

  /** A line comment without its line break. */
  predicate OpenComment(t: string, i: nat, e: nat) {
    i + 2 <= e <= |t| && t[i] == '/' && t[i + 1] == '/' && forall k :: i + 2 <= k < e ==> t[k] != '\0' && t[k] != '\n'
  }

  /** What may stand behind the root: blanks, and a line comment that ends with the text. */
  ghost predicate Tail(flags: Flags, t: string, i: nat, e: nat) {
    || Blank(flags, t, i, e)
    || (flags.comments && exists k: nat :: Blank(flags, t, i, k) && OpenComment(t, k, e))
  }

  /** The text, up to its first NUL, is the value v between blanks. */
  ghost predicate SpellsText(inp: Input, v: Json) {
    exists i: nat, j: nat ::
      Blank(inp.flags, inp.text, 0, i) && Spells(inp, i, j, v) && Tail(inp.flags, inp.text, j, TextEnd(inp.text, 0))
  }

  /** The text begins with the value v, which ends at j, behind blanks. */
  ghost predicate SpellsFront(inp: Input, v: Json, j: nat) {
    exists i: nat :: Blank(inp.flags, inp.text, 0, i) && Spells(inp, i, j, v)
  }
}
