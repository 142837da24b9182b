/** The reader's blanks, strings and numbers are those of the grammar, in both directions. */
module JsonLexis {
  import opened JsonGrammar
  import opened JsonSyntax
  import JsonRoundTrip
  import opened Utf8Encoding
  import opened Wrappers

  // ---------------------------------------------------------------- comments

  lemma {:induction false} BlockEndIs(t: string, p: nat, i: nat, j: nat)
    requires BlockComment(t, i, j) && i + 2 <= p <= j - 2
    ensures BlockEnd(t, p) == Some(j)
    decreases j - p
  {
    if p < j - 2 { BlockEndIs(t, p + 1, i, j); }
  }

  lemma {:induction false} BlockEndFinds(t: string, p: nat)
    requires BlockEnd(t, p).Some?
    ensures var j := BlockEnd(t, p).value;
            && p + 2 <= j <= |t| && t[j - 2] == '*' && t[j - 1] == '/'
            && forall k :: p <= k < j - 2 ==> t[k] != '\0' && !(t[k] == '*' && t[k + 1] == '/')
    decreases |t| - p
  {
    if !(Peek(t, p) == '*' && Peek(t, p + 1) == '/') { BlockEndFinds(t, p + 1); }
  }

  lemma {:induction false} LineEndIs(t: string, p: nat, i: nat, j: nat)
    requires LineComment(t, i, j) && i + 2 <= p <= j - 1
    ensures LineEnd(t, p) == j
    decreases j - p
  {
    if p < j - 1 { LineEndIs(t, p + 1, i, j); }
  }

  /** Behind the line break, or at the end of the text. */
  lemma {:induction false} LineEndFinds(t: string, p: nat)
    requires p <= |t|
    ensures var j := LineEnd(t, p);
            if j > p && t[j - 1] == '\n' then forall k :: p <= k < j - 1 ==> t[k] != '\0' && t[k] != '\n'
            else Peek(t, j) == '\0' && forall k :: p <= k < j ==> t[k] != '\0' && t[k] != '\n'
    decreases |t| - p
  {
    if Peek(t, p) != '\0' && t[p] != '\n' { LineEndFinds(t, p + 1); }
  }

  lemma {:induction false} LineEndOpen(t: string, p: nat, i: nat, e: nat)
    requires OpenComment(t, i, e) && i + 2 <= p <= e && Peek(t, e) == '\0'
    ensures LineEnd(t, p) == e
    decreases e - p
  {
    if p < e { LineEndOpen(t, p + 1, i, e); }
  }

  // ---------------------------------------------------------------- blanks

  /** Skip from p on, as far as comments allow. */
  function SkipFrom(flags: Flags, t: string, p: nat): (q: Option<nat>)
    requires p <= |t|
    ensures q.Some? ==> p <= q.value <= |t|
  {
    if flags.comments then SkipComments(t, SpaceEnd(t, p)) else Some(SpaceEnd(t, p))
  }

  lemma SkipIs(inp: Input, c: Cursor)
    requires Within(inp, c)
    ensures var q := SkipFrom(inp.flags, inp.text, c.pos);
            Skip(inp, c) == if q.None? then Bad(c.events) else Good(c.(pos := q.value))
  {
  }

  /** Nothing blank begins with c. */
  predicate StopsBlank(flags: Flags, c: char) { !IsSpace(c) && !(flags.comments && c == '/') }

  lemma UnitSkipped(flags: Flags, t: string, i: nat, k: nat)
    requires BlankUnit(flags, t, i, k)
    ensures i < k <= |t| && SkipFrom(flags, t, i) == SkipFrom(flags, t, k)
  {
    if i + 1 == k && SpaceChar(t[i]) {
    } else if BlockComment(t, i, k) {
      BlockEndIs(t, i + 2, i, k);
    } else {
      LineEndIs(t, i + 2, i, k);
    }
  }

  lemma {:induction false} BlankSkipped(flags: Flags, t: string, i: nat, j: nat)
    requires Blank(flags, t, i, j) && StopsBlank(flags, Peek(t, j))
    ensures SkipFrom(flags, t, i) == Some(j)
    decreases j - i
  {
    hide SkipFrom;
    if i == j {
      StopsAt(flags, t, j);
    } else {
      var k: nat :| i < k <= j && BlankUnit(flags, t, i, k) && Blank(flags, t, k, j);
      UnitSkipped(flags, t, i, k);
      BlankSkipped(flags, t, k, j);
    }
  }

  lemma StopsAt(flags: Flags, t: string, j: nat)
    requires j <= |t| && StopsBlank(flags, Peek(t, j))
    ensures SkipFrom(flags, t, j) == Some(j)
  {
  }

  /** Blanks that end where nothing blank begins are skipped. */
  lemma SkipsBlank(inp: Input, c: Cursor, j: nat)
    requires Blank(inp.flags, inp.text, c.pos, j) && StopsBlank(inp.flags, Peek(inp.text, j))
    ensures Within(inp, c) && Skip(inp, c) == Good(c.(pos := j))
  {
    BlankSkipped(inp.flags, inp.text, c.pos, j);
    SkipIs(inp, c);
  }

  lemma NoBlank(flags: Flags, t: string, i: nat)
    requires i <= |t|
    ensures Blank(flags, t, i, i)
  {
  }

  lemma OneMoreBlank(flags: Flags, t: string, i: nat, k: nat, j: nat)
    requires i < k && BlankUnit(flags, t, i, k) && Blank(flags, t, k, j)
    ensures Blank(flags, t, i, j)
  {
  }

  /** What may stand before q: blanks, or blanks and an open comment at the end of the text. */
  ghost predicate BlankTo(flags: Flags, t: string, i: nat, q: nat) {
    Tail(flags, t, i, q) && (Blank(flags, t, i, q) || Peek(t, q) == '\0')
  }

  lemma OneMoreTail(flags: Flags, t: string, i: nat, k: nat, q: nat)
    requires i < k && BlankUnit(flags, t, i, k) && BlankTo(flags, t, k, q)
    ensures BlankTo(flags, t, i, q)
  {
    hide Blank, BlankUnit;
    if Blank(flags, t, k, q) {
      OneMoreBlank(flags, t, i, k, q);
    } else {
      var m: nat :| Blank(flags, t, k, m) && OpenComment(t, m, q);
      OneMoreBlank(flags, t, i, k, m);
    }
  }

  /** What is skipped is blank. */
  lemma {:induction false} SkippedIsBlank(flags: Flags, t: string, i: nat)
    requires i <= |t| && SkipFrom(flags, t, i).Some?
    ensures var q := SkipFrom(flags, t, i).value; BlankTo(flags, t, i, q) && StopsBlank(flags, Peek(t, q))
    decreases |t| - i
  {
    hide BlankTo, Blank;
    if IsSpace(Peek(t, i)) {
      assert SkipFrom(flags, t, i) == SkipFrom(flags, t, i + 1);
      SkippedIsBlank(flags, t, i + 1);
      OneMoreTail(flags, t, i, i + 1, SkipFrom(flags, t, i).value);
    } else if flags.comments && Peek(t, i) == '/' {
      SkippedComment(flags, t, i);
    } else {
      NothingSkipped(flags, t, i);
    }
  }

  lemma NothingSkipped(flags: Flags, t: string, i: nat)
    requires i <= |t|
    ensures BlankTo(flags, t, i, i)
  {
    NoBlank(flags, t, i);
  }

  lemma {:induction false} SkippedComment(flags: Flags, t: string, i: nat)
    requires i < |t| && flags.comments && t[i] == '/' && SkipFrom(flags, t, i).Some?
    ensures var q := SkipFrom(flags, t, i).value; BlankTo(flags, t, i, q) && StopsBlank(flags, Peek(t, q))
    decreases |t| - i, 0
  {
    hide BlankTo, Blank;
    var q := SkipFrom(flags, t, i).value;
    if Peek(t, i + 1) == '*' {
      BlockEndFinds(t, i + 2);
      var k := BlockEnd(t, i + 2).value;
      assert BlockComment(t, i, k);
      SkippedIsBlank(flags, t, k);
      OneMoreTail(flags, t, i, k, q);
    } else {
      LineEndFinds(t, i + 2);
      var k := LineEnd(t, i + 2);
      if k > i + 2 && t[k - 1] == '\n' {
        assert LineComment(t, i, k);
        SkippedIsBlank(flags, t, k);
        OneMoreTail(flags, t, i, k, q);
      } else {
        OpenAtEnd(flags, t, i, k);
      }
    }
  }

  lemma OpenAtEnd(flags: Flags, t: string, i: nat, e: nat)
    requires flags.comments && OpenComment(t, i, e) && Peek(t, e) == '\0' && LineEnd(t, i + 2) == e
    ensures SkipFrom(flags, t, i) == Some(e) && BlankTo(flags, t, i, e) && StopsBlank(flags, '\0')
  {
    NoBlank(flags, t, i);
    assert SpaceEnd(t, i) == i && SpaceEnd(t, e) == e && SkipComments(t, e) == Some(e);
  }

  // ---------------------------------------------------------------- strings

  lemma HexDigitIs(c: char)
    ensures HexDigit(c) == if HexOf(c) >= 0 then Some(HexOf(c)) else None
  {
  }

  lemma HexIsHex4(t: string, i: nat)
    ensures Hex(t, i, 4) == if Hex4(t, i) >= 0 then Some(Hex4(t, i)) else None
  {
    hide HexDigit, HexOf;
    HexDigitIs(Peek(t, i));
    HexDigitIs(Peek(t, i + 1));
    HexDigitIs(Peek(t, i + 2));
    HexDigitIs(Peek(t, i + 3));
    HexDigitIs('\0');
    assert HexOf('\0') == -1 by { NulIsNoDigit(); }
    assert Hex(t, i, 1) == if HexOf(Peek(t, i)) >= 0 then Some(HexOf(Peek(t, i))) else None;
    assert Hex(t, i, 2).Some? <==> HexOf(Peek(t, i)) >= 0 && HexOf(Peek(t, i + 1)) >= 0;
    assert Hex(t, i, 3).Some? <==> Hex(t, i, 2).Some? && HexOf(Peek(t, i + 2)) >= 0;
  }

  lemma NulIsNoDigit()
    ensures HexOf('\0') == -1
  {
  }

  /** UTF8::Encode gives the octets, and nothing else does. */
  lemma Utf8IsOctets(n: nat, u: string)
    requires n <= 0x10FFFF
    ensures Octets(n, u) <==> u == Utf8(n)
  {
    Utf8Octets(n);
    if Octets(n, u) { OctetsAreUtf8(n, u); }
  }

  lemma Utf8Octets(n: nat)
    requires n <= 0x10FFFF
    ensures Octets(n, Utf8(n))
  {
    if 0x80 <= n <= 0x7FF {
      Join2Of(n);
    } else if 0x800 <= n <= 0xFFFF {
      Join3Of(n);
    } else if n > 0xFFFF {
      Join4Of(n);
    }
  }

  lemma Join2Of(n: nat)
    ensures Join2(n / 0x40, n % 0x40) == n
  {
  }

  lemma Join3Of(n: nat)
    ensures Join3(n / 0x1000, n / 0x40 % 0x40, n % 0x40) == n
  {
    DivTwice(n);
    Join2Of(n);
    Join2Of(n / 0x40);
  }

  lemma Join4Of(n: nat)
    ensures Join4(n / 0x40000, n / 0x1000 % 0x40, n / 0x40 % 0x40, n % 0x40) == n
  {
    DivTwice(n);
    DivTwice(n / 0x40);
    Join2Of(n);
    Join3Of(n / 0x40);
  }

  lemma OctetsAreUtf8(n: nat, u: string)
    requires n <= 0x10FFFF && Octets(n, u)
    ensures u == Utf8(n)
  {
    if |u| == 2 {
      TwoOctets(n, u);
    } else if |u| == 3 {
      ThreeOctets(n, u);
    } else if |u| == 4 {
      FourOctets(n, u);
    }
  }

  lemma TwoOctets(n: nat, u: string)
    requires |u| == 2 && Octets(n, u)
    ensures u == Utf8(n)
  {
    Split2(u[0] as int - 0xC0, u[1] as int - 0x80);
  }

  lemma ThreeOctets(n: nat, u: string)
    requires |u| == 3 && Octets(n, u)
    ensures u == Utf8(n)
  {
    Split3(u[0] as int - 0xE0, u[1] as int - 0x80, u[2] as int - 0x80);
  }

  lemma FourOctets(n: nat, u: string)
    requires |u| == 4 && Octets(n, u)
    ensures u == Utf8(n)
  {
    Split4(u[0] as int - 0xF0, u[1] as int - 0x80, u[2] as int - 0x80, u[3] as int - 0x80);
  }

  /** An escape read is one of the grammar's, ... */
  lemma EscapeIsChar(flags: Flags, t: string, i: nat)
    requires i < |t| && t[i] == '\\' && Escape(flags, t, i + 1).Some?
    ensures var e := Escape(flags, t, i + 1).value; Char(flags, t, i, e.end, e.units)
  {
    hide Hex, Hex4, Octets, Utf8, HexOf, HexDigit;
    HexIsHex4(t, i + 2);
    HexIsHex4(t, i + 8);
    var e := Escape(flags, t, i + 1).value;
    if Peek(t, i + 1) == 'u' {
      var high, low := Hex4(t, i + 2), Hex4(t, i + 8);
      if 0xD800 <= high <= 0xDBFF {
        Utf8IsOctets(Surrogates(high, low), e.units);
      } else {
        Utf8IsOctets(high, e.units);
      }
    }
  }

  /** ... and each of the grammar's is read. */
  lemma CharIsEscape(flags: Flags, t: string, i: nat, j: nat, u: string)
    requires i < |t| && t[i] == '\\' && Char(flags, t, i, j, u)
    ensures Escape(flags, t, i + 1) == Some(Escaped(j, u))
  {
    hide Hex, Hex4, Octets, Utf8, HexOf, HexDigit;
    HexIsHex4(t, i + 2);
    HexIsHex4(t, i + 8);
    if UnitEscape(t, i, j, u) {
      Hex4Range(t, i + 2);
      Utf8IsOctets(Hex4(t, i + 2), u);
    } else if PairEscape(t, i, j, u) {
      Utf8IsOctets(Surrogates(Hex4(t, i + 2), Hex4(t, i + 8)), u);
    } else {
      assert u == [u[0]];
    }
  }

  lemma Hex4Range(t: string, i: nat)
    ensures -1 <= Hex4(t, i) < 0x10000
  {
    hide HexOf;
  }

  lemma CharIsTaken(flags: Flags, t: string, i: nat, j: nat, u: string, acc: string)
    requires Char(flags, t, i, j, u)
    ensures i < j <= |t| && StringFrom(flags, t, i, acc) == StringFrom(flags, t, j, acc + u)
  {
    hide Escape, UnitEscape, PairEscape, ShortEscape;
    if t[i] == '\\' { CharIsEscape(flags, t, i, j, u); }
  }

  lemma {:induction false} CharsAreRead(flags: Flags, t: string, i: nat, j: nat, str: string, acc: string)
    requires i <= j < |t| && Chars(flags, t, i, j, str) && t[j] == '\"'
    ensures StringFrom(flags, t, i, acc) == Some(Escaped(j + 1, acc + str))
    decreases j - i
  {
    hide Char, Escape;
    if i == j {
      assert acc + "" == acc;
    } else {
      var k: nat, u: string :| i < k <= j && Char(flags, t, i, k, u) && u <= str && Chars(flags, t, k, j, str[|u|..]);
      CharIsTaken(flags, t, i, k, u, acc);
      hide Chars, StringFrom;
      CharsAreRead(flags, t, k, j, str[|u|..], acc + u);
      assert acc + u + str[|u|..] == acc + str by { assert str == u + str[|u|..]; }
    }
  }

  lemma NoChars(flags: Flags, t: string, i: nat)
    requires i <= |t|
    ensures Chars(flags, t, i, i, "")
  {
  }

  lemma OneMoreChar(flags: Flags, t: string, i: nat, k: nat, j: nat, u: string, str: string)
    requires i < k <= j && Char(flags, t, i, k, u) && Chars(flags, t, k, j, str)
    ensures Chars(flags, t, i, j, u + str)
  {
    hide Char;
    assert (u + str)[|u|..] == str;
  }

  lemma {:induction false} ReadIsChars(flags: Flags, t: string, i: nat, acc: string) returns (str: string)
    requires StringFrom(flags, t, i, acc).Some?
    ensures var e := StringFrom(flags, t, i, acc).value;
            e.end > i && t[e.end - 1] == '\"' && e.units == acc + str && Chars(flags, t, i, e.end - 1, str)
    decreases |t| - i
  {
    hide Char, Chars, Escape;
    var e := StringFrom(flags, t, i, acc).value;
    if Peek(t, i) == '\\' {
      EscapeIsChar(flags, t, i);
      var d := Escape(flags, t, i + 1).value;
      str := ReadIsChars(flags, t, d.end, acc + d.units);
      OneMoreChar(flags, t, i, d.end, e.end - 1, d.units, str);
      str := d.units + str;
    } else if Peek(t, i) == '\"' {
      NoChars(flags, t, i);
      str := "";
    } else {
      str := ReadIsChars(flags, t, i + 1, acc + [t[i]]);
      PlainChar(flags, t, i);
      OneMoreChar(flags, t, i, i + 1, e.end - 1, [t[i]], str);
      str := [t[i]] + str;
    }
  }

  lemma PlainChar(flags: Flags, t: string, i: nat)
    requires i < |t| && t[i] != '\\' && t[i] != '\"' && t[i] >= ' '
    ensures Char(flags, t, i, i + 1, [t[i]])
  {
  }

  // ---------------------------------------------------------------- numbers

  lemma {:induction false} NumberIsDecimal(t: string, i: nat, j: nat)
    requires i <= j <= |t| && forall k :: i <= k < j ==> IsDigit(t[k])
    ensures NumberOf(t, i, j) == Decimal(t, i, j)
    decreases j
  {
    if i < j { NumberIsDecimal(t, i, j - 1); }
  }

  /** Whether the integer is sent as one. */
  lemma EventIsIn64(minus: bool, v: nat)
    ensures IntegerEvent(minus, v).Some? <==> In64(if minus then -(v as int) else v)
  {
  }

  lemma IntegerRead(t: string, i: nat)
    requires IntegerEnd(t, i).Some?
    ensures IntegerPart(t, i, IntegerEnd(t, i).value)
  {
  }

  lemma FractionRead(t: string, i: nat)
    requires i <= |t| && FractionEnd(t, i).Some?
    ensures FractionPart(t, i, FractionEnd(t, i).value)
  {
  }

  lemma ExponentRead(t: string, i: nat)
    requires i <= |t| && ExponentEnd(t, i).Some?
    ensures ExponentPart(t, i, ExponentEnd(t, i).value)
  {
  }

  /** A number read is one of the grammar's: an integer that fits 64 bits, or a real one. */
  lemma ReadIsNumber(inp: Input, c: Cursor)
    requires Within(inp, c) && ParseNumber(inp, c).Good?
    ensures var t, j := inp.text, ParseNumber(inp, c).at.pos;
            c.pos <= j <= |t|
            && if IntegerAt(t, c.pos, j, Signed(t, c.pos, j)) then IntegerSent(inp, c, j)
               else RealAt(t, c.pos, j) && !inp.tooBig(t[c.pos..j])
                    && ParseNumber(inp, c) == Emit(inp, c.(pos := j), Double(t[c.pos..j]))
  {
    hide Decimal, NumberOf, DigitsEnd, IntegerEnd, FractionEnd, ExponentEnd, IntegerEvent;
    var t := inp.text;
    var start := BehindMinus(t, c.pos);
    var p := IntegerEnd(t, start).value;
    var q := FractionEnd(t, p).value;
    IntegerRead(t, start);
    FractionRead(t, p);
    ExponentRead(t, q);
    NumberIsDecimal(t, start, p);
    EventIsIn64(Minus(t, c.pos), Decimal(t, start, p));
  }

  /** The integer at c, up to j, is sent. */
  ghost predicate IntegerSent(inp: Input, c: Cursor, j: nat)
    requires Within(inp, c)
  {
    var minus, start := Minus(inp.text, c.pos), BehindMinus(inp.text, c.pos);
    && start < j <= |inp.text| && (forall k :: start <= k < j ==> IsDigit(inp.text[k]))
    && IntegerEvent(minus, Decimal(inp.text, start, j)).Some?
    && ParseNumber(inp, c) ==
         Emit(inp, c.(pos := j), IntegerEvent(minus, Decimal(inp.text, start, j)).value)
    && Signed(inp.text, c.pos, j) ==
         (if minus then -(Decimal(inp.text, start, j) as int) else Decimal(inp.text, start, j))
  }

  lemma DigitsEndAt(t: string, i: nat, j: nat)
    requires SomeDigits(t, i, j) && !IsDigit(Peek(t, j))
    ensures DigitsEnd(t, i) == j
  {
    var q := DigitsEnd(t, i);
    assert !IsDigit(Peek(t, q)) && i <= q;
  }

  lemma IntegerEndAt(t: string, i: nat, j: nat)
    requires IntegerPart(t, i, j) && !IsDigit(Peek(t, j))
    ensures IntegerEnd(t, i) == Some(j)
  {
    DigitsEndAt(t, i, j);
  }

  lemma FractionEndAt(t: string, i: nat, j: nat)
    requires FractionPart(t, i, j) && !IsDigit(Peek(t, j)) && Peek(t, j) != '.'
    ensures i <= |t| && FractionEnd(t, i) == Some(j)
  {
    if i < j { DigitsEndAt(t, i + 1, j); }
  }

  lemma ExponentEndAt(t: string, i: nat, j: nat)
    requires ExponentPart(t, i, j) && JsonRoundTrip.Ends(Peek(t, j))
    ensures i <= |t| && ExponentEnd(t, i) == Some(j)
  {
    if i < j {
      if SomeDigits(t, i + 1, j) { DigitsEndAt(t, i + 1, j); } else { DigitsEndAt(t, i + 2, j); }
    }
  }

  lemma IntegerIsRead(inp: Input, c: Cursor, j: nat, n: int)
    requires IntegerAt(inp.text, c.pos, j, n) && JsonRoundTrip.Ends(Peek(inp.text, j))
    ensures Within(inp, c) && IntegerSent(inp, c, j) && n == Signed(inp.text, c.pos, j)
  {
    hide Decimal, NumberOf, DigitsEnd, IntegerEnd, FractionEnd, ExponentEnd, IntegerEvent;
    var t, start := inp.text, BehindMinus(inp.text, c.pos);
    IntegerEndAt(t, start, j);
    FractionEndAt(t, j, j);
    ExponentEndAt(t, j, j);
    NumberIsDecimal(t, start, j);
    EventIsIn64(Minus(t, c.pos), Decimal(t, start, j));
  }

  lemma RealIsRead(inp: Input, c: Cursor, j: nat)
    requires RealAt(inp.text, c.pos, j) && JsonRoundTrip.Ends(Peek(inp.text, j))
    requires c.pos <= j <= |inp.text| && !inp.tooBig(inp.text[c.pos..j])
    ensures ParseNumber(inp, c) == Emit(inp, c.(pos := j), Double(inp.text[c.pos..j]))
  {
    hide Decimal, NumberOf, DigitsEnd, IntegerEnd, FractionEnd, ExponentEnd, IntegerEvent;
    var t, start := inp.text, BehindMinus(inp.text, c.pos);
    var p: nat, q: nat :|
      && IntegerPart(t, start, p) && FractionPart(t, p, q) && ExponentPart(t, q, j)
      && (p == j ==> !In64(Signed(t, c.pos, j)));
    PartsEnd(t, p, q, j);
    IntegerEndAt(t, start, p);
    FractionEndAt(t, p, q);
    ExponentEndAt(t, q, j);
    NumberIsDecimal(t, start, p);
    EventIsIn64(Minus(t, c.pos), Decimal(t, start, p));
  }

  /** A part ends where the next one begins. */
  lemma PartsEnd(t: string, p: nat, q: nat, j: nat)
    requires FractionPart(t, p, q) && ExponentPart(t, q, j) && JsonRoundTrip.Ends(Peek(t, j))
    ensures !IsDigit(Peek(t, p)) && !IsDigit(Peek(t, q)) && Peek(t, q) != '.'
  {
  }
}
