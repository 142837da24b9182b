/** The reader of reader.h, method by method: recursive descent refining JsonGrammar, table-driven
    refining JsonMachine. */
module JsonReader {
  import opened JsonGrammar
  import JsonMachine
  import opened Wrappers

  class Reader {
    const inp: Input
    var pos: nat              // the stream: is.Tell()
    var events: seq<Event>    // what the handler was sent
    var failed: bool          // HasParseError()
    var stack: seq<JsonMachine.Frame>    // stack_, as the iterative parser uses it

    constructor (inp: Input)
      ensures this.inp == inp && Ready() && At() == Cursor(0, []) && stack == []
    {
      this.inp := inp;
      pos, events, failed, stack := 0, [], false, [];
    }

    ghost predicate Ready() reads this { pos <= |inp.text| && !failed }

    ghost function At(): Cursor reads this { Cursor(pos, events) }

    /** The state as the outcome of the call that just returned. */
    ghost function Outcome(): Parsed reads this { if failed then Bad(events) else Good(At()) }

    function Ahead(): char reads this { Peek(inp.text, pos) }

    /** Sends an event to the handler; its refusal is the error kParseErrorTermination. */
    method Send(e: Event)
      requires Ready()
      modifies this`events, this`failed
      ensures Outcome() == Emit(inp, old(At()), e)
    {
      events := events + [e];
      failed := !inp.handler(events);
    }

    method Consume(wanted: char) returns (found: bool)
      requires Ready() && wanted != '\0'
      modifies this`pos
      ensures found <==> old(Ahead()) == wanted
      ensures pos == if found then old(pos) + 1 else old(pos)
      ensures Ready()
    {
      found := Ahead() == wanted;
      if found { pos := pos + 1; }
    }

    // -------------------------------------------------------------- white space and comments

    method SkipWhitespace()
      requires Ready()
      modifies this`pos
      ensures Ready() && pos == SpaceEnd(inp.text, old(pos))
    {
      while IsSpace(Ahead())
        invariant Ready() && SpaceEnd(inp.text, pos) == SpaceEnd(inp.text, old(pos))
        decreases |inp.text| - pos
      {
        pos := pos + 1;
      }
    }

    /** Behind the slash and star that open a block comment. */
    method SkipBlockComment()
      requires Ready()
      modifies this`pos, this`failed
      ensures failed <==> BlockEnd(inp.text, old(pos)).None?
      ensures !failed ==> pos == BlockEnd(inp.text, old(pos)).value
    {
      while true
        invariant Ready() && BlockEnd(inp.text, pos) == BlockEnd(inp.text, old(pos))
        decreases |inp.text| - pos
      {
        if Ahead() == '\0' {
          failed := true;
          return;
        }
        var star := Consume('*');
        if star {
          var slash := Consume('/');
          if slash { break; }
        } else {
          pos := pos + 1;
        }
      }
    }

    /** Behind the two slashes of a line comment. */
    method SkipLineComment()
      requires Ready()
      modifies this`pos
      ensures Ready() && pos == LineEnd(inp.text, old(pos))
    {
      var more := true;
      while Ahead() != '\0' && more
        invariant Ready()
        invariant LineEnd(inp.text, old(pos)) == if more then LineEnd(inp.text, pos) else pos
        decreases |inp.text| - pos
      {
        more := Ahead() != '\n';
        pos := pos + 1;
      }
    }

    method SkipWhitespaceAndComments()
      requires Ready()
      modifies this`pos, this`failed
      ensures Outcome() == Skip(inp, old(At()))
    {
      hide BlockEnd, LineEnd, SpaceEnd;
      SkipWhitespace();
      if inp.flags.comments {
        ghost var end := SkipComments(inp.text, pos);
        var slash := Consume('/');
        while slash
          invariant Ready()
          invariant end == if slash then SkipComments(inp.text, pos - 1) else Some(pos)
          invariant slash ==> 0 < pos && inp.text[pos - 1] == '/'
          decreases |inp.text| - pos, slash
        {
          var star := Consume('*');
          if star {
            SkipBlockComment();
            if failed { return; }
          } else {
            var second := Consume('/');
            if second {
              SkipLineComment();
            } else {
              failed := true;
              return;
            }
          }
          SkipWhitespace();
          slash := Consume('/');
        }
      }
    }

    // -------------------------------------------------------------- strings

    method ParseHex4() returns (codepoint: nat)
      requires Ready()
      modifies this`pos, this`failed
      ensures failed <==> Hex(inp.text, old(pos), 4).None?
      ensures !failed ==> Ready() && pos == old(pos) + 4 && codepoint == Hex(inp.text, old(pos), 4).value
    {
      codepoint := 0;
      var i := 0;
      while i < 4
        invariant 0 <= i <= 4 && Ready() && pos == old(pos) + i
        invariant Hex(inp.text, old(pos), i) == Some(codepoint)
      {
        var d := HexDigit(Ahead());
        if d.None? {
          failed := true;
          HexStaysNone(inp.text, old(pos), i + 1);
          return;
        }
        codepoint := codepoint * 16 + d.value;
        pos := pos + 1;
        i := i + 1;
      }
    }

    /** Behind \u: one code point, joined from two surrogates where they come. */
    method ParseUnicodeEscape() returns (units: string)
      requires Ready()
      modifies this`pos, this`failed
      ensures failed <==> UnicodeEscape(inp.text, old(pos)).None?
      ensures !failed ==> Ready() && UnicodeEscape(inp.text, old(pos)) == Some(Escaped(pos, units))
    {
      units := "";
      var codepoint := ParseHex4();
      if failed { return; }
      if 0xD800 <= codepoint <= 0xDBFF {
        var u := Consume('\\');
        if u { u := Consume('u'); }
        if !u {
          failed := true;
          return;
        }
        var codepoint2 := ParseHex4();
        if failed { return; }
        if codepoint2 < 0xDC00 || codepoint2 > 0xDFFF {
          failed := true;
          return;
        }
        codepoint := Surrogates(codepoint, codepoint2);
      }
      units := Utf8(codepoint);
    }

    /** Behind the opening quote; `os` collects what is put. */
    method ParseStringToStream() returns (os: string)
      requires Ready()
      modifies this`pos, this`failed
      ensures failed <==> StringFrom(inp.flags, inp.text, old(pos), "").None?
      ensures !failed ==> Ready() && StringFrom(inp.flags, inp.text, old(pos), "") == Some(Escaped(pos, os))
    {
      os := "";
      while true
        invariant Ready()
        invariant StringFrom(inp.flags, inp.text, pos, os) == StringFrom(inp.flags, inp.text, old(pos), "")
        decreases |inp.text| - pos
      {
        var c := Ahead();
        if c == '\\' {
          pos := pos + 1;
          var e := Ahead();
          if Unescape(e) != '\0' {
            pos := pos + 1;
            os := os + [Unescape(e)];
          } else if inp.flags.escapedApostrophe && e == '\'' {
            pos := pos + 1;
            os := os + "'";
          } else if e == 'u' {
            pos := pos + 1;
            var units := ParseUnicodeEscape();
            if failed { return; }
            os := os + units;
          } else {
            failed := true;
            return;
          }
        } else if c == '\"' {
          pos := pos + 1;
          return;
        } else if c < ' ' {
          failed := true;
          return;
        } else {
          os := os + [c];
          pos := pos + 1;
        }
      }
    }

    method ParseString(isKey: bool)
      requires Ready() && Ahead() == '\"'
      modifies this`pos, this`events, this`failed
      ensures Outcome() == JsonGrammar.ParseString(inp, old(At()), isKey)
    {
      pos := pos + 1;
      var str := ParseStringToStream();
      if failed { return; }
      Send(if isKey then Key(str) else String(str));
    }

    // -------------------------------------------------------------- numbers

    /** Takes digits while the number from `start` stays at most 10 * limit + last, which must fit the
        machine word it is kept in; stops with `full` at the digit that would pass that. */
    method TakeDigits(start: nat, v0: nat, limit: nat, last: char) returns (v: nat, full: bool)
      requires Ready() && IsDigit(last) && start <= pos && AreDigits(inp.text, start, pos)
      requires v0 == Decimal(inp.text, start, pos) <= limit * 10 + DigitValue(last)
      modifies this`pos
      ensures Ready() && old(pos) <= pos && AreDigits(inp.text, start, pos)
      ensures v == Decimal(inp.text, start, pos) <= limit * 10 + DigitValue(last)
      ensures full <==> IsDigit(Ahead())
      ensures full ==> AreDigits(inp.text, start, pos + 1)
      ensures full ==> Decimal(inp.text, start, pos + 1) > limit * 10 + DigitValue(last)
    {
      v, full := v0, false;
      while IsDigit(Ahead()) && !full
        invariant Ready() && old(pos) <= pos && AreDigits(inp.text, start, pos)
        invariant v == Decimal(inp.text, start, pos) <= limit * 10 + DigitValue(last)
        invariant full ==> IsDigit(Ahead()) && v * 10 + DigitValue(Ahead()) > limit * 10 + DigitValue(last)
        decreases |inp.text| - pos, !full
      {
        if v >= limit && (v != limit || Ahead() > last) {
          full := true;
        } else {
          v := v * 10 + DigitValue(Ahead());
          pos := pos + 1;
        }
      }
    }

    method SkipDigits()
      requires Ready()
      modifies this`pos
      ensures Ready() && pos == DigitsEnd(inp.text, old(pos))
    {
      while IsDigit(Ahead())
        invariant Ready() && DigitsEnd(inp.text, pos) == DigitsEnd(inp.text, old(pos))
        decreases |inp.text| - pos
      {
        pos := pos + 1;
      }
    }

    /** Goes on in 64 bits at the digit where 32 were not enough, and past it all if 64 are not. */
    method ParseInteger64(minus: bool, start: nat, i: nat) returns (i64: nat, useDouble: bool)
      requires Ready() && start <= pos && AreDigits(inp.text, start, pos)
               && i == Decimal(inp.text, start, pos) < 0x1_0000_0000
      modifies this`pos
      ensures Ready() && pos == DigitsEnd(inp.text, old(pos)) && AreDigits(inp.text, start, pos)
      ensures var wide := if minus then 0x8000_0000_0000_0000 else 0xFFFF_FFFF_FFFF_FFFF;
              var v := Decimal(inp.text, start, pos);
              if useDouble then v > wide else v == i64 <= wide
    {
      hide Decimal;
      if minus {
        i64, useDouble := TakeDigits(start, i, 0x0CCC_CCCC_CCCC_CCCC, '8');
      } else {
        i64, useDouble := TakeDigits(start, i, 0x1999_9999_9999_9999, '5');
      }
      DigitsEndAt(inp.text, old(pos), pos);
      if useDouble {
        ghost var q := pos;
        SkipDigits();
        DecimalGrows(inp.text, start, q + 1, pos);
      }
    }

    /** The digits of an integer: `i` holds it if it fits 32 bits, else `i64` if it fits 64 bits. */
    method ParseInteger(minus: bool) returns (i: nat, i64: nat, use64bit: bool, useDouble: bool)
      requires Ready()
      modifies this`pos, this`failed
      ensures failed <==> IntegerEnd(inp.text, old(pos)).None?
      ensures !failed ==> Ready() && IntegerEnd(inp.text, old(pos)) == Some(pos)
      ensures !failed ==> IntegerFits(minus, Decimal(inp.text, old(pos), pos), i, i64, use64bit, useDouble)
    {
      hide Decimal;
      var start := pos;
      i, i64, use64bit, useDouble := 0, 0, false, false;
      if Ahead() == '0' {
        OneDigit(inp.text, pos);
        pos := pos + 1;
      } else if '1' <= Ahead() <= '9' {
        OneDigit(inp.text, pos);
        i := DigitValue(Ahead());
        pos := pos + 1;
        if minus {
          i, use64bit := TakeDigits(start, i, 214748364, '8');
        } else {
          i, use64bit := TakeDigits(start, i, 429496729, '5');
        }
        DigitsEndAt(inp.text, start, pos);
        if use64bit {
          ghost var p := pos;
          i64, useDouble := ParseInteger64(minus, start, i);
          DecimalGrows(inp.text, start, p + 1, pos);
        }
      } else {
        failed := true;
      }
    }

    method SkipFraction() returns (any: bool)
      requires Ready()
      modifies this`pos, this`failed
      ensures failed <==> FractionEnd(inp.text, old(pos)).None?
      ensures !failed ==> Ready() && Some(pos) == FractionEnd(inp.text, old(pos)) && (any <==> pos != old(pos))
    {
      any := Consume('.');
      if any {
        if !IsDigit(Ahead()) {
          failed := true;
          return;
        }
        SkipDigits();
      }
    }

    /** The exponent; its value is left to strtod. */
    method SkipExponent() returns (any: bool)
      requires Ready()
      modifies this`pos, this`failed
      ensures failed <==> ExponentEnd(inp.text, old(pos)).None?
      ensures !failed ==> Ready() && Some(pos) == ExponentEnd(inp.text, old(pos)) && (any <==> pos != old(pos))
    {
      any := Consume('e');
      if !any { any := Consume('E'); }
      if any {
        var sign := Consume('+');
        if !sign { sign := Consume('-'); }
        if !IsDigit(Ahead()) {
          failed := true;
          return;
        }
        SkipDigits();
      }
    }

    method ParseNumber()
      requires Ready()
      modifies this`pos, this`events, this`failed
      ensures Outcome() == JsonGrammar.ParseNumber(inp, old(At()))
    {
      var startOffset := pos;
      var minus := Consume('-');
      var start := pos;
      var i, i64, use64bit, useDouble := ParseInteger(minus);
      if failed { return; }
      var end := pos;
      var fraction := SkipFraction();
      if failed { return; }
      var exponent := SkipExponent();
      if failed { return; }
      if useDouble || fraction || exponent {
        var lexeme := inp.text[startOffset..pos];
        if inp.tooBig(lexeme) {
          failed := true;
        } else {
          Send(Double(lexeme));
        }
      } else if use64bit {
        Send(if minus then Int64(-(i64 as int)) else Uint64(i64));
      } else {
        Send(if minus then Int(-(i as int)) else Uint(i));
      }
    }

    // -------------------------------------------------------------- values

    /** ParseNull, ParseTrue and ParseFalse: the first letter has been seen. */
    method ParseLiteral(word: string, e: Event)
      requires Ready() && |word| > 1 && Ahead() == word[0] && '\0' !in word
      modifies this`pos, this`events, this`failed
      ensures Outcome() == JsonGrammar.ParseLiteral(inp, old(At()), word, e)
    {
      pos := pos + 1;
      var k := 1;
      while k < |word|
        invariant 1 <= k <= |word| && Ready() && pos == old(pos) + k && events == old(events)
        invariant inp.text[old(pos)..pos] == word[..k]
      {
        var same := Consume(word[k]);
        if !same {
          failed := true;
          NotTheWord(inp.text, old(pos), word, k);
          return;
        }
        k := k + 1;
      }
      Send(e);
    }

    /** One round of ParseObject's loop up to behind the value: name, colon, value. */
    method ParseMember(ghost count: nat)
      requires Ready()
      modifies this`pos, this`events, this`failed
      ensures failed ==> MemberFrom(inp, old(At()), count) == Bad(events)
      ensures !failed ==> Ready() && old(pos) < pos
      ensures !failed ==> MemberFrom(inp, old(At()), count) == AfterMember(inp, At(), count)
      decreases |inp.text| - pos, 5
    {
      if Ahead() != '\"' {
        failed := true;
        return;
      }
      ParseString(true);
      if failed { return; }
      SkipWhitespaceAndComments();
      if failed { return; }
      ghost var name := At();
      assert MemberFrom(inp, old(At()), count) == AfterName(inp, name, count);
      hide MemberFrom;
      var colon := Consume(':');
      if !colon {
        failed := true;
        return;
      }
      SkipWhitespaceAndComments();
      if failed { return; }
      ghost var value := At();
      assert AfterName(inp, name, count) == AfterColon(inp, value, count);
      hide AfterName;
      ParseValue();
      if failed { return; }
      SkipWhitespaceAndComments();
    }

    /** The rest of the round, with `count` members now complete. */
    method ParseMemberEnd(ghost before: nat, count: nat) returns (done: bool)
      requires Ready() && count == Next(before)
      modifies this`pos, this`events, this`failed
      ensures failed || done ==> Outcome() == AfterMember(inp, old(At()), before)
      ensures !failed && !done ==> Ready() && old(pos) < pos
      ensures !failed && !done ==> AfterMember(inp, old(At()), before) == MemberFrom(inp, At(), count)
    {
      hide MemberFrom;
      done := false;
      if Ahead() == ',' {
        pos := pos + 1;
        SkipWhitespaceAndComments();
        if failed { return; }
      } else if Ahead() == '}' {
        pos := pos + 1;
        Send(EndObject(count));
        done := true;
        return;
      } else {
        failed := true;
        return;
      }
      if inp.flags.trailingCommas {
        if Ahead() == '}' {
          Send(EndObject(count));
          if failed { return; }
          pos := pos + 1;
          done := true;
        }
      }
    }

    method ParseObject()
      requires Ready() && Ahead() == '{'
      modifies this`pos, this`events, this`failed
      ensures Outcome() == JsonGrammar.ParseObject(inp, old(At()))
      decreases |inp.text| - pos, 0
    {
      hide MemberFrom, AfterMember;
      pos := pos + 1;
      Send(StartObject);
      if failed { return; }
      SkipWhitespaceAndComments();
      if failed { return; }
      var empty := Consume('}');
      if empty {
        Send(EndObject(0));
        return;
      }
      var memberCount := 0;
      while true
        invariant Ready() && old(pos) < pos
        invariant MemberFrom(inp, At(), memberCount) == JsonGrammar.ParseObject(inp, old(At()))
        decreases |inp.text| - pos
      {
        ParseMember(memberCount);
        if failed { return; }
        ghost var before := memberCount;
        memberCount := Next(memberCount);
        var done := ParseMemberEnd(before, memberCount);
        if failed || done { return; }
      }
    }

    /** Behind an element; `count` elements are now complete. */
    method ParseElementEnd(ghost before: nat, count: nat) returns (done: bool)
      requires Ready() && count == Next(before)
      modifies this`pos, this`events, this`failed
      ensures failed || done ==> Outcome() == AfterElement(inp, old(At()), before)
      ensures !failed && !done ==> Ready() && old(pos) < pos
      ensures !failed && !done ==> AfterElement(inp, old(At()), before) == ElementFrom(inp, At(), count)
    {
      hide ElementFrom;
      done := false;
      var comma := Consume(',');
      if comma {
        SkipWhitespaceAndComments();
        if failed { return; }
      } else {
        var close := Consume(']');
        if close {
          Send(EndArray(count));
          done := true;
        } else {
          failed := true;
        }
        return;
      }
      if inp.flags.trailingCommas {
        if Ahead() == ']' {
          Send(EndArray(count));
          if failed { return; }
          pos := pos + 1;
          done := true;
        }
      }
    }

    method ParseArray()
      requires Ready() && Ahead() == '['
      modifies this`pos, this`events, this`failed
      ensures Outcome() == JsonGrammar.ParseArray(inp, old(At()))
      decreases |inp.text| - pos, 0
    {
      hide AfterElement, JsonGrammar.ParseValue;
      pos := pos + 1;
      Send(StartArray);
      if failed { return; }
      SkipWhitespaceAndComments();
      if failed { return; }
      var empty := Consume(']');
      if empty {
        Send(EndArray(0));
        return;
      }
      var elementCount := 0;
      while true
        invariant Ready() && old(pos) < pos
        invariant ElementFrom(inp, At(), elementCount) == JsonGrammar.ParseArray(inp, old(At()))
        decreases |inp.text| - pos
      {
        ParseValue();
        if failed { return; }
        ghost var before := elementCount;
        elementCount := Next(elementCount);
        SkipWhitespaceAndComments();
        if failed { return; }
        var done := ParseElementEnd(before, elementCount);
        if failed || done { return; }
      }
    }

    method ParseValue()
      requires Ready()
      modifies this`pos, this`events, this`failed
      ensures Outcome() == JsonGrammar.ParseValue(inp, old(At()))
      decreases |inp.text| - pos, 1
    {
      var c := Ahead();
      if c == 'n' {
        ParseLiteral("null", Null);
      } else if c == 't' {
        ParseLiteral("true", Bool(true));
      } else if c == 'f' {
        ParseLiteral("false", Bool(false));
      } else if c == '\"' {
        ParseString(false);
      } else if c == '{' {
        ParseObject();
      } else if c == '[' {
        ParseArray();
      } else {
        ParseNumber();
      }
    }

    /** Parse, on a new stream; `ok` is the absence of a parse error. */
    method Parse() returns (ok: bool)
      requires Ready() && At() == Cursor(0, [])
      modifies this`pos, this`events, this`failed
      ensures Outcome() == ParseText(inp) && (ok <==> ParseText(inp).Good?)
    {
      ok := false;
      SkipWhitespaceAndComments();
      if failed { return; }
      if Ahead() == '\0' {
        failed := true;
        return;
      }
      ParseValue();
      if failed { return; }
      if !inp.flags.stopWhenDone {
        SkipWhitespaceAndComments();
        if failed { return; }
        if Ahead() != '\0' {
          failed := true;
          return;
        }
      }
      ok := true;
    }

    // -------------------------------------------------------------- iterative parsing

    method Open(src: JsonMachine.State, dst: JsonMachine.State) returns (d: JsonMachine.State)
      requires Ready() && Ahead() != '\0' && (dst.ObjectInitial? || dst.ArrayInitial?)
      modifies this
      ensures var e := if dst.ObjectInitial? then StartObject else StartArray;
              Reached(d, JsonMachine.Open(inp, src, dst, old(stack), old(At()), e))
    {
      var n := src;
      if src.ArrayInitial? || src.ElementDelimiter? {
        n := JsonMachine.Element;
      } else if src.KeyValueDelimiter? {
        n := JsonMachine.MemberValue;
      }
      stack := stack + [JsonMachine.Frame(n, 0)];
      Send(if dst.ObjectInitial? then StartObject else StartArray);
      if failed { return JsonMachine.Error; }
      pos := pos + 1;
      d := dst;
    }

    /** Pops a frame, counts the last item if no delimiter follows it, and restores the outer state. */
    method Close(uncounted: bool, isObject: bool) returns (d: JsonMachine.State)
      requires Ready() && Ahead() != '\0' && stack != []
      modifies this
      ensures var c := JsonMachine.Items(old(stack), uncounted);
              Reached(d, JsonMachine.Close(inp, old(stack), old(At()), if isObject then EndObject(c) else EndArray(c)))
    {
      var c := JsonMachine.Top(stack).count;
      if uncounted { c := Next(c); }
      d := JsonMachine.Top(stack).state;
      stack := JsonMachine.Pop(stack);
      if d.Start? { d := JsonMachine.Finish; }
      Send(if isObject then EndObject(c) else EndArray(c));
      if failed { return JsonMachine.Error; }
      pos := pos + 1;
    }

    /** The state is the one the transition m reaches. */
    ghost predicate Reached(d: JsonMachine.State, m: JsonMachine.Moved)
      reads this
    {
      if m.Stuck? then d.Error? && events == m.events
      else !failed && d == m.state && stack == m.stack && At() == m.at
    }

    method Transit(src: JsonMachine.State, dst: JsonMachine.State) returns (d: JsonMachine.State)
      requires Ready() && JsonMachine.Shaped(src, stack) && Ahead() != '\0'
      requires dst == JsonMachine.Predict(src, JsonMachine.Tokenize(Ahead()))
      modifies this
      ensures Reached(d, JsonMachine.Step(inp, src, old(stack), old(At())))
    {
      hide JsonMachine.Open, JsonMachine.Close;
      d := dst;
      match dst {
        case Error =>
        case ObjectInitial => d := Open(src, dst);
        case ArrayInitial => d := Open(src, dst);
        case MemberKey =>
          ParseString(true);
          if failed { d := JsonMachine.Error; }
        case KeyValueDelimiter => pos := pos + 1;
        case MemberValue =>
          ParseValue();
          if failed { d := JsonMachine.Error; }
        case Element =>
          ParseValue();
          if failed { d := JsonMachine.Error; }
        case MemberDelimiter =>
          pos := pos + 1;
          stack := JsonMachine.Counted(stack);
        case ElementDelimiter =>
          pos := pos + 1;
          stack := JsonMachine.Counted(stack);
        case ObjectFinish =>
          if !inp.flags.trailingCommas && src.MemberDelimiter? {
            failed := true;
            return JsonMachine.Error;
          }
          d := Close(src.MemberValue?, true);
        case ArrayFinish =>
          if !inp.flags.trailingCommas && src.ElementDelimiter? {
            failed := true;
            return JsonMachine.Error;
          }
          d := Close(src.Element?, false);
        case Value =>
          ParseValue();
          d := if failed then JsonMachine.Error else JsonMachine.Finish;
      }
    }

    /** IterativeParse, on a new stream. */
    method IterativeParse() returns (ok: bool)
      requires Ready() && At() == Cursor(0, []) && stack == []
      modifies this
      ensures Outcome() == JsonMachine.IterativeText(inp)
      ensures Outcome() == ParseText(inp) && (ok <==> ParseText(inp).Good?)
    {
      hide JsonMachine.Step;
      JsonMachine.IterativeIsRecursive(inp);
      hide ParseText;
      var state := JsonMachine.Start;
      ok := false;
      SkipWhitespaceAndComments();
      if failed { return; }
      while Ahead() != '\0'
        invariant Ready() && JsonMachine.Shaped(state, stack)
        invariant JsonMachine.Loop(inp, state, stack, At()) == JsonMachine.IterativeText(inp)
        decreases |inp.text| - pos
      {
        JsonMachine.StepKeeps(inp, state, stack, At());
        var n := JsonMachine.Predict(state, JsonMachine.Tokenize(Ahead()));
        var d := Transit(state, n);
        if d.Error? {
          failed := true;    // HandleError
          return;
        }
        state := d;
        if inp.flags.stopWhenDone && state.Finish? {
          return true;
        }
        SkipWhitespaceAndComments();
        if failed { return; }
      }
      ok := state.Finish?;
      failed := !ok;    // HandleError
    }
  }

  lemma NotTheWord(t: string, p: nat, word: string, k: nat)
    requires k < |word| && Peek(t, p + k) != word[k]
    ensures p + |word| <= |t| ==> t[p..p + |word|] != word
  {
    if p + |word| <= |t| { assert t[p..p + |word|][k] == t[p + k]; }
  }

  lemma HexStaysNone(t: string, p: nat, n: nat)
    requires n <= 4 && Hex(t, p, n).None?
    ensures Hex(t, p, 4).None?
    decreases 4 - n
  {
    if n < 4 { HexStaysNone(t, p, n + 1); }
  }

  // ---------------------------------------------------------------- runs of digits

  predicate AreDigits(t: string, lo: nat, hi: nat) {
    lo <= hi <= |t| && forall k :: lo <= k < hi ==> IsDigit(t[k])
  }

  lemma OneDigit(t: string, p: nat)
    requires p < |t| && IsDigit(t[p])
    ensures Decimal(t, p, p + 1) == DigitValue(t[p])
  {
  }

  lemma {:induction false} DigitsEndAt(t: string, lo: nat, hi: nat)
    requires AreDigits(t, lo, hi)
    ensures DigitsEnd(t, lo) == DigitsEnd(t, hi)
    decreases hi - lo
  {
    if lo < hi { DigitsEndAt(t, lo + 1, hi); }
  }

  lemma {:induction false} DecimalGrows(t: string, lo: nat, mid: nat, hi: nat)
    requires AreDigits(t, lo, hi) && lo <= mid <= hi
    ensures Decimal(t, lo, mid) <= Decimal(t, lo, hi)
    decreases hi
  {
    if mid < hi { DecimalGrows(t, lo, mid, hi - 1); }
  }

  /** What the two words and two flags of ParseNumber say about the value v. */
  predicate IntegerFits(minus: bool, v: nat, i: nat, i64: nat, use64bit: bool, useDouble: bool) {
    var word := if minus then 0x8000_0000 else 0xFFFF_FFFF;
    var wide := if minus then 0x8000_0000_0000_0000 else 0xFFFF_FFFF_FFFF_FFFF;
    if useDouble then use64bit && v > wide
    else if use64bit then word < v <= wide && v == i64
    else v <= word && v == i
  }
}
