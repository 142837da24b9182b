/** The classes Writer and PrettyWriter, refining JsonText. */
module JsonWriter {
  import opened JsonGrammar
  import opened JsonValue
  import opened JsonText

  class Writer {
    const style: Style
    var levels: seq<Level>
    var hasRoot: bool
    var out: string

    constructor (style: Style)
      requires ValidStyle(style)
      ensures this.style == style && View() == EMPTY
    {
      this.style := style;
      levels, hasRoot, out := [], false, "";
    }

    ghost function View(): State reads this { State(levels, hasRoot, out) }

    /** IsComplete. */
    predicate IsComplete() reads this { hasRoot && levels == [] }

    method WriteIndent(depth: nat)
      requires style.Pretty?
      modifies this`out
      ensures out == old(out) + Indent(style, depth)
    {
      var count := depth * style.indentCharCount;
      var i := 0;
      while i < count
        invariant 0 <= i <= count && out == old(out) + Repeat(style.indentChar, i)
      {
        out := out + [style.indentChar];
        i := i + 1;
      }
    }

    method PlainPrefix(isString: bool)
      requires style.Compact? && JsonText.Prefix(style, View(), isString).Some?
      modifies this
      ensures View() == JsonText.Prefix(style, old(View()), isString).value
    {
      if |levels| != 0 {
        var k := |levels| - 1;
        var level := levels[k];
        if level.valueCount > 0 {
          if level.inArray {
            out := out + ",";
          } else {
            out := out + (if level.valueCount % 2 == 0 then "," else ":");
          }
        }
        levels := levels[k := level.(valueCount := level.valueCount + 1)];
      } else {
        hasRoot := true;
      }
    }

    method SeparateElement(level: Level)
      requires style.Pretty? && level.inArray
      modifies this`out
      ensures out == old(out) + PrefixText(style, level, |levels|)
    {
      if level.valueCount > 0 {
        out := out + ",";
        if style.singleLineArray { out := out + " "; }
      }
      if !style.singleLineArray {
        out := out + "\n";
        WriteIndent(|levels|);
      }
    }

    method SeparateMember(level: Level)
      requires style.Pretty? && !level.inArray
      modifies this`out
      ensures out == old(out) + PrefixText(style, level, |levels|)
    {
      if level.valueCount > 0 {
        if level.valueCount % 2 == 0 {
          out := out + "," + "\n";
        } else {
          out := out + ":" + " ";
        }
      } else {
        out := out + "\n";
      }
      if level.valueCount % 2 == 0 { WriteIndent(|levels|); }
    }

    method PrettyPrefix(isString: bool)
      requires style.Pretty? && JsonText.Prefix(style, View(), isString).Some?
      modifies this
      ensures View() == JsonText.Prefix(style, old(View()), isString).value
    {
      hide PrefixText;
      if |levels| != 0 {
        var k := |levels| - 1;
        var level := levels[k];
        if level.inArray {
          SeparateElement(level);
        } else {
          SeparateMember(level);
        }
        levels := levels[k := level.(valueCount := level.valueCount + 1)];
      } else {
        hasRoot := true;
      }
    }

    method Prefix(isString: bool)
      requires JsonText.Prefix(style, View(), isString).Some?
      modifies this
      ensures View() == JsonText.Prefix(style, old(View()), isString).value
    {
      if style.Compact? { PlainPrefix(isString); } else { PrettyPrefix(isString); }
    }

    /** One unit of a string, with the escape it needs. */
    method WriteUnit(c: char)
      modifies this`out
      ensures out == old(out) + EscapeUnit(c)
    {
      if EscapeLetter(c) != '\0' {
        out := out + ['\\', EscapeLetter(c)];
        if EscapeLetter(c) == 'u' {
          out := out + ['0', '0', HexUpper(c as int / 16), HexUpper(c as int % 16)];
        }
      } else {
        out := out + [c];
      }
    }

    method WriteString(str: string)
      modifies this`out
      ensures out == old(out) + Quoted(str)
    {
      hide EscapeUnit, EscapeUnits;
      out := out + "\"";
      ghost var done := "";
      assert str[0..] == str;
      var i := 0;
      while i < |str|
        invariant 0 <= i <= |str| && out == old(out) + "\"" + done
        invariant done + EscapeUnits(str[i..]) == EscapeUnits(str)
      {
        WriteUnit(str[i]);
        EscapeNext(str, i);
        done := done + EscapeUnit(str[i]);
        i := i + 1;
      }
      assert str[i..] == "";
      EscapeNone();
      out := out + "\"";
    }

    method WriteInteger(value: int)
      modifies this`out
      ensures out == old(out) + Numeral(value)
    {
      out := out + Numeral(value);
    }

    // -------------------------------------------------------------- the handler functions

    method Null()
      requires Write(style, View(), Event.Null).Some?
      modifies this
      ensures View() == Write(style, old(View()), Event.Null).value
    {
      Prefix(false);
      out := out + "null";
    }

    method Bool(b: bool)
      requires Write(style, View(), Event.Bool(b)).Some?
      modifies this
      ensures View() == Write(style, old(View()), Event.Bool(b)).value
    {
      Prefix(false);
      out := out + if b then "true" else "false";
    }

    /** Int, Uint, Int64 and Uint64. */
    method Integer(e: Event)
      requires IsInteger(e) && Write(style, View(), e).Some?
      modifies this
      ensures View() == Write(style, old(View()), e).value
    {
      Prefix(false);
      WriteInteger(IntegerValue(e));
    }

    method String(str: string)
      requires Write(style, View(), Event.String(str)).Some?
      modifies this
      ensures View() == Write(style, old(View()), Event.String(str)).value
    {
      Prefix(true);
      WriteString(str);
    }

    method Key(name: string)
      requires Write(style, View(), Event.Key(name)).Some?
      modifies this
      ensures View() == Write(style, old(View()), Event.Key(name)).value
    {
      String(name);
    }

    method StartObject()
      requires Write(style, View(), Event.StartObject).Some?
      modifies this
      ensures View() == Write(style, old(View()), Event.StartObject).value
    {
      Prefix(false);
      levels := levels + [Level(0, false)];
      out := out + "{";
    }

    method EndObject(memberCount: nat)
      requires Write(style, View(), Event.EndObject(memberCount)).Some?
      modifies this
      ensures View() == Write(style, old(View()), Event.EndObject(memberCount)).value
    {
      var empty := levels[|levels| - 1].valueCount == 0;
      levels := levels[..|levels| - 1];
      if style.Pretty? && !empty {
        out := out + "\n";
        WriteIndent(|levels|);
      }
      out := out + "}";
    }

    method StartArray()
      requires Write(style, View(), Event.StartArray).Some?
      modifies this
      ensures View() == Write(style, old(View()), Event.StartArray).value
    {
      Prefix(false);
      levels := levels + [Level(0, true)];
      out := out + "[";
    }

    method EndArray(elementCount: nat)
      requires Write(style, View(), Event.EndArray(elementCount)).Some?
      modifies this
      ensures View() == Write(style, old(View()), Event.EndArray(elementCount)).value
    {
      var empty := levels[|levels| - 1].valueCount == 0;
      levels := levels[..|levels| - 1];
      if style.Pretty? && !empty && !style.singleLineArray {
        out := out + "\n";
        WriteIndent(|levels|);
      }
      out := out + "]";
    }

    method Handle(e: Event)
      requires Write(style, View(), e).Some?
      modifies this
      ensures View() == Write(style, old(View()), e).value
    {
      match e
      case Null => Null();
      case Bool(b) => Bool(b);
      case String(str) => String(str);
      case Key(name) => Key(name);
      case StartObject => StartObject();
      case EndObject(count) => EndObject(count);
      case StartArray => StartArray();
      case EndArray(count) => EndArray(count);
      case Int(_) => Integer(e);
      case Uint(_) => Integer(e);
      case Int64(_) => Integer(e);
      case Uint64(_) => Integer(e);
      case Double(_) => assert false;
    }

    /** A sequence of events. */
    method HandleAll(es: seq<Event>)
      requires WriteAll(style, View(), es).Some?
      modifies this
      ensures View() == WriteAll(style, old(View()), es).value
    {
      hide Write;
      var k := 0;
      assert es[0..] == es;
      while k < |es|
        invariant 0 <= k <= |es| && WriteAll(style, View(), es[k..]) == WriteAll(style, old(View()), es)
      {
        assert es[k..][0] == es[k] && es[k..][1..] == es[k + 1..];
        Handle(es[k]);
        k := k + 1;
      }
    }
  }
}
