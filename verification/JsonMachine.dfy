/**
 The table-driven reader of reader.h: tokens, states, the prediction table, the transitions on the
 stack of frames, and the proof that the machine accepts exactly the texts the recursive descent
 accepts, with the same events.
 */
module JsonMachine {
  import opened JsonGrammar

  datatype Token =
    | LeftBracket | RightBracket | LeftCurlyBracket | RightCurlyBracket | Comma | Colon
    | StringToken | FalseToken | TrueToken | NullToken | NumberToken

  datatype State =
    | Finish | Error | Start
    | ObjectInitial | MemberKey | MemberValue | ObjectFinish
    | ArrayInitial | Element | ArrayFinish
    | Value
    | ElementDelimiter | MemberDelimiter | KeyValueDelimiter

  /** What is pushed at an opening bracket: the state to return to and the count of complete items. */
  datatype Frame = Frame(state: State, count: nat)

  function Tokenize(c: char): Token {
    match c
    case '[' => LeftBracket
    case ']' => RightBracket
    case '{' => LeftCurlyBracket
    case '}' => RightCurlyBracket
    case ',' => Comma
    case ':' => Colon
    case '\"' => StringToken
    case 'f' => FalseToken
    case 't' => TrueToken
    case 'n' => NullToken
    case _ => NumberToken
  }

  /** The rows of the table in which a value may start: compound values open a frame, others lead to `scalar`. */
  function PredictValue(token: Token, scalar: State): State {
    match token
    case LeftBracket => ArrayInitial
    case LeftCurlyBracket => ObjectInitial
    case StringToken => scalar
    case FalseToken => scalar
    case TrueToken => scalar
    case NullToken => scalar
    case NumberToken => scalar
    case _ => Error
  }

  /** The prediction table G. */
  function Predict(state: State, token: Token): State {
    match state
    case Start => PredictValue(token, Value)
    case ObjectInitial =>
      if token == RightCurlyBracket then ObjectFinish else if token == StringToken then MemberKey else Error
    case MemberKey => if token == Colon then KeyValueDelimiter else Error
    case MemberValue =>
      if token == RightCurlyBracket then ObjectFinish else if token == Comma then MemberDelimiter else Error
    case ArrayInitial => if token == RightBracket then ArrayFinish else PredictValue(token, Element)
    case Element => if token == RightBracket then ArrayFinish else if token == Comma then ElementDelimiter else Error
    case ElementDelimiter => if token == RightBracket then ArrayFinish else PredictValue(token, Element)
    case MemberDelimiter =>
      if token == RightCurlyBracket then ObjectFinish else if token == StringToken then MemberKey else Error
    case KeyValueDelimiter => PredictValue(token, MemberValue)
    case _ => Error
  }

  // ---------------------------------------------------------------- transitions

  /** States in which the machine waits for a token inside an object or an array. */
  predicate Inside(state: State) {
    match state
    case Finish => false
    case Error => false
    case Start => false
    case ObjectFinish => false
    case ArrayFinish => false
    case Value => false
    case _ => true
  }

  /** The stack: the outermost frame returns to the start, the others into an enclosing container. */
  predicate IsStack(stack: seq<Frame>) {
    forall i :: 0 <= i < |stack| ==>
      if i == 0 then stack[i].state == Start else stack[i].state == Element || stack[i].state == MemberValue
  }

  function Top(stack: seq<Frame>): Frame requires stack != [] { stack[|stack| - 1] }

  function Pop(stack: seq<Frame>): seq<Frame> requires stack != [] { stack[..|stack| - 1] }

  predicate Shaped(state: State, stack: seq<Frame>) {
    && IsStack(stack)
    && ((state == Start || state == Finish) ==> stack == [])
    && (!(state == Start || state == Finish) ==> Inside(state) && stack != [])
    && ((state == ObjectInitial || state == ArrayInitial) ==> Top(stack).count == 0)
  }

  datatype Moved = Moved(state: State, stack: seq<Frame>, at: Cursor) | Stuck(events: seq<Event>)

  function Move(state: State, stack: seq<Frame>, r: Parsed): Moved {
    if r.Good? then Moved(state, stack, r.at) else Stuck(r.events)
  }

  /** The state to come back to when a container opened in `src` is closed. */
  function ReturnState(src: State): State {
    match src
    case ArrayInitial => Element
    case ElementDelimiter => Element
    case KeyValueDelimiter => MemberValue
    case _ => src
  }

  function Open(inp: Input, src: State, dst: State, stack: seq<Frame>, c: Cursor, e: Event): Moved {
    var r := Emit(inp, c, e);
    Move(dst, stack + [Frame(ReturnState(src), 0)], if r.Good? then Good(Take(r.at)) else r)
  }

  /** The state after a container is closed. */
  function Resumed(frame: Frame): State { if frame.state == Start then Finish else frame.state }

  /** The items of the innermost container; the last one is counted when no delimiter follows it. */
  function Items(stack: seq<Frame>, uncounted: bool): nat
    requires stack != []
  {
    if uncounted then Next(Top(stack).count) else Top(stack).count
  }

  function Close(inp: Input, stack: seq<Frame>, c: Cursor, e: Event): Moved
    requires stack != []
  {
    var r := Emit(inp, c, e);
    Move(Resumed(Top(stack)), Pop(stack), if r.Good? then Good(Take(r.at)) else r)
  }

  function Counted(stack: seq<Frame>): seq<Frame>
    requires stack != []
  {
    Pop(stack) + [Top(stack).(count := Next(Top(stack).count))]
  }

  /** Transit, from `src` to the predicted `dst`. */
  function Transit(inp: Input, src: State, dst: State, stack: seq<Frame>, c: Cursor): Moved
    requires Within(inp, c) && Shaped(src, stack) && dst == Predict(src, Tokenize(Peek(inp.text, c.pos)))
  {
    match dst
    case Error => Stuck(c.events)
    case ObjectInitial => Open(inp, src, dst, stack, c, StartObject)
    case ArrayInitial => Open(inp, src, dst, stack, c, StartArray)
    case MemberKey => Move(dst, stack, ParseString(inp, c, true))
    case KeyValueDelimiter => Moved(dst, stack, Take(c))
    case MemberValue => Move(dst, stack, ParseValue(inp, c))
    case Element => Move(dst, stack, ParseValue(inp, c))
    case MemberDelimiter => Moved(dst, Counted(stack), Take(c))
    case ElementDelimiter => Moved(dst, Counted(stack), Take(c))
    case ObjectFinish =>
      if !inp.flags.trailingCommas && src == MemberDelimiter then Stuck(c.events)
      else Close(inp, stack, c, EndObject(Items(stack, src == MemberValue)))
    case ArrayFinish =>
      if !inp.flags.trailingCommas && src == ElementDelimiter then Stuck(c.events)
      else Close(inp, stack, c, EndArray(Items(stack, src == Element)))
    case Value => Move(Finish, stack, ParseValue(inp, c))
  }

  function Step(inp: Input, state: State, stack: seq<Frame>, c: Cursor): Moved
    requires Within(inp, c) && Shaped(state, stack)
  {
    Transit(inp, state, Predict(state, Tokenize(Peek(inp.text, c.pos))), stack, c)
  }

  // ---------------------------------------------------------------- what the recursive descent would still do

  /** The rest of the innermost container. */
  function Inner(inp: Input, state: State, count: nat, c: Cursor): (r: Parsed)
    requires Within(inp, c) && Inside(state)
    ensures r.Good? ==> Within(inp, r.at)
  {
    match state
    case ObjectInitial => JsonGrammar.ObjectInitial(inp, c)
    case MemberKey => AfterName(inp, c, count)
    case KeyValueDelimiter => AfterColon(inp, c, count)
    case MemberValue => AfterMember(inp, c, count)
    case MemberDelimiter => AfterMemberComma(inp, c, count)
    case ArrayInitial => JsonGrammar.ArrayInitial(inp, c)
    case Element => AfterElement(inp, c, count)
    case ElementDelimiter => AfterElementComma(inp, c, count)
  }

  /** The rest of the parse, from a state waiting for a token. */
  function Rest(inp: Input, state: State, stack: seq<Frame>, c: Cursor): Parsed
    requires Within(inp, c) && Shaped(state, stack)
    decreases |stack|, 1
  {
    if state == Finish then (if Peek(inp.text, c.pos) == '\0' then Good(c) else Bad(c.events))
    else if state == Start then
      if Peek(inp.text, c.pos) == '\0' then Bad(c.events) else
      var v :- ParseValue(inp, c);
      AfterRoot(inp, v)
    else Outer(inp, stack, Inner(inp, state, Top(stack).count, c))
  }

  /** What follows the innermost container. */
  function Outer(inp: Input, stack: seq<Frame>, r: Parsed): Parsed
    requires IsStack(stack) && stack != [] && (r.Good? ==> Within(inp, r.at))
    decreases |stack|, 0
  {
    var c :- r;
    Then(inp, Resumed(Top(stack)), Pop(stack), c)
  }

  /** The rest of the parse, from behind a token. */
  function Then(inp: Input, state: State, stack: seq<Frame>, c: Cursor): Parsed
    requires Within(inp, c) && Shaped(state, stack)
    decreases |stack|, 2
  {
    if state == Finish then AfterRoot(inp, c) else
    var c1 :- Skip(inp, c);
    Rest(inp, state, stack, c1)
  }

  // ---------------------------------------------------------------- every transition keeps the parse

  /** Then, behind a value that may have failed. */
  function Behind(inp: Input, state: State, stack: seq<Frame>, r: Parsed): Parsed
    requires Shaped(state, stack) && (r.Good? ==> Within(inp, r.at))
  {
    var c :- r;
    Then(inp, state, stack, c)
  }

  /** m is a transition after which `whole` is still to be parsed. */
  ghost predicate Leaves(inp: Input, c: Cursor, m: Moved, whole: Parsed) {
    if m.Stuck? then whole == Bad(m.events)
    else
      && Shaped(m.state, m.stack) && c.pos < m.at.pos <= |inp.text|
      && whole == Then(inp, m.state, m.stack, m.at)
  }

  lemma PushPop(stack: seq<Frame>, frame: Frame)
    ensures Top(stack + [frame]) == frame && Pop(stack + [frame]) == stack
  {
  }

  lemma OuterIsBehind(inp: Input, stack: seq<Frame>, frame: Frame, r: Parsed)
    requires Shaped(Resumed(frame), stack) && IsStack(stack + [frame]) && (r.Good? ==> Within(inp, r.at))
    ensures Outer(inp, stack + [frame], r) == Behind(inp, Resumed(frame), stack, r)
  {
    hide Then;
    PushPop(stack, frame);
  }

  /** Where a compound value starts, the recursive descent opens it as the machine does. */
  lemma CompoundOpens(inp: Input, c: Cursor, stack: seq<Frame>, src: State, dst: State)
    requires Within(inp, c) && Shaped(Resumed(Frame(ReturnState(src), 0)), stack)
    requires IsStack(stack + [Frame(ReturnState(src), 0)])
    requires var first := Peek(inp.text, c.pos);
             (first == '{' && dst == ObjectInitial) || (first == '[' && dst == ArrayInitial)
    ensures Leaves(inp, c, Open(inp, src, dst, stack, c, if dst == ObjectInitial then StartObject else StartArray),
                   Behind(inp, Resumed(Frame(ReturnState(src), 0)), stack, ParseValue(inp, c)))
  {
    hide ParseValue, Inner, Skip, AfterRoot, Outer, Then;
    var frame := Frame(ReturnState(src), 0);
    PushPop(stack, frame);
    CompoundIs(inp, c, dst);
    var events := c.events + [if dst == ObjectInitial then StartObject else StartArray];
    if inp.handler(events) {
      ThenOpened(inp, dst, stack, frame, Cursor(c.pos + 1, events));
    }
  }

  /** A compound value is the event of its start, white space, and the rest of the container. */
  lemma CompoundIs(inp: Input, c: Cursor, dst: State)
    requires Within(inp, c)
    requires var first := Peek(inp.text, c.pos);
             (first == '{' && dst == ObjectInitial) || (first == '[' && dst == ArrayInitial)
    ensures ParseValue(inp, c) ==
            var r := Emit(inp, Take(c), if dst == ObjectInitial then StartObject else StartArray);
            if r.Bad? then r else
            var k := Skip(inp, r.at);
            if k.Bad? then k else Inner(inp, dst, 0, k.at)
  {
    hide MemberFrom, ElementFrom, Skip;
  }

  lemma ThenOpened(inp: Input, dst: State, stack: seq<Frame>, frame: Frame, c: Cursor)
    requires Within(inp, c) && Shaped(Resumed(frame), stack) && IsStack(stack + [frame]) && frame.count == 0
    requires dst == ObjectInitial || dst == ArrayInitial
    ensures Then(inp, dst, stack + [frame], c) ==
            var k := Skip(inp, c);
            Behind(inp, Resumed(frame), stack, if k.Bad? then k else Inner(inp, dst, 0, k.at))
  {
    hide Inner, Skip, AfterRoot, Behind, Outer;
    PushPop(stack, frame);
    var k := Skip(inp, c);
    if k.Good? {
      OuterIsBehind(inp, stack, frame, Inner(inp, dst, 0, k.at));
    } else {
      BehindFailure(inp, Resumed(frame), stack, k);
    }
  }

  lemma BehindFailure(inp: Input, state: State, stack: seq<Frame>, r: Parsed)
    requires Shaped(state, stack) && r.Bad?
    ensures Behind(inp, state, stack, r) == r
  {
  }

  /** Where the table expects a value, with `scalar` as the state behind it. */
  lemma ValueLeaves(inp: Input, c: Cursor, stack: seq<Frame>, src: State, scalar: State)
    requires Within(inp, c) && Shaped(src, stack) && scalar == Resumed(Frame(ReturnState(src), 0))
    requires src == Start || src == ArrayInitial || src == ElementDelimiter || src == KeyValueDelimiter
    requires Predict(src, Tokenize(Peek(inp.text, c.pos)))
             == PredictValue(Tokenize(Peek(inp.text, c.pos)), if src == Start then Value else scalar)
    ensures Leaves(inp, c, Step(inp, src, stack, c), Behind(inp, scalar, stack, ParseValue(inp, c)))
  {
    hide Then, Emit;
    var dst := Predict(src, Tokenize(Peek(inp.text, c.pos)));
    if dst == ObjectInitial || dst == ArrayInitial {
      CompoundOpens(inp, c, stack, src, dst);
    } else if dst == Error {
      assert ParseValue(inp, c) == Bad(c.events);
    }
  }

  /** Behind an element (a member value) the recursive descent is where the machine is. */
  lemma ElementBehind(inp: Input, c: Cursor, stack: seq<Frame>)
    requires Within(inp, c) && Shaped(Element, stack)
    ensures Outer(inp, stack, ElementFrom(inp, c, Top(stack).count)) == Behind(inp, Element, stack, ParseValue(inp, c))
  {
    hide ParseValue, AfterElement, Then;
    ThenInside(inp, Element, stack, ParseValue(inp, c));
  }

  lemma MemberBehind(inp: Input, c: Cursor, stack: seq<Frame>)
    requires Within(inp, c) && Shaped(MemberValue, stack)
    ensures Outer(inp, stack, AfterColon(inp, c, Top(stack).count)) ==
              Behind(inp, MemberValue, stack, ParseValue(inp, c))
  {
    hide ParseValue, AfterMember, Then;
    ThenInside(inp, MemberValue, stack, ParseValue(inp, c));
  }

  /** Then inside a container: white space, then the rest of the container, then what encloses it. */
  lemma ThenInside(inp: Input, state: State, stack: seq<Frame>, r: Parsed)
    requires Shaped(state, stack) && Inside(state) && (r.Good? ==> Within(inp, r.at))
    ensures Behind(inp, state, stack, r) ==
            if r.Bad? then r else
            var k := Skip(inp, r.at);
            if k.Bad? then k else Outer(inp, stack, Inner(inp, state, Top(stack).count, k.at))
  {
    hide Inner, Outer, Skip;
    if r.Good? {
      var k := Skip(inp, r.at);
      if k.Good? {
        assert Rest(inp, state, stack, k.at) == Outer(inp, stack, Inner(inp, state, Top(stack).count, k.at));
      }
    }
  }

  lemma CloseLeaves(inp: Input, c: Cursor, stack: seq<Frame>, e: Event)
    requires c.pos < |inp.text| && IsStack(stack) && stack != []
    ensures Leaves(inp, c, Close(inp, stack, c, e), Outer(inp, stack, Emit(inp, Take(c), e)))
  {
    hide Then;
  }

  lemma ArrayInitialKeeps(inp: Input, stack: seq<Frame>, c: Cursor)
    requires Within(inp, c) && Shaped(ArrayInitial, stack)
    ensures Leaves(inp, c, Step(inp, ArrayInitial, stack, c), Rest(inp, ArrayInitial, stack, c))
  {
    hide Then, Behind, ParseValue, ElementFrom, Close, Open, Outer;
    if Peek(inp.text, c.pos) == ']' {
      CloseLeaves(inp, c, stack, EndArray(0));
    } else {
      ElementBehind(inp, c, stack);
      ValueLeaves(inp, c, stack, ArrayInitial, Element);
    }
  }

  lemma ElementDelimiterKeeps(inp: Input, stack: seq<Frame>, c: Cursor)
    requires Within(inp, c) && Shaped(ElementDelimiter, stack)
    ensures Leaves(inp, c, Step(inp, ElementDelimiter, stack, c), Rest(inp, ElementDelimiter, stack, c))
  {
    hide Then, Behind, ElementFrom, Close, Open, Outer;
    if Peek(inp.text, c.pos) == ']' {
      if inp.flags.trailingCommas {
        CloseLeaves(inp, c, stack, EndArray(Top(stack).count));
      } else {
        NoElement(inp, stack, c);
      }
    } else {
      ElementBehind(inp, c, stack);
      ValueLeaves(inp, c, stack, ElementDelimiter, Element);
    }
  }

  lemma NoElement(inp: Input, stack: seq<Frame>, c: Cursor)
    requires Within(inp, c) && Shaped(ElementDelimiter, stack)
             && Peek(inp.text, c.pos) == ']' && !inp.flags.trailingCommas
    ensures Step(inp, ElementDelimiter, stack, c) == Stuck(c.events)
    ensures Rest(inp, ElementDelimiter, stack, c) == Bad(c.events)
  {
    hide Then;
    assert ParseValue(inp, c) == Bad(c.events);
    assert ElementFrom(inp, c, Top(stack).count) == Bad(c.events);
  }

  lemma ElementKeeps(inp: Input, stack: seq<Frame>, c: Cursor)
    requires Within(inp, c) && Shaped(Element, stack)
    ensures Leaves(inp, c, Step(inp, Element, stack, c), Rest(inp, Element, stack, c))
  {
    hide Then, ElementFrom, AfterElementComma, Close;
    if Peek(inp.text, c.pos) == ']' {
      CloseLeaves(inp, c, stack, EndArray(Next(Top(stack).count)));
    } else if Peek(inp.text, c.pos) == ',' {
      CountedTop(stack);
      ThenInside(inp, ElementDelimiter, Counted(stack), Good(Take(c)));
    }
  }

  lemma CountedTop(stack: seq<Frame>)
    requires IsStack(stack) && stack != []
    ensures IsStack(Counted(stack)) && Counted(stack) != [] && Top(Counted(stack)).count == Next(Top(stack).count)
    ensures Pop(Counted(stack)) == Pop(stack) && Top(Counted(stack)).state == Top(stack).state
  {
  }

  // the states inside an object

  lemma ObjectInitialKeeps(inp: Input, stack: seq<Frame>, c: Cursor)
    requires Within(inp, c) && Shaped(ObjectInitial, stack)
    ensures Leaves(inp, c, Step(inp, ObjectInitial, stack, c), Rest(inp, ObjectInitial, stack, c))
  {
    hide Then, MemberFrom, Close, Outer;
    if Peek(inp.text, c.pos) == '}' {
      CloseLeaves(inp, c, stack, EndObject(0));
    } else {
      NameLeaves(inp, c, stack, ObjectInitial);
    }
  }

  lemma MemberDelimiterKeeps(inp: Input, stack: seq<Frame>, c: Cursor)
    requires Within(inp, c) && Shaped(MemberDelimiter, stack)
    ensures Leaves(inp, c, Step(inp, MemberDelimiter, stack, c), Rest(inp, MemberDelimiter, stack, c))
  {
    hide Then, MemberFrom, Close;
    if Peek(inp.text, c.pos) == '}' {
      if inp.flags.trailingCommas {
        CloseLeaves(inp, c, stack, EndObject(Top(stack).count));
      } else {
        assert MemberFrom(inp, c, Top(stack).count) == Bad(c.events) by { NoName(inp, c, Top(stack).count); }
      }
    } else {
      NameLeaves(inp, c, stack, MemberDelimiter);
    }
  }

  lemma NoName(inp: Input, c: Cursor, count: nat)
    requires Within(inp, c) && Peek(inp.text, c.pos) != '\"'
    ensures MemberFrom(inp, c, count) == Bad(c.events)
  {
  }

  /** Where a name is expected. */
  lemma NameLeaves(inp: Input, c: Cursor, stack: seq<Frame>, src: State)
    requires Within(inp, c) && Shaped(src, stack) && (src == ObjectInitial || src == MemberDelimiter)
    requires Peek(inp.text, c.pos) != '}'
    ensures Leaves(inp, c, Step(inp, src, stack, c), Outer(inp, stack, MemberFrom(inp, c, Top(stack).count)))
  {
    hide Then, AfterName, ParseString;
    if Peek(inp.text, c.pos) == '\"' {
      ThenInside(inp, MemberKey, stack, ParseString(inp, c, true));
    } else {
      NoName(inp, c, Top(stack).count);
    }
  }

  lemma MemberKeyKeeps(inp: Input, stack: seq<Frame>, c: Cursor)
    requires Within(inp, c) && Shaped(MemberKey, stack)
    ensures Leaves(inp, c, Step(inp, MemberKey, stack, c), Rest(inp, MemberKey, stack, c))
  {
    hide Then, AfterColon;
    if Peek(inp.text, c.pos) == ':' {
      ThenInside(inp, KeyValueDelimiter, stack, Good(Take(c)));
    }
  }

  lemma KeyValueDelimiterKeeps(inp: Input, stack: seq<Frame>, c: Cursor)
    requires Within(inp, c) && Shaped(KeyValueDelimiter, stack)
    ensures Leaves(inp, c, Step(inp, KeyValueDelimiter, stack, c), Rest(inp, KeyValueDelimiter, stack, c))
  {
    hide Then, Behind, AfterColon, Open, Outer;
    MemberBehind(inp, c, stack);
    ValueLeaves(inp, c, stack, KeyValueDelimiter, MemberValue);
  }

  lemma MemberValueKeeps(inp: Input, stack: seq<Frame>, c: Cursor)
    requires Within(inp, c) && Shaped(MemberValue, stack)
    ensures Leaves(inp, c, Step(inp, MemberValue, stack, c), Rest(inp, MemberValue, stack, c))
  {
    hide Then, MemberFrom, AfterMemberComma, Close;
    if Peek(inp.text, c.pos) == '}' {
      CloseLeaves(inp, c, stack, EndObject(Next(Top(stack).count)));
    } else if Peek(inp.text, c.pos) == ',' {
      CountedTop(stack);
      ThenInside(inp, MemberDelimiter, Counted(stack), Good(Take(c)));
    }
  }

  lemma StartKeeps(inp: Input, c: Cursor)
    requires c.pos < |inp.text| && Peek(inp.text, c.pos) != '\0'
    ensures Leaves(inp, c, Step(inp, Start, [], c), Rest(inp, Start, [], c))
  {
    hide Open;
    ValueLeaves(inp, c, [], Start, Finish);
  }

  /** Every transition on a token, from every state, leaves the same parse to be done. */
  lemma StepKeeps(inp: Input, state: State, stack: seq<Frame>, c: Cursor)
    requires Shaped(state, stack) && c.pos < |inp.text| && Peek(inp.text, c.pos) != '\0'
    ensures Leaves(inp, c, Step(inp, state, stack, c), Rest(inp, state, stack, c))
  {
    hide Step, Rest, Leaves;
    match state
    case Finish => FinishKeeps(inp, c);
    case Start => StartKeeps(inp, c);
    case ObjectInitial => ObjectInitialKeeps(inp, stack, c);
    case MemberKey => MemberKeyKeeps(inp, stack, c);
    case MemberValue => MemberValueKeeps(inp, stack, c);
    case ArrayInitial => ArrayInitialKeeps(inp, stack, c);
    case Element => ElementKeeps(inp, stack, c);
    case ElementDelimiter => ElementDelimiterKeeps(inp, stack, c);
    case MemberDelimiter => MemberDelimiterKeeps(inp, stack, c);
    case KeyValueDelimiter => KeyValueDelimiterKeeps(inp, stack, c);
  }

  lemma FinishKeeps(inp: Input, c: Cursor)
    requires c.pos < |inp.text| && Peek(inp.text, c.pos) != '\0'
    ensures Leaves(inp, c, Step(inp, Finish, [], c), Rest(inp, Finish, [], c))
  {
  }

  /** At the end of the text only the finished machine has accepted. */
  lemma RestAtEnd(inp: Input, state: State, stack: seq<Frame>, c: Cursor)
    requires Within(inp, c) && Shaped(state, stack) && Peek(inp.text, c.pos) == '\0'
    ensures Rest(inp, state, stack, c) == if state == Finish then Good(c) else Bad(c.events)
  {
    if Inside(state) { InnerAtEnd(inp, state, Top(stack).count, c); }
  }

  lemma InnerAtEnd(inp: Input, state: State, count: nat, c: Cursor)
    requires Within(inp, c) && Inside(state) && Peek(inp.text, c.pos) == '\0'
    ensures Inner(inp, state, count, c) == Bad(c.events)
  {
    assert ParseValue(inp, c) == Bad(c.events);
    assert ElementFrom(inp, c, count) == Bad(c.events) && MemberFrom(inp, c, count) == Bad(c.events);
    assert ElementFrom(inp, c, 0) == Bad(c.events) && MemberFrom(inp, c, 0) == Bad(c.events);
  }

  // ---------------------------------------------------------------- whole runs

  /** IterativeParse's loop, from a state with white space skipped. */
  function Loop(inp: Input, state: State, stack: seq<Frame>, c: Cursor): Parsed
    requires Within(inp, c) && Shaped(state, stack)
    decreases |inp.text| - c.pos
  {
    if Peek(inp.text, c.pos) == '\0' then (if state == Finish then Good(c) else Bad(c.events)) else
    StepKeeps(inp, state, stack, c);
    var m := Step(inp, state, stack, c);
    if m.Stuck? then Bad(m.events)
    else if inp.flags.stopWhenDone && m.state == Finish then Good(m.at) else
    var c1 :- Skip(inp, m.at);
    Loop(inp, m.state, m.stack, c1)
  }

  /** GenericReader::IterativeParse. */
  function IterativeText(inp: Input): Parsed {
    var c :- Skip(inp, Cursor(0, []));
    Loop(inp, Start, [], c)
  }

  lemma {:induction false} LoopIsRest(inp: Input, state: State, stack: seq<Frame>, c: Cursor)
    requires Within(inp, c) && Shaped(state, stack)
    ensures Loop(inp, state, stack, c) == Rest(inp, state, stack, c)
    decreases |inp.text| - c.pos
  {
    hide Step;
    if Peek(inp.text, c.pos) == '\0' {
      RestAtEnd(inp, state, stack, c);
    } else {
      StepKeeps(inp, state, stack, c);
      var m := Step(inp, state, stack, c);
      if m.Moved? {
        var k := Skip(inp, m.at);
        if k.Good? { LoopIsRest(inp, m.state, m.stack, k.at); }
      }
    }
  }

  /** The two readers accept the same texts, stop at the same place and send the same events, on every
      text, whatever the handler answers, for every setting of the flags. */
  lemma IterativeIsRecursive(inp: Input)
    ensures IterativeText(inp) == ParseText(inp)
  {
    var k := Skip(inp, Cursor(0, []));
    if k.Good? { LoopIsRest(inp, Start, [], k.at); }
  }
}
