/** The explicit-stack decoder as a transition function over values, and what holds of its runs. */
module ThriftMachine {
  import opened Bytes
  import opened ThriftProtocol
  import opened ThriftGrammar

  datatype State =
    | MessageBegin | MessageEnd
    | StructBegin | StructEnd
    | FieldBegin | FieldValue | FieldEnd
    | MapBegin | MapKey | MapValue | MapEnd
    | ListBegin | ListValue | ListEnd
    | SetBegin | SetValue | SetEnd
    | Done

  /** Return state for a nested element, element types and remaining count of a container. */
  datatype Frame = Frame(returnState: State, elemType: FieldType, valueType: FieldType, remaining: nat)

  function ReturnTo(s: State): (f: Frame) { Frame(s, STOP, STOP, 0) }

  /** `out` is the message as it has been written back so far; the top of the stack is its end. */
  datatype Machine = Machine(state: State, stack: seq<Frame>, out: seq<byte>)

  const INITIAL: Machine := Machine(MessageBegin, [], [])

  /** Result of one state handler: a transition (with the elements it read), a request for
      more octets, an exception, or a failed assertion. */
  datatype StepResult = Wait | Throw | Panic | Next(m: Machine, rest: seq<byte>, read: seq<Token>)

  function Top(stack: seq<Frame>): (f: Frame)
    requires stack != []
  {
    stack[|stack| - 1]
  }

  function Pop(stack: seq<Frame>): (s: seq<Frame>)
    requires stack != []
  {
    stack[..|stack| - 1]
  }

  /** Having read one element with result `r`: write it back and go to `s` with `stack`. */
  function Copy(p: Protocol, m: Machine, b: seq<byte>, r: ReadResult, s: State, stack: seq<Frame>): (r': StepResult)
    requires r.Got? ==> r.len <= |b|
  {
    match r
    case More => Wait
    case Invalid => Throw
    case Got(tok, n) => Next(Machine(s, stack, m.out + Write(p, tok)), b[n..], [tok])
  }

  /** Read a footer, write it back and return to the state on top of the stack. */
  function Close(p: Protocol, m: Machine, b: seq<byte>, k: Kind): (r: StepResult)
    requires Lawful(p)
  {
    if m.stack == [] then Panic
    else Copy(p, m, b, Read(p, k, b), Top(m.stack).returnState, Pop(m.stack))
  }

  function HandleValue(p: Protocol, m: Machine, b: seq<byte>, t: FieldType, returnState: State): (r: StepResult)
    requires Lawful(p)
  {
    if IsScalarType(t) then Copy(p, m, b, Read(p, ScalarK(t), b), returnState, m.stack)
    else if IsContainerType(t) then Next(Machine(BeginState(t), m.stack + [ReturnTo(returnState)], m.out), b, [])
    else Throw
  }

  predicate IsContainerType(t: FieldType) { t == STRUCT || t == MAP || t == LIST || t == SET }

  function BeginState(t: FieldType): (s: State)
    requires IsContainerType(t)
  {
    if t == STRUCT then StructBegin else if t == MAP then MapBegin else if t == LIST then ListBegin else SetBegin
  }

  /** Count down the frame at `index` once a transition has been made. */
  function CountDown(r: StepResult, index: nat): (r': StepResult) {
    if r.Next? && index < |r.m.stack| && r.m.stack[index].remaining > 0 then
      var f := r.m.stack[index];
      r.(m := r.m.(stack := r.m.stack[index := f.(remaining := f.remaining - 1)]))
    else r
  }

  /** One element of a list or a set; `self` is the state to come back to for the next one. */
  function SequenceValue(p: Protocol, m: Machine, b: seq<byte>, self: State): (r: StepResult)
    requires Lawful(p)
  {
    if m.stack == [] then Panic
    else if Top(m.stack).remaining == 0 then
      Next(Machine(Top(m.stack).returnState, Pop(m.stack), m.out), b, [])
    else CountDown(HandleValue(p, m, b, Top(m.stack).elemType, self), |m.stack| - 1)
  }

  function KeyStep(p: Protocol, m: Machine, b: seq<byte>): (r: StepResult)
    requires Lawful(p)
  {
    if m.stack == [] then Panic
    else if Top(m.stack).remaining == 0 then
      Next(Machine(Top(m.stack).returnState, Pop(m.stack), m.out), b, [])
    else HandleValue(p, m, b, Top(m.stack).elemType, MapValue)
  }

  function MappedStep(p: Protocol, m: Machine, b: seq<byte>): (r: StepResult)
    requires Lawful(p)
  {
    if m.stack == [] || Top(m.stack).remaining == 0 then Panic
    else CountDown(HandleValue(p, m, b, Top(m.stack).valueType, MapKey), |m.stack| - 1)
  }

  function FieldBeginStep(p: Protocol, m: Machine, b: seq<byte>): (r: StepResult)
    requires Lawful(p)
  {
    var r := Read(p, FieldBeginK, b);
    if r.Got? && r.tok.FieldStop? then Next(m.(state := StructEnd), b[r.len..], [FieldStop])
    else Copy(p, m, b, r, FieldValue, if r.Got? then m.stack + [Frame(FieldEnd, r.tok.fieldType, STOP, 0)] else [])
  }

  function FieldEndStep(p: Protocol, m: Machine, b: seq<byte>): (r: StepResult)
    requires Lawful(p)
  {
    if m.stack == [] then Panic else Copy(p, m, b, Read(p, FieldEndK, b), FieldBegin, Pop(m.stack))
  }

  function SequenceBeginStep(p: Protocol, m: Machine, b: seq<byte>, k: Kind, value: State, end: State): (r: StepResult)
    requires Lawful(p)
    requires k == ListBeginK || k == SetBeginK
  {
    var r := Read(p, k, b);
    Copy(p, m, b, r, value, if r.Got? then m.stack + [Frame(end, r.tok.elemType, STOP, r.tok.size)] else [])
  }

  function MapBeginStep(p: Protocol, m: Machine, b: seq<byte>): (r: StepResult)
    requires Lawful(p)
  {
    var r := Read(p, MapBeginK, b);
    Copy(p, m, b, r, MapKey,
         if r.Got? then m.stack + [Frame(MapEnd, r.tok.keyType, r.tok.valueType, r.tok.size)] else [])
  }

  /** One call of the state handler for the current state. */
  function Step(p: Protocol, m: Machine, b: seq<byte>): (r: StepResult)
    requires Lawful(p)
  {
    match m.state
    case MessageBegin => Copy(p, m, b, Read(p, MessageBeginK, b), StructBegin, [ReturnTo(MessageEnd)])
    case MessageEnd => Copy(p, m, b, Read(p, MessageEndK, b), Done, m.stack)
    case StructBegin => Copy(p, m, b, Read(p, StructBeginK, b), FieldBegin, m.stack)
    case StructEnd => Close(p, m.(out := m.out + Write(p, FieldStop)), b, StructEndK)
    case FieldBegin => FieldBeginStep(p, m, b)
    case FieldValue =>
      if m.stack == [] then Panic
      else HandleValue(p, m, b, Top(m.stack).elemType, Top(m.stack).returnState)
    case FieldEnd => FieldEndStep(p, m, b)
    case ListBegin => SequenceBeginStep(p, m, b, ListBeginK, ListValue, ListEnd)
    case ListValue => SequenceValue(p, m, b, ListValue)
    case ListEnd => Close(p, m, b, ListEndK)
    case SetBegin => SequenceBeginStep(p, m, b, SetBeginK, SetValue, SetEnd)
    case SetValue => SequenceValue(p, m, b, SetValue)
    case SetEnd => Close(p, m, b, SetEndK)
    case MapBegin => MapBeginStep(p, m, b)
    case MapKey => KeyStep(p, m, b)
    case MapValue => MappedStep(p, m, b)
    case MapEnd => Close(p, m, b, MapEndK)
    case Done => Panic
  }

  // ----- Termination -----

  function StateRank(s: State): (n: nat) {
    match s
    case FieldValue => 12 case ListValue => 12 case SetValue => 12 case MapKey => 12 case MapValue => 12
    case StructEnd => 3 case ListEnd => 3 case SetEnd => 3 case MapEnd => 3 case FieldEnd => 3
    case StructBegin => 1 case MessageEnd => 1
    case _ => 0
  }

  function Rank(m: Machine): (n: nat) { 10 * |m.stack| + StateRank(m.state) }

  ghost predicate Smaller(r: StepResult, m: Machine, b: seq<byte>) {
    r.Next? ==> |r.rest| < |b| || (r.rest == b && Rank(r.m) < Rank(m))
  }

  lemma ValueDecreases(p: Protocol, m: Machine, b: seq<byte>, t: FieldType, ret: State)
    requires Lawful(p)
    requires StateRank(m.state) == 12
    ensures Smaller(HandleValue(p, m, b, t, ret), m, b)
    ensures forall i: nat :: Smaller(CountDown(HandleValue(p, m, b, t, ret), i), m, b)
  {
    assert Consuming(ScalarK(t));
  }

  lemma CloseDecreases(p: Protocol, m: Machine, b: seq<byte>, k: Kind)
    requires Lawful(p)
    requires StateRank(m.state) >= 3
    ensures Smaller(Close(p, m, b, k), m, b)
    ensures m.stack != [] ==>
      Rank(Machine(Top(m.stack).returnState, Pop(m.stack), m.out)) < Rank(m)
  {
    if m.stack != [] {
      assert StateRank(Top(m.stack).returnState) <= 12;
    }
    assert b[0..] == b;
  }

  /** Every transition uses up octets or, failing that, lowers the rank: the moves that
      consume nothing cannot go on for ever, although some of them grow the stack. */
  lemma StepDecreases(p: Protocol, m: Machine, b: seq<byte>)
    requires Lawful(p)
    ensures Smaller(Step(p, m, b), m, b)
  {
    assert b[0..] == b;
    match m.state
    case MessageBegin => assert Consuming(MessageBeginK);
    case MessageEnd =>
    case StructBegin =>
    case StructEnd => CloseDecreases(p, m.(out := m.out + Write(p, FieldStop)), b, StructEndK);
    case FieldBegin => assert Consuming(FieldBeginK);
    case FieldValue =>
      if m.stack != [] { ValueDecreases(p, m, b, Top(m.stack).elemType, Top(m.stack).returnState); }
    case FieldEnd =>
    case ListBegin => assert Consuming(ListBeginK);
    case ListValue => SequenceDecreases(p, m, b, ListValue);
    case ListEnd => CloseDecreases(p, m, b, ListEndK);
    case SetBegin => assert Consuming(SetBeginK);
    case SetValue => SequenceDecreases(p, m, b, SetValue);
    case SetEnd => CloseDecreases(p, m, b, SetEndK);
    case MapBegin => assert Consuming(MapBeginK);
    case MapKey =>
      if m.stack != [] {
        CloseDecreases(p, m, b, MapEndK);
        ValueDecreases(p, m, b, Top(m.stack).elemType, MapValue);
      }
    case MapValue =>
      if m.stack != [] { ValueDecreases(p, m, b, Top(m.stack).valueType, MapKey); }
    case MapEnd => CloseDecreases(p, m, b, MapEndK);
    case Done =>
  }

  lemma SequenceDecreases(p: Protocol, m: Machine, b: seq<byte>, self: State)
    requires Lawful(p)
    requires m.state == self && (self == ListValue || self == SetValue)
    ensures Smaller(SequenceValue(p, m, b, self), m, b)
  {
    if m.stack != [] {
      CloseDecreases(p, m, b, ListEndK);
      ValueDecreases(p, m, b, Top(m.stack).elemType, self);
    }
  }

  datatype RunResult = Waiting(m: Machine, rest: seq<byte>) | Finished(m: Machine, rest: seq<byte>) | Failed | Panicked

  /** The decoding loop: transitions until the message is done or octets run out. */
  function Run(p: Protocol, m: Machine, b: seq<byte>): (r: RunResult)
    requires Lawful(p)
    decreases |b|, Rank(m)
  {
    if m.state == Done then Finished(m, b)
    else
      match Step(p, m, b)
      case Wait => Waiting(m, b)
      case Throw => Failed
      case Panic => Panicked
      case Next(m', b', _) =>
        StepDecreases(p, m, b);
        Run(p, m', b')
  }

  // ----- The machine refines the recursive-descent parser -----

  function Encoding(p: Protocol, v: Value): (b: seq<byte>)
    requires WellTyped(v)
  {
    WriteAll(p, Tokens(v))
  }

  lemma RunNext(p: Protocol, m: Machine, b: seq<byte>)
    requires Lawful(p)
    requires m.state != Done
    ensures var r := Step(p, m, b);
      && (r.Wait? ==> Run(p, m, b) == Waiting(m, b))
      && (r.Throw? ==> Run(p, m, b) == Failed)
      && (r.Panic? ==> Run(p, m, b) == Panicked)
      && (r.Next? ==> Run(p, m, b) == Run(p, r.m, r.rest))
  {
  }

  lemma RunDone(p: Protocol, m: Machine, b: seq<byte>)
    requires Lawful(p)
    requires m.state == Done
    ensures Run(p, m, b) == Finished(m, b)
  {
  }

  lemma WriteOne(p: Protocol, t: Token)
    ensures WriteAll(p, [t]) == Write(p, t)
  {
    assert WriteAll(p, [t]) == Write(p, t) + WriteAll(p, []);
  }

  lemma WriteBracket(p: Protocol, open: Token, inner: seq<Token>, close: Token)
    ensures WriteAll(p, [open] + inner + [close]) == Write(p, open) + WriteAll(p, inner) + Write(p, close)
  {
    WriteAllConcat(p, [open] + inner, [close]);
    WriteAllConcat(p, [open], inner);
    WriteOne(p, open);
    WriteOne(p, close);
  }

  lemma WriteStruct(p: Protocol, fs: Fields)
    requires WellTypedFields(fs)
    ensures Encoding(p, Struct(fs))
      == Write(p, StructHeader) + WriteAll(p, FieldTokens(fs)) + Write(p, FieldStop) + Write(p, StructFooter)
  {
    var body := FieldTokens(fs);
    assert Tokens(Struct(fs)) == [StructHeader] + (body + [FieldStop]) + [StructFooter];
    WriteBracket(p, StructHeader, body + [FieldStop], StructFooter);
    WriteAllConcat(p, body, [FieldStop]);
    WriteOne(p, FieldStop);
  }

  lemma WriteField(p: Protocol, id: i16, v: Value, os: Fields)
    requires WellTyped(v) && WellTypedFields(os)
    ensures TypeOf(v) != STOP
    ensures WriteAll(p, FieldTokens(Field(id, v, os)))
      == Write(p, FieldHeader(TypeOf(v), id)) + Encoding(p, v) + Write(p, FieldFooter) + WriteAll(p, FieldTokens(os))
  {
    TypedIsNotStop(v);
    WriteAllConcat(p, [FieldHeader(TypeOf(v), id)] + Tokens(v) + [FieldFooter], FieldTokens(os));
    WriteBracket(p, FieldHeader(TypeOf(v), id), Tokens(v), FieldFooter);
  }

  lemma WriteElem(p: Protocol, t: FieldType, v: Value, os: Values)
    requires WellTyped(v) && TypeOf(v) == t && WellTypedValues(t, os)
    ensures WriteAll(p, ValueTokens(t, Elem(v, os))) == Encoding(p, v) + WriteAll(p, ValueTokens(t, os))
  {
    WriteAllConcat(p, Tokens(v), ValueTokens(t, os));
  }

  lemma WriteEntry(p: Protocol, kt: FieldType, vt: FieldType, k: Value, v: Value, os: Entries)
    requires WellTyped(k) && TypeOf(k) == kt && WellTyped(v) && TypeOf(v) == vt && WellTypedEntries(kt, vt, os)
    ensures WriteAll(p, EntryTokens(kt, vt, Entry(k, v, os)))
      == Encoding(p, k) + Encoding(p, v) + WriteAll(p, EntryTokens(kt, vt, os))
  {
    WriteAllConcat(p, Tokens(k) + Tokens(v), EntryTokens(kt, vt, os));
    WriteAllConcat(p, Tokens(k), Tokens(v));
  }

  // What was written piece by piece is the encoding of the whole.

  lemma Regroup3(out: seq<byte>, a: seq<byte>, b: seq<byte>, c: seq<byte>)
    ensures out + a + b + c == out + (a + b + c)
  {
  }

  lemma Regroup4(out: seq<byte>, a: seq<byte>, b: seq<byte>, c: seq<byte>, d: seq<byte>)
    ensures out + a + b + c + d == out + (a + b + c + d)
  {
  }

  lemma OutEmpty(p: Protocol, out: seq<byte>)
    ensures out + WriteAll(p, FieldTokens(NoFields)) == out
    ensures forall t :: out + WriteAll(p, ValueTokens(t, NoValues)) == out
    ensures forall kt, vt :: out + WriteAll(p, EntryTokens(kt, vt, NoEntries)) == out
  {
    assert out + [] == out;
  }

  lemma OutScalar(p: Protocol, out: seq<byte>, tok: Token)
    requires KindOf(tok).ScalarK?
    ensures out + Write(p, tok) == out + Encoding(p, Scalar(tok))
  {
    WriteOne(p, tok);
  }

  lemma OutStruct(p: Protocol, out: seq<byte>, fs: Fields)
    requires WellTypedFields(fs)
    ensures out + Write(p, StructHeader) + WriteAll(p, FieldTokens(fs)) + Write(p, FieldStop) + Write(p, StructFooter)
         == out + Encoding(p, Struct(fs))
  {
    WriteStruct(p, fs);
    Regroup4(out, Write(p, StructHeader), WriteAll(p, FieldTokens(fs)), Write(p, FieldStop), Write(p, StructFooter));
  }

  lemma OutField(p: Protocol, out: seq<byte>, id: i16, v: Value, os: Fields)
    requires WellTyped(v) && WellTypedFields(os)
    ensures TypeOf(v) != STOP
    ensures out + Write(p, FieldHeader(TypeOf(v), id)) + Encoding(p, v) + Write(p, FieldFooter) +
            WriteAll(p, FieldTokens(os))
         == out + WriteAll(p, FieldTokens(Field(id, v, os)))
  {
    WriteField(p, id, v, os);
    Regroup4(out, Write(p, FieldHeader(TypeOf(v), id)), Encoding(p, v), Write(p, FieldFooter),
             WriteAll(p, FieldTokens(os)));
  }

  function Sequence(t: FieldType, et: FieldType, vs: Values): (v: Value) {
    if t == SET then Set(et, vs) else List(et, vs)
  }

  function Footer(t: FieldType): (tok: Token) { if t == SET then SetFooter else ListFooter }

  lemma OutSequence(p: Protocol, out: seq<byte>, t: FieldType, open: Token, vs: Values)
    requires t == LIST || t == SET
    requires KindOf(open) == BeginKind(t)
    requires WellTypedValues(open.elemType, vs) && Count(vs) == open.size
    ensures WellTyped(Sequence(t, open.elemType, vs))
    ensures out + Write(p, open) + WriteAll(p, ValueTokens(open.elemType, vs)) + Write(p, Footer(t))
         == out + Encoding(p, Sequence(t, open.elemType, vs))
  {
    var inner := ValueTokens(open.elemType, vs);
    assert Tokens(Sequence(t, open.elemType, vs)) == [open] + inner + [Footer(t)];
    WriteBracket(p, open, inner, Footer(t));
    Regroup3(out, Write(p, open), WriteAll(p, inner), Write(p, Footer(t)));
  }

  lemma OutElem(p: Protocol, out: seq<byte>, t: FieldType, v: Value, os: Values)
    requires WellTyped(v) && TypeOf(v) == t && WellTypedValues(t, os)
    ensures out + Encoding(p, v) + WriteAll(p, ValueTokens(t, os)) == out + WriteAll(p, ValueTokens(t, Elem(v, os)))
  {
    WriteElem(p, t, v, os);
  }

  lemma OutMap(p: Protocol, out: seq<byte>, open: Token, es: Entries)
    requires open.MapHeader?
    requires WellTypedEntries(open.keyType, open.valueType, es) && CountEntries(es) == open.size
    ensures WellTyped(Map(open.keyType, open.valueType, es))
    ensures out + Write(p, open) + WriteAll(p, EntryTokens(open.keyType, open.valueType, es)) + Write(p, MapFooter)
         == out + Encoding(p, Map(open.keyType, open.valueType, es))
  {
    var inner := EntryTokens(open.keyType, open.valueType, es);
    WriteBracket(p, open, inner, MapFooter);
    Regroup3(out, Write(p, open), WriteAll(p, inner), Write(p, MapFooter));
  }

  lemma OutEntry(p: Protocol, out: seq<byte>, kt: FieldType, vt: FieldType, k: Value, v: Value, os: Entries)
    requires WellTyped(k) && TypeOf(k) == kt && WellTyped(v) && TypeOf(v) == vt && WellTypedEntries(kt, vt, os)
    ensures out + Encoding(p, k) + Encoding(p, v) + WriteAll(p, EntryTokens(kt, vt, os))
         == out + WriteAll(p, EntryTokens(kt, vt, Entry(k, v, os)))
  {
    WriteEntry(p, kt, vt, k, v, os);
    Regroup3(out, Encoding(p, k), Encoding(p, v), WriteAll(p, EntryTokens(kt, vt, os)));
  }

  lemma OutMessage(p: Protocol, header: Token, fs: Fields)
    requires header.MessageHeader? && WellTypedFields(fs)
    ensures [] + Write(p, header) + Encoding(p, Struct(fs)) + Write(p, MessageFooter)
         == WriteAll(p, MessageTokens(Message(header.name, header.messageType, header.sequenceId, fs)))
  {
    WriteBracket(p, header, Tokens(Struct(fs)), MessageFooter);
  }

  // The typing half of the parser's soundness.

  lemma ValueTyped(p: Protocol, t: FieldType, b: seq<byte>)
    requires Lawful(p)
    ensures ParseValue(p, t, b).Ok? ==> WellTyped(ParseValue(p, t, b).value) && TypeOf(ParseValue(p, t, b).value) == t
  {
    if ParseValue(p, t, b).Ok? { ValueSound(p, t, b); }
  }

  lemma FieldsTyped(p: Protocol, b: seq<byte>)
    requires Lawful(p)
    ensures ParseFields(p, b).Ok? ==> WellTypedFields(ParseFields(p, b).value)
  {
    if ParseFields(p, b).Ok? { FieldsSound(p, b); }
  }

  lemma ValuesTyped(p: Protocol, t: FieldType, n: nat, b: seq<byte>)
    requires Lawful(p)
    ensures var r := ParseValues(p, t, n, b); r.Ok? ==> WellTypedValues(t, r.value) && Count(r.value) == n
  {
    if ParseValues(p, t, n, b).Ok? { ValuesSound(p, t, n, b); }
  }

  lemma EntriesTyped(p: Protocol, kt: FieldType, vt: FieldType, n: nat, b: seq<byte>)
    requires Lawful(p)
    ensures var r := ParseEntries(p, kt, vt, n, b);
            r.Ok? ==> WellTypedEntries(kt, vt, r.value) && CountEntries(r.value) == n
  {
    if ParseEntries(p, kt, vt, n, b).Ok? { EntriesSound(p, kt, vt, n, b); }
  }

  /** Run `run` got as far as parse `r` says: through the value to `next`, or not. */
  ghost predicate Agrees<T>(run: RunResult, r: Parse<T>, next: RunResult) {
    match r
    case Short => run.Waiting?
    case Bad => run.Failed?
    case Ok(_, _) => run == next
  }

  function AfterValue(p: Protocol, s: State, stack: seq<Frame>, out: seq<byte>, r: Parse<Value>): (run: RunResult)
    requires Lawful(p)
    requires r.Ok? ==> WellTyped(r.value)
  {
    if r.Ok? then Run(p, Machine(s, stack, out + Encoding(p, r.value)), r.rest) else Failed
  }

  /** A value read in a state that hands over to `HandleValue`. */
  lemma {:induction false} SimHandled(p: Protocol, m: Machine, stack: seq<Frame>, b: seq<byte>,
                                      t: FieldType, ret: State)
    requires Lawful(p)
    requires m.state != Done
    requires Step(p, m, b) == HandleValue(p, m.(stack := stack), b, t, ret)
    ensures ParseValue(p, t, b).Ok? ==> WellTyped(ParseValue(p, t, b).value)
    ensures Agrees(Run(p, m, b), ParseValue(p, t, b), AfterValue(p, ret, stack, m.out, ParseValue(p, t, b)))
    decreases |b|, 3
  {
    hide Run, WriteAll, Tokens, FieldTokens, ValueTokens, EntryTokens, Encoding;
    RunNext(p, m, b);
    ValueTyped(p, t, b);
    if IsScalarType(t) {
      if ParseValue(p, t, b).Ok? { OutScalar(p, m.out, ParseValue(p, t, b).value.tok); }
    } else if IsContainerType(t) {
      SimContainer(p, t, stack, m.out, ret, b);
    }
  }

  lemma {:induction false} SimContainer(p: Protocol, t: FieldType, stack: seq<Frame>, out: seq<byte>,
                                        ret: State, b: seq<byte>)
    requires Lawful(p)
    requires IsContainerType(t)
    ensures ParseValue(p, t, b).Ok? ==> WellTyped(ParseValue(p, t, b).value)
    ensures Agrees(Run(p, Machine(BeginState(t), stack + [ReturnTo(ret)], out), b), ParseValue(p, t, b),
                   AfterValue(p, ret, stack, out, ParseValue(p, t, b)))
    decreases |b|, 2
  {
    hide Run, WriteAll, Tokens, FieldTokens, ValueTokens, EntryTokens, Encoding;
    var full := stack + [ReturnTo(ret)];
    assert Top(full) == ReturnTo(ret) && Pop(full) == stack;
    if t == STRUCT {
      SimStruct(p, full, out, b);
    } else if t == MAP {
      SimMap(p, full, out, b);
    } else {
      SimSequence(p, t, full, out, b);
    }
  }

  lemma {:induction false} SimStruct(p: Protocol, stack: seq<Frame>, out: seq<byte>, b: seq<byte>)
    requires Lawful(p)
    requires stack != []
    ensures var r := ParseStruct(p, b);
      && (r.Ok? ==> WellTyped(r.value))
      && Agrees(Run(p, Machine(StructBegin, stack, out), b), r,
                AfterValue(p, Top(stack).returnState, Pop(stack), out, r))
    decreases |b|, 1
  {
    hide Run, WriteAll, Tokens, FieldTokens, ValueTokens, EntryTokens, Encoding;
    var m := Machine(StructBegin, stack, out);
    RunNext(p, m, b);
    var h := Read(p, StructBeginK, b);
    if h.Got? {
      EndToken(p, StructBeginK, b);
      var out1 := out + Write(p, StructHeader);
      SimFields(p, stack, out1, b[h.len..]);
      var fs := ParseFields(p, b[h.len..]);
      if fs.Ok? {
        FieldsTyped(p, b[h.len..]);
        var out2 := out1 + WriteAll(p, FieldTokens(fs.value));
        RunNext(p, Machine(StructEnd, stack, out2), fs.rest);
        if Read(p, StructEndK, fs.rest).Got? {
          EndToken(p, StructEndK, fs.rest);
          OutStruct(p, out, fs.value);
        }
      }
    }
  }

  lemma {:induction false} SimFields(p: Protocol, stack: seq<Frame>, out: seq<byte>, b: seq<byte>)
    requires Lawful(p)
    ensures var r := ParseFields(p, b);
      && (r.Ok? ==> WellTypedFields(r.value))
      && Agrees(Run(p, Machine(FieldBegin, stack, out), b), r,
                if r.Ok? then Run(p, Machine(StructEnd, stack, out + WriteAll(p, FieldTokens(r.value))), r.rest)
                else Failed)
    decreases |b|, 0
  {
    hide Run, WriteAll, Tokens, FieldTokens, ValueTokens, EntryTokens, Encoding;
    var m := Machine(FieldBegin, stack, out);
    RunNext(p, m, b);
    var h := Read(p, FieldBeginK, b);
    FieldsTyped(p, b);
    if h.Got? && h.tok.FieldStop? {
      OutEmpty(p, out);
    } else if h.Got? {
      var t, b1 := h.tok.fieldType, b[h.len..];
      var out1 := out + Write(p, h.tok);
      var inner := stack + [Frame(FieldEnd, t, STOP, 0)];
      assert Pop(inner) == stack;
      SimHandled(p, Machine(FieldValue, inner, out1), inner, b1, t, FieldEnd);
      var v := ParseValue(p, t, b1);
      if v.Ok? {
        ValueTyped(p, t, b1);
        SimFieldEnd(p, inner, out1 + Encoding(p, v.value), v.rest, |b|);
        var e := Read(p, FieldEndK, v.rest);
        if e.Got? {
          var os := ParseFields(p, v.rest[e.len..]);
          if os.Ok? {
            FieldsTyped(p, v.rest[e.len..]);
            OutField(p, out, h.tok.fieldId, v.value, os.value);
          }
        }
      }
    }
  }

  /** The end of one field and all the fields after it. */
  lemma {:induction false} SimFieldEnd(p: Protocol, stack: seq<Frame>, out: seq<byte>, b: seq<byte>, bound: nat)
    requires Lawful(p)
    requires stack != []
    requires |b| < bound
    ensures var e := Read(p, FieldEndK, b);
      && (e.More? ==> Run(p, Machine(FieldEnd, stack, out), b).Waiting?)
      && (e.Invalid? ==> Run(p, Machine(FieldEnd, stack, out), b).Failed?)
      && (e.Got? ==>
        var r := ParseFields(p, b[e.len..]);
        var out1 := out + Write(p, FieldFooter);
        && (r.Ok? ==> WellTypedFields(r.value))
        && Agrees(Run(p, Machine(FieldEnd, stack, out), b), r,
                  if r.Ok?
                  then Run(p, Machine(StructEnd, Pop(stack), out1 + WriteAll(p, FieldTokens(r.value))), r.rest)
                  else Failed))
    decreases bound, 0, 0
  {
    hide Run, WriteAll, Tokens, FieldTokens, ValueTokens, EntryTokens, Encoding;
    RunNext(p, Machine(FieldEnd, stack, out), b);
    var e := Read(p, FieldEndK, b);
    if e.Got? {
      EndToken(p, FieldEndK, b);
      SimFields(p, Pop(stack), out + Write(p, FieldFooter), b[e.len..]);
    }
  }

  function ValueState(t: FieldType): (s: State) { if t == SET then SetValue else ListValue }
  function EndState(t: FieldType): (s: State) { if t == SET then SetEnd else ListEnd }

  lemma {:induction false} SimSequence(p: Protocol, t: FieldType, stack: seq<Frame>, out: seq<byte>, b: seq<byte>)
    requires Lawful(p)
    requires t == LIST || t == SET
    requires stack != []
    ensures var r := ParseSequence(p, t, b);
      && (r.Ok? ==> WellTyped(r.value))
      && Agrees(Run(p, Machine(BeginState(t), stack, out), b), r,
                AfterValue(p, Top(stack).returnState, Pop(stack), out, r))
    decreases |b|, 1
  {
    hide Run, WriteAll, Tokens, FieldTokens, ValueTokens, EntryTokens, Encoding;
    RunNext(p, Machine(BeginState(t), stack, out), b);
    var h := Read(p, BeginKind(t), b);
    if h.Got? {
      var b1, et, n := b[h.len..], h.tok.elemType, h.tok.size;
      var out1 := out + Write(p, h.tok);
      assert Machine(ValueState(t), stack + [Frame(EndState(t), et, STOP, n)], out1)
          == Step(p, Machine(BeginState(t), stack, out), b).m;
      SimValues(p, t, stack, et, n, out1, b1);
      var vs := ParseValues(p, et, n, b1);
      if vs.Ok? {
        ValuesTyped(p, et, n, b1);
        var out2 := out1 + WriteAll(p, ValueTokens(et, vs.value));
        RunNext(p, Machine(EndState(t), stack, out2), vs.rest);
        if Read(p, EndKind(t), vs.rest).Got? {
          EndToken(p, EndKind(t), vs.rest);
          OutSequence(p, out, t, h.tok, vs.value);
        }
      }
    }
  }

  lemma {:induction false} SimValues(p: Protocol, t: FieldType, stack: seq<Frame>, et: FieldType, n: nat,
                                     out: seq<byte>, b: seq<byte>)
    requires Lawful(p)
    requires t == LIST || t == SET
    ensures var r := ParseValues(p, et, n, b);
      && (r.Ok? ==> WellTypedValues(et, r.value))
      && Agrees(Run(p, Machine(ValueState(t), stack + [Frame(EndState(t), et, STOP, n)], out), b), r,
                if r.Ok? then Run(p, Machine(EndState(t), stack, out + WriteAll(p, ValueTokens(et, r.value))), r.rest)
                else Failed)
    decreases |b|, 4
  {
    hide Run, WriteAll, Tokens, FieldTokens, ValueTokens, EntryTokens, Encoding;
    var full := stack + [Frame(EndState(t), et, STOP, n)];
    assert Pop(full) == stack;
    var m := Machine(ValueState(t), full, out);
    RunNext(p, m, b);
    if n == 0 {
      OutEmpty(p, out);
    } else {
      var less := stack + [Frame(EndState(t), et, STOP, n - 1)];
      CountedDown(p, m, b, et, ValueState(t), stack, full, less);
      SimHandled(p, m, less, b, et, ValueState(t));
      var v := ParseValue(p, et, b);
      if v.Ok? {
        ValueTyped(p, et, b);
        SimValues(p, t, stack, et, n - 1, out + Encoding(p, v.value), v.rest);
        var vs := ParseValues(p, et, n - 1, v.rest);
        if vs.Ok? {
          OutElem(p, out, et, v.value, vs.value);
        }
      }
    }
  }

  /** Counting the frame down after the value was handed over is the same as before. */
  lemma CountedDown(p: Protocol, m: Machine, b: seq<byte>, t: FieldType, ret: State,
                    below: seq<Frame>, full: seq<Frame>, less: seq<Frame>)
    requires Lawful(p)
    requires m.stack == full && full != [] && Pop(full) == below
    requires Top(full).remaining > 0
    requires less == below + [Top(full).(remaining := Top(full).remaining - 1)]
    ensures CountDown(HandleValue(p, m, b, t, ret), |full| - 1) == HandleValue(p, m.(stack := less), b, t, ret)
  {
    var i := |full| - 1;
    assert full[i := Top(full).(remaining := Top(full).remaining - 1)] == less;
    assert (full + [ReturnTo(ret)])[i := Top(full).(remaining := Top(full).remaining - 1)] == less + [ReturnTo(ret)];
  }

  lemma {:induction false} SimMap(p: Protocol, stack: seq<Frame>, out: seq<byte>, b: seq<byte>)
    requires Lawful(p)
    requires stack != []
    ensures var r := ParseMap(p, b);
      && (r.Ok? ==> WellTyped(r.value))
      && Agrees(Run(p, Machine(MapBegin, stack, out), b), r, AfterValue(p, Top(stack).returnState, Pop(stack), out, r))
    decreases |b|, 1
  {
    hide Run, WriteAll, Tokens, FieldTokens, ValueTokens, EntryTokens, Encoding;
    RunNext(p, Machine(MapBegin, stack, out), b);
    var h := Read(p, MapBeginK, b);
    if h.Got? {
      var b1, kt, vt, n := b[h.len..], h.tok.keyType, h.tok.valueType, h.tok.size;
      var out1 := out + Write(p, h.tok);
      SimEntries(p, stack, kt, vt, n, out1, b1);
      var es := ParseEntries(p, kt, vt, n, b1);
      if es.Ok? {
        EntriesTyped(p, kt, vt, n, b1);
        var out2 := out1 + WriteAll(p, EntryTokens(kt, vt, es.value));
        RunNext(p, Machine(MapEnd, stack, out2), es.rest);
        if Read(p, MapEndK, es.rest).Got? {
          EndToken(p, MapEndK, es.rest);
          OutMap(p, out, h.tok, es.value);
        }
      }
    }
  }

  lemma {:induction false} SimEntries(p: Protocol, stack: seq<Frame>, kt: FieldType, vt: FieldType, n: nat,
                                      out: seq<byte>, b: seq<byte>)
    requires Lawful(p)
    ensures var r := ParseEntries(p, kt, vt, n, b);
      && (r.Ok? ==> WellTypedEntries(kt, vt, r.value))
      && Agrees(Run(p, Machine(MapKey, stack + [Frame(MapEnd, kt, vt, n)], out), b), r,
                if r.Ok? then Run(p, Machine(MapEnd, stack, out + WriteAll(p, EntryTokens(kt, vt, r.value))), r.rest)
                else Failed)
    decreases |b|, 5
  {
    hide Run, WriteAll, Tokens, FieldTokens, ValueTokens, EntryTokens, Encoding;
    var full := stack + [Frame(MapEnd, kt, vt, n)];
    assert Pop(full) == stack;
    var m := Machine(MapKey, full, out);
    RunNext(p, m, b);
    if n == 0 {
      OutEmpty(p, out);
    } else {
      SimHandled(p, m, full, b, kt, MapValue);
      var k := ParseValue(p, kt, b);
      if k.Ok? {
        ValueTyped(p, kt, b);
        SimMapped(p, stack, kt, vt, n, out + Encoding(p, k.value), k.rest, |b|);
        var v := ParseValue(p, vt, k.rest);
        if v.Ok? {
          var es := ParseEntries(p, kt, vt, n - 1, v.rest);
          if es.Ok? {
            OutEntry(p, out, kt, vt, k.value, v.value, es.value);
          }
        }
      }
    }
  }

  /** The value of one entry and all the entries after it. */
  lemma {:induction false} SimMapped(p: Protocol, stack: seq<Frame>, kt: FieldType, vt: FieldType, n: nat,
                                     out: seq<byte>, b: seq<byte>, bound: nat)
    requires Lawful(p)
    requires n > 0
    requires |b| < bound
    ensures var run := Run(p, Machine(MapValue, stack + [Frame(MapEnd, kt, vt, n)], out), b);
      var v := ParseValue(p, vt, b);
      && (v.Short? ==> run.Waiting?)
      && (v.Bad? ==> run.Failed?)
      && (v.Ok? ==>
        var r := ParseEntries(p, kt, vt, n - 1, v.rest);
        && WellTyped(v.value)
        && (r.Ok? ==> WellTypedEntries(kt, vt, r.value))
        && Agrees(run, r,
                  if r.Ok?
                  then Run(p, Machine(MapEnd, stack,
                                      out + Encoding(p, v.value) + WriteAll(p, EntryTokens(kt, vt, r.value))),
                           r.rest)
                  else Failed))
    decreases bound, 0, 0
  {
    hide Run, WriteAll, Tokens, FieldTokens, ValueTokens, EntryTokens, Encoding;
    var full := stack + [Frame(MapEnd, kt, vt, n)];
    assert Pop(full) == stack;
    var m := Machine(MapValue, full, out);
    var less := stack + [Frame(MapEnd, kt, vt, n - 1)];
    CountedDown(p, m, b, vt, MapKey, stack, full, less);
    SimHandled(p, m, less, b, vt, MapKey);
    var v := ParseValue(p, vt, b);
    if v.Ok? {
      ValueTyped(p, vt, b);
      SimEntries(p, stack, kt, vt, n - 1, out + Encoding(p, v.value), v.rest);
    }
  }

  /** Refinement, for every input: the machine finishes exactly on the octets of a message the
      grammar accepts, has then consumed precisely those, holds an empty stack and has written
      the whole message back; otherwise it waits where the parser runs short and throws where
      the parser rejects. */
  lemma {:induction false} MachineRefinesGrammar(p: Protocol, b: seq<byte>)
    requires Lawful(p)
    ensures var r := ParseMessage(p, b);
      && (r.Short? ==> Run(p, INITIAL, b).Waiting?)
      && (r.Bad? ==> Run(p, INITIAL, b).Failed?)
      && (r.Ok? ==>
            && WellTypedMessage(r.value)
            && Run(p, INITIAL, b) == Finished(Machine(Done, [], WriteAll(p, MessageTokens(r.value))), r.rest))
  {
    hide Run, WriteAll, Tokens, FieldTokens, ValueTokens, EntryTokens, Encoding, ParseStruct, Lex;
    RunNext(p, INITIAL, b);
    var h := Read(p, MessageBeginK, b);
    if h.Got? {
      var out1 := [] + Write(p, h.tok);
      var b1 := b[h.len..];
      SimStruct(p, [ReturnTo(MessageEnd)], out1, b1);
      var s := ParseStruct(p, b1);
      if s.Ok? {
        StructSound(p, b1);
        var out2 := out1 + Encoding(p, s.value);
        RunNext(p, Machine(MessageEnd, [], out2), s.rest);
        if Read(p, MessageEndK, s.rest).Got? {
          EndToken(p, MessageEndK, s.rest);
          OutMessage(p, h.tok, s.value.fields);
          var last := Step(p, Machine(MessageEnd, [], out2), s.rest);
          RunDone(p, last.m, last.rest);
        }
      }
    }
  }

  /** In particular every well-typed message tree, of any nesting and followed by anything, is
      decoded and transcribed whole. */
  lemma MachineDecodesEveryMessage(p: Protocol, msg: Message, rest: seq<byte>)
    requires Lawful(p) && WellTypedMessage(msg)
    ensures var wire := WriteAll(p, MessageTokens(msg));
      Run(p, INITIAL, wire + rest) == Finished(Machine(Done, [], wire), rest)
  {
    ParseWritten(p, msg, rest);
    MachineRefinesGrammar(p, WriteAll(p, MessageTokens(msg)) + rest);
  }
}
