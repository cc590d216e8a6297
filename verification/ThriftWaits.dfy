/** What waiting and throwing mean: with the binary protocol no wait is for ever, and a value of a
    type that does not exist is refused at once. */
module ThriftWaits {
  import opened Bytes
  import opened ThriftProtocol
  import opened ThriftBinary
  import opened ThriftGrammar
  import opened ThriftMachine
  import opened ThriftRuns

  // ----- More octets always bring a decision -----

  /** The parser has decided, and has left nothing of the octets `c` that were added to make it. */
  predicate Decided<T>(r: Parse<T>, c: seq<byte>) {
    r.Bad? || (r.Ok? && (c == [] || r.rest == []))
  }

  lemma {:induction false} ValueExtends(p: Protocol, t: FieldType, b: seq<byte>, c: seq<byte>)
    requires Lawful(p) && ParseValue(p, t, b).Ok?
    ensures ParseValue(p, t, b + c) == Ok(ParseValue(p, t, b).value, ParseValue(p, t, b).rest + c)
  {
    hide ParseValue, Lex, Lawful, Tokens;
    var r := ParseValue(p, t, b);
    ValueSound(p, t, b);
    LexExtends(p, b, Tokens(r.value), c);
    ValueComplete(p, r.value, b + c);
  }

  function Zeros(n: nat): (b: seq<byte>)
    ensures |b| == n
  {
    seq(n, _ => 0)
  }

  /** What is missing from `b` to have `n` octets. */
  function Fill(b: seq<byte>, n: nat): (c: seq<byte>)
    ensures |b + c| == if |b| < n then n else |b|
  {
    if |b| < n then Zeros(n - |b|) else []
  }

  lemma {:induction false} DecideString(b: seq<byte>) returns (c: seq<byte>)
    ensures ReadString(b + c).Invalid? || (ReadString(b + c).Got? && (c == [] || ReadString(b + c).len == |b + c|))
  {
    hide U32At;
    var c0 := Fill(b, 4);
    var b0 := b + c0;
    var n := U32At(b0, 0);
    if n >= 0x8000_0000 {
      c := c0;
    } else {
      c := c0 + Fill(b0, 4 + n);
      assert b + c == b0 + Fill(b0, 4 + n);
      SameFront(b0, Fill(b0, 4 + n), 0);
    }
  }

  lemma SameFront(b: seq<byte>, c: seq<byte>, at: nat)
    requires at + 4 <= |b|
    ensures U32At(b + c, at) == U32At(b, at)
  {
  }

  function ScalarSize(t: FieldType): (n: nat) {
    if t == BOOL || t == BYTE then 1 else if t == I16 then 2 else if t == I32 then 4 else 8
  }

  lemma {:induction false} DecideScalar(p: Protocol, t: FieldType, b: seq<byte>) returns (c: seq<byte>)
    requires p == BINARY && Lawful(p) && IsScalarType(t)
    ensures Decided(ParseValue(p, t, b + c), c)
  {
    if t == STRING {
      c := DecideString(b);
    } else {
      hide U16At, U32At, U64At;
      c := Fill(b, ScalarSize(t));
    }
  }

  lemma {:induction false} DecideValue(p: Protocol, t: FieldType, b: seq<byte>) returns (c: seq<byte>)
    requires p == BINARY && Lawful(p)
    ensures Decided(ParseValue(p, t, b + c), c)
    decreases |b|, 2
  {
    if IsScalarType(t) {
      c := DecideScalar(p, t, b);
    } else if t == STRUCT {
      hide ParseStruct;
      c := DecideStruct(p, b);
    } else if t == LIST || t == SET {
      hide ParseSequence;
      c := DecideSequence(p, t, b);
    } else if t == MAP {
      hide ParseMap;
      c := DecideMap(p, b);
    } else {
      c := [];
    }
  }

  lemma {:induction false} DecideStruct(p: Protocol, b: seq<byte>) returns (c: seq<byte>)
    requires p == BINARY && Lawful(p)
    ensures Decided(ParseStruct(p, b + c), c)
    decreases |b|, 1
  {
    hide ParseFields;
    c := DecideFields(p, b);
    assert (b + c)[0..] == b + c;
  }

  lemma {:induction false} DecideFields(p: Protocol, b: seq<byte>) returns (c: seq<byte>)
    requires p == BINARY && Lawful(p)
    ensures Decided(ParseFields(p, b + c), c)
    decreases |b|, 0
  {
    hide ParseFields;
    if b == [] || b[0] == STOP {
      c := if b == [] then [STOP] else [];
      StopEndsFields(p, b + c);
    } else {
      hide ParseValue, Fill;
      var c0 := Fill(b, 3);
      FillKeeps(b, 3);
      var c1 := DecideField(p, b, c0);
      c := c0 + c1;
      assert b + c == b + c0 + c1;
    }
  }

  lemma FillKeeps(b: seq<byte>, n: nat)
    ensures |b| >= n ==> Fill(b, n) == [] && b + Fill(b, n) == b
    ensures b != [] ==> (b + Fill(b, n))[0] == b[0]
  {
  }

  /** The fields of a struct that begins with a whole field header. */
  lemma {:induction false} DecideField(p: Protocol, b: seq<byte>, c0: seq<byte>) returns (c: seq<byte>)
    requires p == BINARY && Lawful(p)
    requires b != [] && |b + c0| >= 3 && (b + c0)[0] != STOP && (c0 == [] || |b + c0| == 3)
    ensures Decided(ParseFields(p, b + c0 + c), c0 + c)
    decreases |b|, 0, 0
  {
    hide ParseValue, ParseFields;
    var b0 := b + c0;
    assert c0 == [] ==> b0 == b;
    var c1 := DecideValue(p, b0[0], b0[3..]);
    var v := ParseValue(p, b0[0], b0[3..] + c1);
    if v.Bad? {
      c := c1;
      FieldsGoOn(p, b0, c1);
    } else {
      FieldLeavesLess(p, b, b0, c1);
      var c2 := DecideFields(p, v.rest);
      c := c1 + c2;
      FieldsDecided(p, b0, c1, c2);
    }
  }

  lemma {:induction false} FieldLeavesLess(p: Protocol, b: seq<byte>, b0: seq<byte>, c1: seq<byte>)
    requires Lawful(p) && b != [] && |b0| >= 3 && (|b0| == 3 || b0 == b)
    requires ParseValue(p, b0[0], b0[3..] + c1).Ok? && Decided(ParseValue(p, b0[0], b0[3..] + c1), c1)
    ensures |ParseValue(p, b0[0], b0[3..] + c1).rest| < |b|
  {
    hide ParseValue;
    assert c1 == [] ==> b0[3..] + c1 == b0[3..];
  }

  lemma {:induction false} FieldsDecided(p: Protocol, b0: seq<byte>, c1: seq<byte>, c2: seq<byte>)
    requires p == BINARY && Lawful(p) && |b0| >= 3 && b0[0] != STOP
    requires ParseValue(p, b0[0], b0[3..] + c1).Ok? && Decided(ParseValue(p, b0[0], b0[3..] + c1), c1)
    requires Decided(ParseFields(p, ParseValue(p, b0[0], b0[3..] + c1).rest + c2), c2)
    ensures Decided(ParseFields(p, b0 + (c1 + c2)), c1 + c2)
    ensures ParseFields(p, b0 + (c1 + c2)).Ok? && |b0| == 3 ==> ParseFields(p, b0 + (c1 + c2)).rest == []
  {
    hide ParseValue, ParseFields;
    var v := ParseValue(p, b0[0], b0[3..] + c1);
    ValueExtends(p, b0[0], b0[3..] + c1, c2);
    assert b0[3..] + c1 + c2 == b0[3..] + (c1 + c2);
    FieldsGoOn(p, b0, c1 + c2);
    var fs := ParseFields(p, v.rest + c2);
    assert fs.Ok? ==> |fs.rest| < |v.rest + c2|;
    assert c1 == [] ==> b0[3..] + c1 == b0[3..];
  }

  lemma StopEndsFields(p: Protocol, b: seq<byte>)
    requires p == BINARY && Lawful(p) && b != [] && b[0] == STOP
    ensures ParseFields(p, b) == Ok(NoFields, b[1..])
  {
  }

  /** Behind a field header come its value and the other fields. */
  lemma {:induction false} FieldsGoOn(p: Protocol, b: seq<byte>, c: seq<byte>)
    requires p == BINARY && Lawful(p) && |b| >= 3 && b[0] != STOP
    ensures var r, v := ParseFields(p, b + c), ParseValue(p, b[0], b[3..] + c);
      && (v.Bad? ==> r.Bad?)
      && (v.Ok? ==>
            && var fs := ParseFields(p, v.rest);
            && (fs.Bad? ==> r.Bad?)
            && (fs.Ok? ==> r.Ok? && r.rest == fs.rest))
  {
    hide ParseValue;
    FieldHeaderRead(b, c);
    var v := ParseValue(p, b[0], b[3..] + c);
    assert v.Ok? ==> v.rest[0..] == v.rest;
  }

  lemma FieldHeaderRead(b: seq<byte>, c: seq<byte>)
    requires |b| >= 3 && b[0] != STOP
    ensures var r := ReadBinary(FieldBeginK, b + c);
      r.Got? && r.len == 3 && r.tok.FieldHeader? && r.tok.fieldType == b[0] && (b + c)[3..] == b[3..] + c
  {
  }

  lemma {:induction false} DecideSequence(p: Protocol, t: FieldType, b: seq<byte>) returns (c: seq<byte>)
    requires p == BINARY && Lawful(p) && (t == LIST || t == SET)
    ensures Decided(ParseSequence(p, t, b + c), c)
    decreases |b|, 1
  {
    hide ParseValues;
    var c0 := Fill(b, 5);
    var b0 := b + c0;
    SequenceHeaderRead(t, b0, []);
    assert b0 + [] == b0;
    var n := U32At(b0, 1);
    if n >= 0x8000_0000 {
      c := c0;
    } else if n == 0 {
      c := c0;
      NoValuesParsed(p, b0[0], b0[5..]);
    } else {
      assert b != [] by { ZerosAreZero(b0); }
      var c1 := DecideValues(p, b0[0], n, b0[5..]);
      c := c0 + c1;
      assert b + c == b0 + c1;
      SequenceHeaderRead(t, b0, c1);
      hide U32At;
      var vs := ParseValues(p, b0[0], n, b0[5..] + c1);
      assert vs.Ok? ==> vs.rest[0..] == vs.rest;
    }
  }

  lemma ZerosAreZero(b: seq<byte>)
    requires |b| >= 5 && U32At(b, 1) != 0
    ensures exists i | 0 <= i < 5 :: b[i] != 0
  {
    assert b[1] != 0 || b[2] != 0 || b[3] != 0 || b[4] != 0;
  }

  lemma NoValuesParsed(p: Protocol, t: FieldType, b: seq<byte>)
    requires Lawful(p)
    ensures ParseValues(p, t, 0, b) == Ok(NoValues, b) && b[0..] == b
  {
  }

  lemma {:induction false} SequenceHeaderRead(t: FieldType, b: seq<byte>, c: seq<byte>)
    requires |b| >= 5 && (t == LIST || t == SET)
    ensures var r := ReadBinary(BeginKind(t), b + c);
      if U32At(b, 1) >= 0x8000_0000 then r.Invalid?
      else r.Got? && r.len == 5 && r.tok.elemType == b[0] && r.tok.size == U32At(b, 1) && (b + c)[5..] == b[5..] + c
  {
    SameFront(b, c, 1);
    hide U32At;
  }

  lemma {:induction false} DecideValues(p: Protocol, t: FieldType, count: nat, b: seq<byte>) returns (c: seq<byte>)
    requires p == BINARY && Lawful(p)
    ensures Decided(ParseValues(p, t, count, b + c), c)
    decreases |b|, 3, count
  {
    hide ParseValue;
    if count == 0 {
      c := [];
    } else {
      var c1 := DecideValue(p, t, b);
      var v := ParseValue(p, t, b + c1);
      if v.Bad? {
        c := c1;
      } else {
        var c2 := DecideValues(p, t, count - 1, v.rest);
        c := c1 + c2;
        assert b + c == b + c1 + c2;
        ValueExtends(p, t, b + c1, c2);
      }
    }
  }

  lemma {:induction false} DecideMap(p: Protocol, b: seq<byte>) returns (c: seq<byte>)
    requires p == BINARY && Lawful(p)
    ensures Decided(ParseMap(p, b + c), c)
    decreases |b|, 1
  {
    hide ParseEntries;
    var c0 := Fill(b, 6);
    var b0 := b + c0;
    MapHeaderRead(b0, []);
    assert b0 + [] == b0;
    var n := U32At(b0, 2);
    if n >= 0x8000_0000 {
      c := c0;
    } else if n == 0 {
      c := c0;
      NoEntriesParsed(p, b0[0], b0[1], b0[6..]);
    } else {
      assert b != [] by { assert b0[2] != 0 || b0[3] != 0 || b0[4] != 0 || b0[5] != 0; }
      var c1 := DecideEntries(p, b0[0], b0[1], n, b0[6..]);
      c := c0 + c1;
      assert b + c == b0 + c1;
      MapHeaderRead(b0, c1);
      hide U32At;
      var es := ParseEntries(p, b0[0], b0[1], n, b0[6..] + c1);
      assert es.Ok? ==> es.rest[0..] == es.rest;
    }
  }

  lemma NoEntriesParsed(p: Protocol, kt: FieldType, vt: FieldType, b: seq<byte>)
    requires Lawful(p)
    ensures ParseEntries(p, kt, vt, 0, b) == Ok(NoEntries, b) && b[0..] == b
  {
  }

  lemma {:induction false} MapHeaderRead(b: seq<byte>, c: seq<byte>)
    requires |b| >= 6
    ensures var r := ReadBinary(MapBeginK, b + c);
      if U32At(b, 2) >= 0x8000_0000 then r.Invalid?
      else
        && r.Got? && r.len == 6 && r.tok == MapHeader(b[0], b[1], U32At(b, 2))
        && (b + c)[6..] == b[6..] + c
  {
    SameFront(b, c, 2);
    hide U32At;
  }

  lemma {:induction false} DecideEntries(p: Protocol, kt: FieldType, vt: FieldType, count: nat, b: seq<byte>)
    returns (c: seq<byte>)
    requires p == BINARY && Lawful(p)
    ensures Decided(ParseEntries(p, kt, vt, count, b + c), c)
    decreases |b|, 3, count
  {
    hide ParseValue;
    if count == 0 {
      c := [];
    } else {
      var c1 := DecideValue(p, kt, b);
      var k := ParseValue(p, kt, b + c1);
      if k.Bad? {
        c := c1;
      } else {
        var c2 := DecideMapped(p, kt, vt, b, c1);
        var v := ParseValue(p, vt, k.rest + c2);
        c := c1 + c2;
        assert b + c == b + c1 + c2;
        ValueExtends(p, kt, b + c1, c2);
        if v.Ok? {
          var c3 := DecideEntries(p, kt, vt, count - 1, v.rest);
          c := c + c3;
          assert b + c == b + c1 + (c2 + c3) && k.rest + (c2 + c3) == k.rest + c2 + c3;
          ValueExtends(p, kt, b + c1, c2 + c3);
          ValueExtends(p, vt, k.rest + c2, c3);
        }
      }
    }
  }

  lemma {:induction false} DecideMapped(p: Protocol, kt: FieldType, vt: FieldType, b: seq<byte>, c1: seq<byte>)
    returns (c: seq<byte>)
    requires p == BINARY && Lawful(p)
    requires ParseValue(p, kt, b + c1).Ok? && Decided(ParseValue(p, kt, b + c1), c1)
    ensures Decided(ParseValue(p, vt, ParseValue(p, kt, b + c1).rest + c), c1 + c)
    ensures var v := ParseValue(p, vt, ParseValue(p, kt, b + c1).rest + c);
      v.Ok? ==> |v.rest| < |b| || (b == [] && v.rest == [])
    decreases |b|, 3, 0
  {
    hide ParseValue;
    var k := ParseValue(p, kt, b + c1);
    c := DecideValue(p, vt, k.rest);
  }

  lemma {:induction false} MessageHeaderRead(b: seq<byte>, c: seq<byte>)
    requires |b| >= MIN_MESSAGE_BEGIN && |b| >= U32At(b, 4) + MIN_MESSAGE_BEGIN
    ensures var r := ReadBinary(MessageBeginK, b + c);
      && !r.More?
      && (r.Got? ==> r.len == U32At(b, 4) + MIN_MESSAGE_BEGIN && (b + c)[r.len..] == b[r.len..] + c)
  {
    SameFront(b, c, 4);
    hide U32At;
  }

  /** For every input there are octets after which the parser has decided. */
  lemma {:induction false} DecideMessage(p: Protocol, b: seq<byte>) returns (c: seq<byte>)
    requires p == BINARY && Lawful(p)
    ensures !ParseMessage(p, b + c).Short?
  {
    hide ParseStruct;
    var c0 := Fill(b, MIN_MESSAGE_BEGIN);
    var b0 := b + c0;
    var c1 := Fill(b0, U32At(b0, 4) + MIN_MESSAGE_BEGIN);
    SameFront(b0, c1, 4);
    var b1 := b0 + c1;
    var n := U32At(b1, 4) + MIN_MESSAGE_BEGIN;
    var c2 := DecideStruct(p, b1[n..]);
    c := c0 + c1 + c2;
    assert b + c == b1 + c2;
    MessageHeaderRead(b1, c2);
  }

  /** No wait is for ever: whatever has arrived, there are octets after which the decoder has
      finished or failed. */
  lemma {:induction false} EveryWaitEnds(p: Protocol, b: seq<byte>) returns (c: seq<byte>)
    requires p == BINARY && Lawful(p)
    ensures Run(p, INITIAL, b + c).Finished? || Run(p, INITIAL, b + c).Failed?
  {
    hide Run, ParseMessage;
    c := DecideMessage(p, b);
    MachineRefinesGrammar(p, b + c);
  }

  /** And no failure is too early: what has failed does not become a message by more octets. */
  lemma {:induction false} FailureIsFinal(p: Protocol, b: seq<byte>, c: seq<byte>)
    requires Lawful(p) && ParseMessage(p, b).Bad?
    ensures ParseMessage(p, b + c).Bad?
  {
    hide Run, ParseMessage;
    MachineRefinesGrammar(p, b);
    MachineRefinesGrammar(p, b + c);
    RunThenResume(p, INITIAL, b, c);
  }

  // ----- Every state -----

  /** What the handler of a state reads, if it reads anything. */
  function Awaited(m: Machine): (k: Kind) {
    match m.state
    case MessageBegin => MessageBeginK
    case FieldBegin => FieldBeginK
    case ListBegin => ListBeginK
    case SetBegin => SetBeginK
    case MapBegin => MapBeginK
    case MessageEnd => MessageEndK
    case StructBegin => StructBeginK
    case StructEnd => StructEndK
    case FieldEnd => FieldEndK
    case ListEnd => ListEndK
    case SetEnd => SetEndK
    case MapEnd => MapEndK
    case MapValue => ScalarK(if m.stack == [] then STOP else Top(m.stack).valueType)
    case _ => ScalarK(if m.stack == [] then STOP else Top(m.stack).elemType)
  }

  lemma WaitIsForMore(p: Protocol, m: Machine, b: seq<byte>)
    requires Lawful(p) && Step(p, m, b).Wait?
    ensures Read(p, Awaited(m), b).More?
  {
  }

  lemma {:induction false} ReadEnds(k: Kind, b: seq<byte>) returns (c: seq<byte>)
    ensures !ReadBinary(k, b + c).More?
  {
    hide U16At, U32At, U64At;
    if k == ScalarK(STRING) {
      c := DecideString(b);
    } else if k == MessageBeginK {
      var c0 := Fill(b, MIN_MESSAGE_BEGIN);
      var b0 := b + c0;
      var c1 := Fill(b0, U32At(b0, 4) + MIN_MESSAGE_BEGIN);
      SameFront(b0, c1, 4);
      c := c0 + c1;
      assert b + c == b0 + c1;
    } else {
      c := Fill(b, 8);
    }
  }

  /** In every state, reached or not, the wait of a handler ends. */
  lemma {:induction false} StepWaitEnds(p: Protocol, m: Machine, b: seq<byte>) returns (c: seq<byte>)
    requires p == BINARY && Lawful(p)
    ensures !Step(p, m, b + c).Wait?
  {
    hide Step, ReadBinary;
    c := ReadEnds(Awaited(m), b);
    if Step(p, m, b + c).Wait? {
      WaitIsForMore(p, m, b + c);
    }
  }

  // ----- Types that do not exist -----

  /** The value the machine is about to decode, if it is about to decode one. */
  predicate ValueIsDue(m: Machine) {
    && m.stack != []
    && (m.state == FieldValue || (m.state in {ListValue, SetValue, MapKey, MapValue} && Top(m.stack).remaining > 0))
  }

  function DueType(m: Machine): (t: FieldType)
    requires ValueIsDue(m)
  {
    if m.state == MapValue then Top(m.stack).valueType else Top(m.stack).elemType
  }

  predicate TypeExists(t: FieldType) {
    t in {2, 3, 4, 6, 8, 10, 11, 12, 13, 14, 15}
  }

  /** As a field, an element, a key or a mapped value, a type that does not exist makes the decoder
      fail on every buffer. */
  lemma {:induction false} UnknownTypeFails(p: Protocol, m: Machine, b: seq<byte>)
    requires Lawful(p) && ValueIsDue(m) && !TypeExists(DueType(m))
    ensures Run(p, m, b).Failed?
  {
    hide Run;
    RunNext(p, m, b);
  }

  /** A type that exists does not: without octets its value is waited for or begun. */
  lemma KnownTypeGoesOn(p: Protocol, m: Machine)
    requires p == BINARY && Lawful(p) && ValueIsDue(m) && TypeExists(DueType(m))
    ensures Step(p, m, []).Wait? || Step(p, m, []).Next?
  {
  }

  /** The numbers of the types, by what is read for a value of each. */
  lemma TypesByNumber(b: seq<byte>)
    ensures |b| >= 1 ==> ReadScalar(2, b) == Got(BoolValue(b[0] != 0), 1) && ReadScalar(3, b) == Got(ByteValue(b[0]), 1)
    ensures |b| >= 2 ==> ReadScalar(6, b) == Got(I16Value(Signed16(U16At(b, 0))), 2)
    ensures |b| >= 4 ==> ReadScalar(8, b) == Got(I32Value(Signed32(U32At(b, 0))), 4)
    ensures |b| >= 8 ==> ReadScalar(10, b) == Got(I64Value(Signed64(U64At(b, 0))), 8)
    ensures |b| >= 8 ==> ReadScalar(4, b) == Got(DoubleValue(U64At(b, 0)), 8)
    ensures ReadScalar(11, b).Got? ==> ReadScalar(11, b).tok.StringValue? && ReadScalar(11, b).len == 4 + U32At(b, 0)
    ensures BeginState(12) == StructBegin && BeginState(13) == MapBegin
    ensures BeginState(14) == SetBegin && BeginState(15) == ListBegin
  {
  }
}
