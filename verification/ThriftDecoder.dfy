/** The decoder in the form it has in the proxy: an object whose handlers update its state,
    stack and output buffer in place.  Each handler is proved against the transition function. */
module ThriftDecoder {
  import opened Bytes
  import opened ThriftProtocol
  import opened ThriftGrammar
  import opened ThriftMachine
  import opened ThriftRuns

  /** Returned by a handler: the next state, a request for more octets, or an exception. */
  datatype Outcome = WaitForData | Raise | Goto(s: State)

  class DecoderStateMachine {
    const proto: Protocol
    var state: State
    var stack: seq<Frame>
    var originMessage: seq<byte>

    ghost predicate Valid()
      reads this
    {
      Lawful(proto) && Fits(state, stack)
    }

    ghost function View(): (m: Machine)
      reads this
    {
      Machine(state, stack, originMessage)
    }

    constructor (p: Protocol)
      requires Lawful(p)
      ensures Valid() && proto == p && View() == INITIAL
    {
      proto := p;
      state := MessageBegin;
      stack := [];
      originMessage := [];
    }

    /** The handler's outcome and effect are those of transition `r`. */
    ghost predicate Did(r: StepResult, before: Machine, input: seq<byte>, buffer: Buffer, outcome: Outcome)
      reads this, buffer
    {
      && state == before.state
      && match r
         case Next(m, rest, _) =>
           outcome == Goto(m.state) && stack == m.stack && originMessage == m.out && buffer.data == rest
         case Wait =>
           outcome == WaitForData && stack == before.stack && originMessage == before.out && buffer.data == input
         case Throw =>
           outcome == Raise && stack == before.stack && originMessage == before.out && buffer.data == input
         case Panic => false
    }

    /** One `read...` call of the protocol. */
    method ReadElement(buffer: Buffer, k: Kind) returns (r: ReadResult)
      requires Lawful(proto)
      modifies buffer
      ensures r == Read(proto, k, old(buffer.data))
      ensures buffer.data == if r.Got? then old(buffer.data)[r.len..] else old(buffer.data)
    {
      r := Read(proto, k, buffer.data);
      if r.Got? { buffer.Drain(r.len); }
    }

    method WriteElement(t: Token)
      modifies this`originMessage
      ensures originMessage == old(originMessage) + Write(proto, t)
    {
      originMessage := originMessage + Write(proto, t);
    }

    method PopReturnState() returns (s: State)
      requires stack != []
      modifies this`stack
      ensures s == Top(old(stack)).returnState && stack == Pop(old(stack))
    {
      s := stack[|stack| - 1].returnState;
      stack := stack[..|stack| - 1];
    }

    method OnMessageBegin(buffer: Buffer) returns (o: Outcome)
      requires Valid() && state == MessageBegin
      modifies this`stack, this`originMessage, buffer
      ensures Did(Step(proto, old(View()), old(buffer.data)), old(View()), old(buffer.data), buffer, o)
    {
      var r := ReadElement(buffer, MessageBeginK);
      if r.More? { return WaitForData; }
      if r.Invalid? { return Raise; }
      stack := [];
      stack := stack + [ReturnTo(MessageEnd)];
      WriteElement(r.tok);
      return Goto(StructBegin);
    }

    method OnMessageEnd(buffer: Buffer) returns (o: Outcome)
      requires Valid() && state == MessageEnd
      modifies this`originMessage, buffer
      ensures Did(Step(proto, old(View()), old(buffer.data)), old(View()), old(buffer.data), buffer, o)
    {
      var r := ReadElement(buffer, MessageEndK);
      if r.More? { return WaitForData; }
      if r.Invalid? { return Raise; }
      EndToken(proto, MessageEndK, old(buffer.data));
      WriteElement(MessageFooter);
      return Goto(Done);
    }

    method OnStructBegin(buffer: Buffer) returns (o: Outcome)
      requires Valid() && state == StructBegin
      modifies this`originMessage, buffer
      ensures Did(Step(proto, old(View()), old(buffer.data)), old(View()), old(buffer.data), buffer, o)
    {
      var r := ReadElement(buffer, StructBeginK);
      if r.More? { return WaitForData; }
      if r.Invalid? { return Raise; }
      EndToken(proto, StructBeginK, old(buffer.data));
      WriteElement(StructHeader);
      return Goto(FieldBegin);
    }

    method OnStructEnd(buffer: Buffer) returns (o: Outcome)
      requires Valid() && state == StructEnd
      modifies this`stack, this`originMessage, buffer
      ensures Did(Step(proto, old(View()), old(buffer.data)), old(View()), old(buffer.data), buffer, o)
    {
      assert InValue(stack);
      var r := ReadElement(buffer, StructEndK);
      if r.More? { return WaitForData; }
      if r.Invalid? { return Raise; }
      EndToken(proto, StructEndK, old(buffer.data));
      WriteElement(FieldStop);
      WriteElement(StructFooter);
      var s := PopReturnState();
      return Goto(s);
    }

    method OnFieldBegin(buffer: Buffer) returns (o: Outcome)
      requires Valid() && state == FieldBegin
      modifies this`stack, this`originMessage, buffer
      ensures Did(Step(proto, old(View()), old(buffer.data)), old(View()), old(buffer.data), buffer, o)
    {
      var r := ReadElement(buffer, FieldBeginK);
      if r.More? { return WaitForData; }
      if r.Invalid? { return Raise; }
      if r.tok.FieldStop? { return Goto(StructEnd); }
      stack := stack + [Frame(FieldEnd, r.tok.fieldType, STOP, 0)];
      WriteElement(r.tok);
      return Goto(FieldValue);
    }

    method OnFieldValue(buffer: Buffer) returns (o: Outcome)
      requires Valid() && state == FieldValue
      modifies this`stack, this`originMessage, buffer
      ensures Did(Step(proto, old(View()), old(buffer.data)), old(View()), old(buffer.data), buffer, o)
    {
      assert OnFrame(stack, FieldEnd);
      var frame := stack[|stack| - 1];
      o := HandleValue(buffer, frame.elemType, frame.returnState);
    }

    method OnFieldEnd(buffer: Buffer) returns (o: Outcome)
      requires Valid() && state == FieldEnd
      modifies this`stack, this`originMessage, buffer
      ensures Did(Step(proto, old(View()), old(buffer.data)), old(View()), old(buffer.data), buffer, o)
    {
      assert OnFrame(stack, FieldEnd);
      var r := ReadElement(buffer, FieldEndK);
      if r.More? { return WaitForData; }
      if r.Invalid? { return Raise; }
      EndToken(proto, FieldEndK, old(buffer.data));
      var _ := PopReturnState();
      WriteElement(FieldFooter);
      return Goto(FieldBegin);
    }

    method OnListBegin(buffer: Buffer) returns (o: Outcome)
      requires Valid() && state == ListBegin
      modifies this`stack, this`originMessage, buffer
      ensures Did(Step(proto, old(View()), old(buffer.data)), old(View()), old(buffer.data), buffer, o)
    {
      var r := ReadElement(buffer, ListBeginK);
      if r.More? { return WaitForData; }
      if r.Invalid? { return Raise; }
      stack := stack + [Frame(ListEnd, r.tok.elemType, STOP, r.tok.size)];
      WriteElement(r.tok);
      return Goto(ListValue);
    }

    method OnListValue(buffer: Buffer) returns (o: Outcome)
      requires Valid() && state == ListValue
      modifies this`stack, this`originMessage, buffer
      ensures Did(Step(proto, old(View()), old(buffer.data)), old(View()), old(buffer.data), buffer, o)
    {
      assert OnFrame(stack, ListEnd);
      var index := |stack| - 1;
      if stack[index].remaining == 0 {
        var s := PopReturnState();
        return Goto(s);
      }
      o := HandleValue(buffer, stack[index].elemType, ListValue);
      if o.Goto? { DecrementRemaining(index); }
    }

    method OnListEnd(buffer: Buffer) returns (o: Outcome)
      requires Valid() && state == ListEnd
      modifies this`stack, this`originMessage, buffer
      ensures Did(Step(proto, old(View()), old(buffer.data)), old(View()), old(buffer.data), buffer, o)
    {
      assert InValue(stack);
      var r := ReadElement(buffer, ListEndK);
      if r.More? { return WaitForData; }
      if r.Invalid? { return Raise; }
      EndToken(proto, ListEndK, old(buffer.data));
      WriteElement(ListFooter);
      var s := PopReturnState();
      return Goto(s);
    }

    method OnMapBegin(buffer: Buffer) returns (o: Outcome)
      requires Valid() && state == MapBegin
      modifies this`stack, this`originMessage, buffer
      ensures Did(Step(proto, old(View()), old(buffer.data)), old(View()), old(buffer.data), buffer, o)
    {
      var r := ReadElement(buffer, MapBeginK);
      if r.More? { return WaitForData; }
      if r.Invalid? { return Raise; }
      stack := stack + [Frame(MapEnd, r.tok.keyType, r.tok.valueType, r.tok.size)];
      WriteElement(r.tok);
      return Goto(MapKey);
    }

    method OnMapKey(buffer: Buffer) returns (o: Outcome)
      requires Valid() && state == MapKey
      modifies this`stack, this`originMessage, buffer
      ensures Did(Step(proto, old(View()), old(buffer.data)), old(View()), old(buffer.data), buffer, o)
    {
      assert OnFrame(stack, MapEnd);
      var frame := stack[|stack| - 1];
      if frame.remaining == 0 {
        var s := PopReturnState();
        return Goto(s);
      }
      o := HandleValue(buffer, frame.elemType, MapValue);
    }

    method OnMapValue(buffer: Buffer) returns (o: Outcome)
      requires Valid() && state == MapValue
      modifies this`stack, this`originMessage, buffer
      ensures Did(Step(proto, old(View()), old(buffer.data)), old(View()), old(buffer.data), buffer, o)
    {
      assert OnFrame(stack, MapEnd);
      var index := |stack| - 1;
      o := HandleValue(buffer, stack[index].valueType, MapKey);
      if o.Goto? { DecrementRemaining(index); }
    }

    method OnMapEnd(buffer: Buffer) returns (o: Outcome)
      requires Valid() && state == MapEnd
      modifies this`stack, this`originMessage, buffer
      ensures Did(Step(proto, old(View()), old(buffer.data)), old(View()), old(buffer.data), buffer, o)
    {
      assert InValue(stack);
      var r := ReadElement(buffer, MapEndK);
      if r.More? { return WaitForData; }
      if r.Invalid? { return Raise; }
      EndToken(proto, MapEndK, old(buffer.data));
      WriteElement(MapFooter);
      var s := PopReturnState();
      return Goto(s);
    }

    method OnSetBegin(buffer: Buffer) returns (o: Outcome)
      requires Valid() && state == SetBegin
      modifies this`stack, this`originMessage, buffer
      ensures Did(Step(proto, old(View()), old(buffer.data)), old(View()), old(buffer.data), buffer, o)
    {
      var r := ReadElement(buffer, SetBeginK);
      if r.More? { return WaitForData; }
      if r.Invalid? { return Raise; }
      stack := stack + [Frame(SetEnd, r.tok.elemType, STOP, r.tok.size)];
      WriteElement(r.tok);
      return Goto(SetValue);
    }

    method OnSetValue(buffer: Buffer) returns (o: Outcome)
      requires Valid() && state == SetValue
      modifies this`stack, this`originMessage, buffer
      ensures Did(Step(proto, old(View()), old(buffer.data)), old(View()), old(buffer.data), buffer, o)
    {
      assert OnFrame(stack, SetEnd);
      var index := |stack| - 1;
      if stack[index].remaining == 0 {
        var s := PopReturnState();
        return Goto(s);
      }
      o := HandleValue(buffer, stack[index].elemType, SetValue);
      if o.Goto? { DecrementRemaining(index); }
    }

    method OnSetEnd(buffer: Buffer) returns (o: Outcome)
      requires Valid() && state == SetEnd
      modifies this`stack, this`originMessage, buffer
      ensures Did(Step(proto, old(View()), old(buffer.data)), old(View()), old(buffer.data), buffer, o)
    {
      assert InValue(stack);
      var r := ReadElement(buffer, SetEndK);
      if r.More? { return WaitForData; }
      if r.Invalid? { return Raise; }
      EndToken(proto, SetEndK, old(buffer.data));
      WriteElement(SetFooter);
      var s := PopReturnState();
      return Goto(s);
    }

    method DecrementRemaining(index: nat)
      requires index < |stack| && stack[index].remaining > 0
      modifies this`stack
      ensures stack == old(stack)[index := old(stack)[index].(remaining := old(stack)[index].remaining - 1)]
    {
      var f := stack[index];
      stack := stack[index := f.(remaining := f.remaining - 1)];
    }

    method HandleValue(buffer: Buffer, t: FieldType, returnState: State) returns (o: Outcome)
      requires Lawful(proto)
      modifies this`stack, this`originMessage, buffer
      ensures Did(ThriftMachine.HandleValue(proto, old(View()), old(buffer.data), t, returnState),
                  old(View()), old(buffer.data), buffer, o)
    {
      if IsScalarType(t) {
        var r := ReadElement(buffer, ScalarK(t));
        if r.More? { return WaitForData; }
        if r.Invalid? { return Raise; }
        WriteElement(r.tok);
        return Goto(returnState);
      } else if t == STRUCT {
        stack := stack + [ReturnTo(returnState)];
        return Goto(StructBegin);
      } else if t == MAP {
        stack := stack + [ReturnTo(returnState)];
        return Goto(MapBegin);
      } else if t == LIST {
        stack := stack + [ReturnTo(returnState)];
        return Goto(ListBegin);
      } else if t == SET {
        stack := stack + [ReturnTo(returnState)];
        return Goto(SetBegin);
      } else {
        return Raise;
      }
    }

    method HandleState(buffer: Buffer) returns (o: Outcome)
      requires Valid() && state != Done
      modifies this`stack, this`originMessage, buffer
      ensures Did(Step(proto, old(View()), old(buffer.data)), old(View()), old(buffer.data), buffer, o)
    {
      hide Step, Fits;
      match state
      case MessageBegin => o := OnMessageBegin(buffer);
      case StructBegin => o := OnStructBegin(buffer);
      case StructEnd => o := OnStructEnd(buffer);
      case FieldBegin => o := OnFieldBegin(buffer);
      case FieldValue => o := OnFieldValue(buffer);
      case FieldEnd => o := OnFieldEnd(buffer);
      case ListBegin => o := OnListBegin(buffer);
      case ListValue => o := OnListValue(buffer);
      case ListEnd => o := OnListEnd(buffer);
      case MapBegin => o := OnMapBegin(buffer);
      case MapKey => o := OnMapKey(buffer);
      case MapValue => o := OnMapValue(buffer);
      case MapEnd => o := OnMapEnd(buffer);
      case SetBegin => o := OnSetBegin(buffer);
      case SetValue => o := OnSetValue(buffer);
      case SetEnd => o := OnSetEnd(buffer);
      case MessageEnd => o := OnMessageEnd(buffer);
    }

    /** The decoding loop.  It terminates on every buffer, never fails an assertion, and does
        what the transition function says; on an exception the message is given up. */
    method Run(buffer: Buffer) returns (o: Outcome)
      requires Valid()
      modifies this, buffer
      ensures match ThriftMachine.Run(proto, old(View()), old(buffer.data))
        case Finished(m, rest) => o == Goto(Done) && Valid() && View() == m && buffer.data == rest
        case Waiting(m, rest) => o == WaitForData && Valid() && View() == m && buffer.data == rest
        case Failed => o == Raise
        case Panicked => false
    {
      hide Step, Fits;
      ghost var whole := ThriftMachine.Run(proto, View(), buffer.data);
      while state != Done
        invariant Valid()
        invariant ThriftMachine.Run(proto, View(), buffer.data) == whole
        decreases |buffer.data|, Rank(View())
      {
        ghost var before, input := View(), buffer.data;
        RunNext(proto, before, input);
        StepFits(proto, before, input);
        StepDecreases(proto, before, input);
        var next := HandleState(buffer);
        if next.WaitForData? { return WaitForData; }
        if next.Raise? { return Raise; }
        state := next.s;
        assert View() == Step(proto, before, input).m;
      }
      RunDone(proto, View(), buffer.data);
      return Goto(Done);
    }
  }

  // ----- Local error replies -----

  const INTERNAL_ERROR: i32 := 6

  /** The reply sent when a request fails in the proxy. */
  function ErrorReply(method_: Text, sequenceId: i32, text: Text): (m: Message) {
    Message(method_, Exception, sequenceId,
            Field(1, Scalar(StringValue(text)), Field(2, Scalar(I32Value(INTERNAL_ERROR)), NoFields)))
  }

  /** Writes the reply element by element. */
  method OnError(proto: Protocol, method_: Text, sequenceId: i32, text: Text, buffer: Buffer)
    requires Lawful(proto)
    requires buffer.data == []
    modifies buffer
    ensures WellTypedMessage(ErrorReply(method_, sequenceId, text))
    ensures buffer.data == WriteAll(proto, MessageTokens(ErrorReply(method_, sequenceId, text)))
  {
    buffer.Add(Write(proto, MessageHeader(method_, Exception, sequenceId)));
    buffer.Add(Write(proto, StructHeader));
    buffer.Add(Write(proto, FieldHeader(STRING, 1)));
    buffer.Add(Write(proto, StringValue(text)));
    buffer.Add(Write(proto, FieldFooter));
    buffer.Add(Write(proto, FieldHeader(I32, 2)));
    buffer.Add(Write(proto, I32Value(INTERNAL_ERROR)));
    buffer.Add(Write(proto, FieldFooter));
    buffer.Add(Write(proto, FieldStop));
    buffer.Add(Write(proto, StructFooter));
    buffer.Add(Write(proto, MessageFooter));
    ErrorReplyWritten(proto, method_, sequenceId, text);
  }

  lemma ErrorReplyWritten(p: Protocol, method_: Text, sequenceId: i32, text: Text)
    ensures WellTypedMessage(ErrorReply(method_, sequenceId, text))
    ensures WriteAll(p, MessageTokens(ErrorReply(method_, sequenceId, text)))
      == [] + Write(p, MessageHeader(method_, Exception, sequenceId)) + Write(p, StructHeader)
       + Write(p, FieldHeader(STRING, 1)) + Write(p, StringValue(text)) + Write(p, FieldFooter)
       + Write(p, FieldHeader(I32, 2)) + Write(p, I32Value(INTERNAL_ERROR)) + Write(p, FieldFooter)
       + Write(p, FieldStop) + Write(p, StructFooter) + Write(p, MessageFooter)
  {
    var code, words := Scalar(I32Value(INTERNAL_ERROR)), Scalar(StringValue(text));
    var last := Field(2, code, NoFields);
    var header := MessageHeader(method_, Exception, sequenceId);
    OutMessage(p, header, Field(1, words, last));
    var out := [] + Write(p, header);
    OutStruct(p, out, Field(1, words, last));
    OutField(p, out + Write(p, StructHeader), 1, words, last);
    OutScalar(p, out + Write(p, StructHeader) + Write(p, FieldHeader(STRING, 1)), StringValue(text));
    var out1 := out + Write(p, StructHeader) + Write(p, FieldHeader(STRING, 1)) +
                Encoding(p, words) + Write(p, FieldFooter);
    OutField(p, out1, 2, code, NoFields);
    OutScalar(p, out1 + Write(p, FieldHeader(I32, 2)), I32Value(INTERNAL_ERROR));
    OutEmpty(p, out1 + Write(p, FieldHeader(I32, 2)) + Encoding(p, code) + Write(p, FieldFooter));
  }

  /** A peer running the same decoder accepts the reply and sees the reply that was meant. */
  lemma ErrorReplyIsAccepted(p: Protocol, method_: Text, sequenceId: i32, text: Text, rest: seq<byte>)
    requires Lawful(p)
    ensures var reply := ErrorReply(method_, sequenceId, text);
      && WellTypedMessage(reply)
      && var wire := WriteAll(p, MessageTokens(reply));
         && ParseMessage(p, wire + rest) == Ok(reply, rest)
         && ThriftMachine.Run(p, INITIAL, wire + rest) == Finished(Machine(Done, [], wire), rest)
  {
    ErrorReplyWritten(p, method_, sequenceId, text);
    ParseWritten(p, ErrorReply(method_, sequenceId, text), rest);
    MachineDecodesEveryMessage(p, ErrorReply(method_, sequenceId, text), rest);
  }
}
