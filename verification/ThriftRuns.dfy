/** What holds in every reachable configuration of the decoder, and under every way of
    cutting the octet stream into pieces. */
module ThriftRuns {
  import opened Bytes
  import opened ThriftProtocol
  import opened ThriftMachine

  // ----- Stack discipline -----

  /** The stack is one on which state `s` can be executed. */
  predicate Fits(s: State, stack: seq<Frame>)
    decreases |stack|, 1
  {
    match s
    case MessageBegin => stack == []
    case MessageEnd => stack == []
    case Done => stack == []
    case FieldValue => OnFrame(stack, FieldEnd)
    case FieldEnd => OnFrame(stack, FieldEnd)
    case ListValue => OnFrame(stack, ListEnd)
    case SetValue => OnFrame(stack, SetEnd)
    case MapKey => OnFrame(stack, MapEnd)
    case MapValue => OnFrame(stack, MapEnd) && Top(stack).remaining > 0
    case _ => InValue(stack)
  }

  /** The top frame belongs to the field or container that ends in state `end`. */
  predicate OnFrame(stack: seq<Frame>, end: State)
    decreases |stack|, 0
  {
    stack != [] && Top(stack).returnState == end && InValue(Pop(stack))
  }

  /** A struct or container is being read; the top frame says where its value is wanted. */
  predicate InValue(stack: seq<Frame>)
    decreases |stack|, 0
  {
    && stack != []
    && Top(stack).returnState in {MessageEnd, FieldEnd, ListValue, SetValue, MapKey, MapValue}
    && Fits(Top(stack).returnState, Pop(stack))
  }

  lemma PushFits(s: State, stack: seq<Frame>)
    requires s in {MessageEnd, FieldEnd, ListValue, SetValue, MapKey, MapValue}
    requires Fits(s, stack)
    ensures InValue(stack + [ReturnTo(s)])
  {
    assert Pop(stack + [ReturnTo(s)]) == stack;
  }

  lemma FrameFits(stack: seq<Frame>, f: Frame)
    requires InValue(stack)
    ensures OnFrame(stack + [f], f.returnState)
  {
    assert Pop(stack + [f]) == stack;
  }

  /** Handing a value over keeps the discipline when `ret` can be executed afterwards. */
  lemma ValueFits(p: Protocol, m: Machine, b: seq<byte>, t: FieldType, ret: State)
    requires Lawful(p)
    requires ret in {FieldEnd, ListValue, SetValue, MapKey, MapValue}
    requires Fits(ret, m.stack)
    ensures var r := HandleValue(p, m, b, t, ret);
      !r.Panic? && (r.Next? ==> Fits(r.m.state, r.m.stack) && r.m.state != StructEnd)
  {
    PushFits(ret, m.stack);
  }

  /** The same after counting down the frame the value belongs to. */
  lemma CountedFits(p: Protocol, m: Machine, b: seq<byte>, t: FieldType, ret: State, end: State)
    requires Lawful(p)
    requires (ret, end) in {(ListValue, ListEnd), (SetValue, SetEnd), (MapKey, MapEnd)}
    requires OnFrame(m.stack, end) && Top(m.stack).remaining > 0
    ensures var r := CountDown(HandleValue(p, m, b, t, ret), |m.stack| - 1);
      !r.Panic? && (r.Next? ==> Fits(r.m.state, r.m.stack) && r.m.state != StructEnd)
  {
    var below, f := Pop(m.stack), Top(m.stack);
    var less := below + [f.(remaining := f.remaining - 1)];
    assert m.stack == below + [f];
    CountedDown(p, m, b, t, ret, below, m.stack, less);
    FrameFits(below, f.(remaining := f.remaining - 1));
    ValueFits(p, m.(stack := less), b, t, ret);
  }

  /** No handler meets a stack it cannot work on, and each leaves a stack the next state can
      work on: no pop or look at an empty stack, no element counted below zero, no state
      without a handler. */
  lemma StepFits(p: Protocol, m: Machine, b: seq<byte>)
    requires Lawful(p)
    requires m.state != Done
    requires Fits(m.state, m.stack)
    ensures var r := Step(p, m, b);
      && !r.Panic?
      && (r.Next? ==> Fits(r.m.state, r.m.stack))
      && (r.Next? && r.m.state == StructEnd ==> m.state == FieldBegin && r.read == [FieldStop])
  {
    match m.state
    case MessageBegin => PushFits(MessageEnd, []); assert [] + [ReturnTo(MessageEnd)] == [ReturnTo(MessageEnd)];
    case MessageEnd =>
    case StructBegin =>
    case StructEnd =>
    case FieldBegin => FieldBeginFits(p, m, b);
    case FieldValue => ValueFits(p, m, b, Top(m.stack).elemType, FieldEnd);
    case FieldEnd =>
    case ListBegin => BeginFits(p, m, b);
    case ListValue => if Top(m.stack).remaining > 0 { CountedFits(p, m, b, Top(m.stack).elemType, ListValue, ListEnd); }
    case ListEnd =>
    case SetBegin => BeginFits(p, m, b);
    case SetValue => if Top(m.stack).remaining > 0 { CountedFits(p, m, b, Top(m.stack).elemType, SetValue, SetEnd); }
    case SetEnd =>
    case MapBegin => BeginFits(p, m, b);
    case MapKey => if Top(m.stack).remaining > 0 { ValueFits(p, m, b, Top(m.stack).elemType, MapValue); }
    case MapValue => CountedFits(p, m, b, Top(m.stack).valueType, MapKey, MapEnd);
    case MapEnd =>
  }

  lemma FieldBeginFits(p: Protocol, m: Machine, b: seq<byte>)
    requires Lawful(p)
    requires m.state == FieldBegin && InValue(m.stack)
    ensures var r := Step(p, m, b); !r.Panic? && (r.Next? ==> Fits(r.m.state, r.m.stack))
    ensures Step(p, m, b).Next? && Step(p, m, b).m.state == StructEnd ==> Step(p, m, b).read == [FieldStop]
  {
    var r := Read(p, FieldBeginK, b);
    if r.Got? && !r.tok.FieldStop? { FrameFits(m.stack, Frame(FieldEnd, r.tok.fieldType, STOP, 0)); }
  }

  lemma {:induction false} BeginFits(p: Protocol, m: Machine, b: seq<byte>)
    requires Lawful(p)
    requires m.state in {ListBegin, SetBegin, MapBegin} && InValue(m.stack)
    ensures var r := Step(p, m, b);
      !r.Panic? && (r.Next? ==> Fits(r.m.state, r.m.stack) && r.m.state != StructEnd)
  {
    hide InValue;
    if m.state == ListBegin {
      var r := Read(p, ListBeginK, b);
      if r.Got? { FrameFits(m.stack, Frame(ListEnd, r.tok.elemType, STOP, r.tok.size)); }
    } else if m.state == SetBegin {
      var r := Read(p, SetBeginK, b);
      if r.Got? { FrameFits(m.stack, Frame(SetEnd, r.tok.elemType, STOP, r.tok.size)); }
    } else {
      var r := Read(p, MapBeginK, b);
      if r.Got? { FrameFits(m.stack, Frame(MapEnd, r.tok.keyType, r.tok.valueType, r.tok.size)); }
    }
  }

  // ----- Transcription in every reachable configuration -----

  /** A decoder with its input buffer; `fed` and `read` record the octets that have arrived
      and the elements that have been read out of them. */
  datatype Config = Config(m: Machine, buffer: seq<byte>, fed: seq<byte>, read: seq<Token>)

  const START: Config := Config(INITIAL, [], [], [])

  datatype Action = Arrive(octets: seq<byte>) | Handle

  function Act(p: Protocol, c: Config, a: Action): (c': Config)
    requires Lawful(p)
  {
    match a
    case Arrive(x) => c.(buffer := c.buffer + x, fed := c.fed + x)
    case Handle =>
      if c.m.state == Done then c
      else
        var r := Step(p, c.m, c.buffer);
        if r.Next? then Config(r.m, r.rest, c.fed, c.read + r.read) else c
  }

  function Exec(p: Protocol, c: Config, acts: seq<Action>): (c': Config)
    requires Lawful(p)
    decreases |acts|
  {
    if acts == [] then c else Exec(p, Act(p, c, acts[0]), acts[1..])
  }

  function AllButLast(ts: seq<Token>): (r: seq<Token>) { if ts == [] then [] else ts[..|ts| - 1] }

  /** What has been written back is what has been read, except for the stop mark that is
      still owed at the end of a struct. */
  ghost predicate Transcribed(p: Protocol, m: Machine, read: seq<Token>) {
    if m.state == StructEnd then
      read != [] && read[|read| - 1] == FieldStop && m.out == WriteAll(p, AllButLast(read))
    else m.out == WriteAll(p, read)
  }

  ghost predicate Good(p: Protocol, c: Config) {
    && Fits(c.m.state, c.m.stack)
    && Transcribed(p, c.m, c.read)
    && Lex(p, c.fed, c.read) == Left(c.buffer)
  }

  lemma {:induction false} LexExtends(p: Protocol, b: seq<byte>, ts: seq<Token>, x: seq<byte>)
    requires Lawful(p)
    requires Lex(p, b, ts).Left?
    ensures Lex(p, b + x, ts) == Left(Lex(p, b, ts).rest + x)
    decreases |ts|
  {
    if ts != [] {
      var r := Read(p, KindOf(ts[0]), b);
      assert Read(p, KindOf(ts[0]), b + x) == r;
      assert (b + x)[r.len..] == b[r.len..] + x;
      LexExtends(p, b[r.len..], ts[1..], x);
    }
  }

  /** What one handler reads and writes. */
  ghost predicate Copies(p: Protocol, m: Machine, b: seq<byte>, r: StepResult) {
    r.Next? ==>
      && |r.read| <= 1
      && Lex(p, b, r.read) == Left(r.rest)
      && (m.state == StructEnd ==> r.m.out == m.out + Write(p, FieldStop) + WriteAll(p, r.read))
      && (m.state != StructEnd && r.read != [FieldStop] ==> r.m.out == m.out + WriteAll(p, r.read))
      && (r.read == [FieldStop] ==> m.state == FieldBegin && r.m.state == StructEnd && r.m.out == m.out)
  }

  lemma CopyCopies(p: Protocol, m: Machine, b: seq<byte>, k: Kind, s: State, stack: seq<Frame>)
    requires Lawful(p)
    ensures var r := Copy(p, m, b, Read(p, k, b), s, stack);
      r.Next? ==>
        && |r.read| == 1
        && KindOf(r.read[0]) == k
        && Lex(p, b, r.read) == Left(r.rest)
        && r.m.out == m.out + WriteAll(p, r.read)
  {
    var r := Read(p, k, b);
    if r.Got? {
      assert [r.tok][1..] == [];
      WriteOne(p, r.tok);
    }
  }

  lemma ValueCopies(p: Protocol, m: Machine, b: seq<byte>, t: FieldType, ret: State)
    requires Lawful(p)
    ensures var r := HandleValue(p, m, b, t, ret);
      r.Next? ==>
        && |r.read| <= 1
        && FieldStop !in r.read
        && Lex(p, b, r.read) == Left(r.rest)
        && r.m.out == m.out + WriteAll(p, r.read)
  {
    if IsScalarType(t) {
      CopyCopies(p, m, b, ScalarK(t), ret, m.stack);
    } else {
      assert m.out + [] == m.out;
    }
  }

  lemma {:induction false} StepCopies(p: Protocol, m: Machine, b: seq<byte>)
    requires Lawful(p)
    requires m.state != Done && Fits(m.state, m.stack)
    ensures Copies(p, m, b, Step(p, m, b))
  {
    hide Fits, WriteAll, Lex;
    assert m.out + WriteAll(p, []) == m.out && Lex(p, b, []) == Left(b) by { EmptyCopies(p, m, b); }
    match m.state
    case MessageBegin => CopyCopies(p, m, b, MessageBeginK, StructBegin, [ReturnTo(MessageEnd)]);
    case MessageEnd => CopyCopies(p, m, b, MessageEndK, Done, m.stack);
    case StructBegin => CopyCopies(p, m, b, StructBeginK, FieldBegin, m.stack);
    case StructEnd => CloseCopies(p, m.(out := m.out + Write(p, FieldStop)), b, StructEndK);
    case FieldBegin => FieldBeginCopies(p, m, b);
    case FieldValue => if m.stack != [] { ValueCopies(p, m, b, Top(m.stack).elemType, Top(m.stack).returnState); }
    case FieldEnd => if m.stack != [] { CopyCopies(p, m, b, FieldEndK, FieldBegin, Pop(m.stack)); }
    case ListBegin => BeginCopies(p, m, b, ListBeginK);
    case ListValue => if m.stack != [] { ValueCopies(p, m, b, Top(m.stack).elemType, ListValue); }
    case ListEnd => CloseCopies(p, m, b, ListEndK);
    case SetBegin => BeginCopies(p, m, b, SetBeginK);
    case SetValue => if m.stack != [] { ValueCopies(p, m, b, Top(m.stack).elemType, SetValue); }
    case SetEnd => CloseCopies(p, m, b, SetEndK);
    case MapBegin => BeginCopies(p, m, b, MapBeginK);
    case MapKey => if m.stack != [] { ValueCopies(p, m, b, Top(m.stack).elemType, MapValue); }
    case MapValue => if m.stack != [] { ValueCopies(p, m, b, Top(m.stack).valueType, MapKey); }
    case MapEnd => CloseCopies(p, m, b, MapEndK);
  }

  lemma EmptyCopies(p: Protocol, m: Machine, b: seq<byte>)
    ensures m.out + WriteAll(p, []) == m.out && Lex(p, b, []) == Left(b)
  {
  }

  lemma CloseCopies(p: Protocol, m: Machine, b: seq<byte>, k: Kind)
    requires Lawful(p)
    ensures var r := Close(p, m, b, k);
      r.Next? ==>
        && |r.read| == 1
        && KindOf(r.read[0]) == k
        && Lex(p, b, r.read) == Left(r.rest)
        && r.m.out == m.out + WriteAll(p, r.read)
  {
    if m.stack != [] { CopyCopies(p, m, b, k, Top(m.stack).returnState, Pop(m.stack)); }
  }

  lemma FieldBeginCopies(p: Protocol, m: Machine, b: seq<byte>)
    requires Lawful(p)
    requires m.state == FieldBegin
    ensures Copies(p, m, b, Step(p, m, b))
  {
    var r := Read(p, FieldBeginK, b);
    if r.Got? {
      assert [r.tok][1..] == [];
      WriteOne(p, r.tok);
    }
  }

  lemma BeginCopies(p: Protocol, m: Machine, b: seq<byte>, k: Kind)
    requires Lawful(p)
    requires (m.state, k) in {(ListBegin, ListBeginK), (SetBegin, SetBeginK), (MapBegin, MapBeginK)}
    ensures Copies(p, m, b, Step(p, m, b))
  {
    var r := Read(p, k, b);
    if r.Got? {
      assert [r.tok][1..] == [];
      WriteOne(p, r.tok);
    }
  }

  lemma ActGood(p: Protocol, c: Config, a: Action)
    requires Lawful(p) && Good(p, c)
    ensures Good(p, Act(p, c, a))
  {
    match a
    case Arrive(x) => LexExtends(p, c.fed, c.read, x);
    case Handle =>
      if c.m.state != Done {
        var r := Step(p, c.m, c.buffer);
        StepFits(p, c.m, c.buffer);
        StepCopies(p, c.m, c.buffer);
        if r.Next? {
          HandleGood(p, c, r);
        }
      }
  }

  lemma {:induction false} HandleGood(p: Protocol, c: Config, r: StepResult)
    requires Lawful(p) && Good(p, c)
    requires r.Next? && Copies(p, c.m, c.buffer, r)
    requires Fits(r.m.state, r.m.stack)
    requires r.m.state == StructEnd ==> r.read == [FieldStop]
    ensures Good(p, Config(r.m, r.rest, c.fed, c.read + r.read))
  {
    hide Fits, Step, Lawful;
    LexConcat(p, c.fed, c.read, r.read);
    WriteAllConcat(p, c.read, r.read);
    if c.m.state == StructEnd {
      assert c.read == AllButLast(c.read) + [FieldStop];
      WriteAllConcat(p, AllButLast(c.read), [FieldStop]);
      WriteOne(p, FieldStop);
    }
    if r.read == [FieldStop] {
      assert AllButLast(c.read + r.read) == c.read;
    }
  }

  /** Invariant of every run, however arrivals and handler calls are interleaved: the stack
      discipline holds, the elements read account for every octet that has left the buffer,
      and what was written back is what was read. */
  lemma {:induction false} ReachableIsGood(p: Protocol, c: Config, acts: seq<Action>)
    requires Lawful(p) && Good(p, c)
    ensures Good(p, Exec(p, c, acts))
    decreases |acts|
  {
    if acts != [] {
      ActGood(p, c, acts[0]);
      ReachableIsGood(p, Act(p, c, acts[0]), acts[1..]);
    }
  }

  lemma StartIsGood(p: Protocol)
    ensures Good(p, START)
  {
  }

  // ----- Independence of how the stream is cut -----

  lemma CopyStable(p: Protocol, m: Machine, b: seq<byte>, k: Kind, s: State, stack: seq<Frame>, x: seq<byte>)
    requires Lawful(p)
    requires !Read(p, k, b).More?
    ensures Read(p, k, b + x) == Read(p, k, b)
    ensures Copy(p, m, b + x, Read(p, k, b), s, stack) == WithMore(Copy(p, m, b, Read(p, k, b), s, stack), x)
  {
    var r := Read(p, k, b);
    assert Read(p, k, b + x) == r;
    if r.Got? { assert (b + x)[r.len..] == b[r.len..] + x; }
  }

  function WithMore(r: StepResult, x: seq<byte>): (r': StepResult) {
    if r.Next? then r.(rest := r.rest + x) else r
  }

  lemma ValueStable(p: Protocol, m: Machine, b: seq<byte>, t: FieldType, ret: State, x: seq<byte>)
    requires Lawful(p)
    requires !HandleValue(p, m, b, t, ret).Wait?
    ensures HandleValue(p, m, b + x, t, ret) == WithMore(HandleValue(p, m, b, t, ret), x)
  {
    if IsScalarType(t) { CopyStable(p, m, b, ScalarK(t), ret, m.stack, x); }
  }

  lemma CloseStable(p: Protocol, m: Machine, b: seq<byte>, k: Kind, x: seq<byte>)
    requires Lawful(p)
    requires !Close(p, m, b, k).Wait?
    ensures Close(p, m, b + x, k) == WithMore(Close(p, m, b, k), x)
  {
    if m.stack != [] { CopyStable(p, m, b, k, Top(m.stack).returnState, Pop(m.stack), x); }
  }

  /** A handler that has decided decides the same when more octets follow. */
  lemma StepStable(p: Protocol, m: Machine, b: seq<byte>, x: seq<byte>)
    requires Lawful(p)
    requires !Step(p, m, b).Wait?
    ensures Step(p, m, b + x) == WithMore(Step(p, m, b), x)
  {
    match m.state
    case MessageBegin => CopyStable(p, m, b, MessageBeginK, StructBegin, [ReturnTo(MessageEnd)], x);
    case MessageEnd => CopyStable(p, m, b, MessageEndK, Done, m.stack, x);
    case StructBegin => CopyStable(p, m, b, StructBeginK, FieldBegin, m.stack, x);
    case StructEnd => CloseStable(p, m.(out := m.out + Write(p, FieldStop)), b, StructEndK, x);
    case FieldBegin => CopyStable(p, m, b, FieldBeginK, FieldValue, [], x); HeaderStable(p, m, b, x);
    case FieldValue => if m.stack != [] { ValueStable(p, m, b, Top(m.stack).elemType, Top(m.stack).returnState, x); }
    case FieldEnd => if m.stack != [] { CopyStable(p, m, b, FieldEndK, FieldBegin, Pop(m.stack), x); }
    case ListBegin => HeaderStable(p, m, b, x);
    case ListValue => if m.stack != [] { ElementStable(p, m, b, x); }
    case ListEnd => CloseStable(p, m, b, ListEndK, x);
    case SetBegin => HeaderStable(p, m, b, x);
    case SetValue => if m.stack != [] { ElementStable(p, m, b, x); }
    case SetEnd => CloseStable(p, m, b, SetEndK, x);
    case MapBegin => HeaderStable(p, m, b, x);
    case MapKey => if m.stack != [] { ElementStable(p, m, b, x); }
    case MapValue => if m.stack != [] { ElementStable(p, m, b, x); }
    case MapEnd => CloseStable(p, m, b, MapEndK, x);
    case Done =>
  }

  lemma HeaderStable(p: Protocol, m: Machine, b: seq<byte>, x: seq<byte>)
    requires Lawful(p)
    requires m.state in {FieldBegin, ListBegin, SetBegin, MapBegin}
    requires !Step(p, m, b).Wait?
    ensures Step(p, m, b + x) == WithMore(Step(p, m, b), x)
  {
    var k := if m.state == FieldBegin then FieldBeginK else if m.state == ListBegin then ListBeginK
             else if m.state == SetBegin then SetBeginK else MapBeginK;
    var r := Read(p, k, b);
    assert Read(p, k, b + x) == r;
    if r.Got? { assert (b + x)[r.len..] == b[r.len..] + x; }
  }

  lemma ElementStable(p: Protocol, m: Machine, b: seq<byte>, x: seq<byte>)
    requires Lawful(p)
    requires m.state in {ListValue, SetValue, MapKey, MapValue}
    requires m.stack != []
    requires !Step(p, m, b).Wait?
    ensures Step(p, m, b + x) == WithMore(Step(p, m, b), x)
  {
    if Top(m.stack).remaining > 0 {
      var t := if m.state == MapValue then Top(m.stack).valueType else Top(m.stack).elemType;
      var ret := if m.state == MapKey then MapValue else if m.state == MapValue then MapKey else m.state;
      ValueStable(p, m, b, t, ret, x);
    }
  }

  /** Another run of the loop after more octets have arrived. */
  function Resume(p: Protocol, r: RunResult, x: seq<byte>): (r': RunResult)
    requires Lawful(p)
  {
    match r
    case Waiting(m, b) => Run(p, m, b + x)
    case Finished(m, b) => Finished(m, b + x)
    case Failed => Failed
    case Panicked => Panicked
  }

  lemma {:induction false} RunThenResume(p: Protocol, m: Machine, b: seq<byte>, x: seq<byte>)
    requires Lawful(p)
    ensures Resume(p, Run(p, m, b), x) == Run(p, m, b + x)
    decreases |b|, Rank(m)
  {
    if m.state != Done {
      RunNext(p, m, b);
      RunNext(p, m, b + x);
      var r := Step(p, m, b);
      if !r.Wait? {
        StepStable(p, m, b, x);
        if r.Next? {
          StepDecreases(p, m, b);
          RunThenResume(p, r.m, r.rest, x);
        }
      }
    }
  }

  function RunChunks(p: Protocol, r: RunResult, chunks: seq<seq<byte>>): (r': RunResult)
    requires Lawful(p)
    decreases |chunks|
  {
    if chunks == [] then r else RunChunks(p, Resume(p, r, chunks[0]), chunks[1..])
  }

  /** However the octets are cut, resuming piece by piece ends where one run over the whole
      ends: same state, same stack and counters, same output, same octets left. */
  lemma {:induction false} ChunkingIsIrrelevant(p: Protocol, m: Machine, b: seq<byte>, chunks: seq<seq<byte>>)
    requires Lawful(p)
    ensures RunChunks(p, Run(p, m, b), chunks) == Run(p, m, b + Flat(chunks))
    decreases |chunks|
  {
    if chunks == [] {
      assert b + [] == b;
    } else {
      RunThenResume(p, m, b, chunks[0]);
      ChunkingIsIrrelevant(p, m, b + chunks[0], chunks[1..]);
      assert b + chunks[0] + Flat(chunks[1..]) == b + Flat(chunks);
    }
  }
}
