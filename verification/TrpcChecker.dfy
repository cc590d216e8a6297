/** The resumable tRPC decoder. It only looks at the buffer until a whole frame is there, calls
    back at every stage, and then takes the frame out in one piece. */
module TrpcChecker {
  import opened Bytes
  import opened Framing
  import opened TrpcProtocol

  datatype Stage = FixedHeaderStage | UnaryHeaderStage | StreamFrameStage | PayloadStage | DoneStage | WaitForDataStage

  datatype Next = Next(stage: Stage) | Throw

  datatype Callback =
    | OnFixedHeaderDecoded(header: FixedHeader)
    | OnUnaryHeader(raw: seq<byte>)
    | OnStreamFrame(raw: seq<byte>)
    | OnCompleted(message: seq<byte>)

  /** The callback with the part of the frame that is parsed. */
  function HeaderCallback(b: seq<byte>): (c: Callback)
    requires |b| >= PREFIX_SPACE && WellFormed(HeaderAt(b)) && RawEnd(HeaderAt(b)) <= |b|
  {
    var h := HeaderAt(b);
    var raw := b[PREFIX_SPACE..RawEnd(h)];
    if h.streamFrameType == UNARY then OnUnaryHeader(raw) else OnStreamFrame(raw)
  }

  predicate IsFrame(f: seq<byte>) {
    |f| >= PREFIX_SPACE && WellFormed(HeaderAt(f)) && HeaderAt(f).dataFrameSize == |f|
  }

  /** The callbacks one whole frame causes. */
  function FrameCallbacks(f: seq<byte>): (cs: seq<Callback>)
    requires IsFrame(f)
  {
    [OnFixedHeaderDecoded(HeaderAt(f)), HeaderCallback(f), OnCompleted(f)]
  }

  function AllCallbacks(fs: seq<seq<byte>>): (cs: seq<Callback>)
    requires forall f | f in fs :: IsFrame(f)
  {
    if fs == [] then [] else AllCallbacks(fs[..|fs| - 1]) + FrameCallbacks(fs[|fs| - 1])
  }

  /** Three callbacks for each frame, frame by frame: its fixed header, then the protobuf header of a
      unary frame or all that follows the fixed header of a stream frame, then the whole. */
  lemma {:induction false} CallbacksInOrder(fs: seq<seq<byte>>, i: nat)
    requires i < |fs| && forall f | f in fs :: IsFrame(f)
    ensures |AllCallbacks(fs)| == 3 * |fs| && |fs[i]| >= 16
    ensures AllCallbacks(fs)[3 * i]
         == OnFixedHeaderDecoded(FixedHeader(fs[i][2], fs[i][3], U32At(fs[i], 4), U16At(fs[i], 8), U32At(fs[i], 10),
                                             U16At(fs[i], 14)))
    ensures 16 + U16At(fs[i], 8) <= |fs[i]|
    ensures AllCallbacks(fs)[3 * i + 1]
         == if fs[i][3] == 0 then OnUnaryHeader(fs[i][16..16 + U16At(fs[i], 8)]) else OnStreamFrame(fs[i][16..])
    ensures AllCallbacks(fs)[3 * i + 2] == OnCompleted(fs[i])
  {
    hide U16At, U32At;
    var n := |fs| - 1;
    assert fs[i] in fs && fs[n] in fs;
    assert fs[n][16..|fs[n]|] == fs[n][16..];
    if n > 0 {
      assert forall f | f in fs[..n] :: f in fs;
      CallbacksInOrder(fs[..n], if i < n then i else 0);
    }
  }

  /** What a stage has found out about the buffer. */
  ghost predicate Knows(parses: Parser, stage: Stage, b: seq<byte>) {
    || stage == FixedHeaderStage
    || (&& |b| >= PREFIX_SPACE
        && HasMagic(b)
        && WellFormed(HeaderAt(b))
        && var h := HeaderAt(b);
        match stage
        case UnaryHeaderStage => h.streamFrameType == UNARY
        case StreamFrameStage => h.streamFrameType != UNARY
        case PayloadStage =>
          && |b| >= RawEnd(h)
          && AcceptsHeader(parses, h.streamFrameType, b[PREFIX_SPACE..RawEnd(h)])
        case _ => false)
  }

  /** The callbacks already made for the frame in progress. */
  ghost function Made(parses: Parser, stage: Stage, b: seq<byte>): (cs: seq<Callback>)
    requires Knows(parses, stage, b)
  {
    match stage
    case FixedHeaderStage => []
    case PayloadStage => [OnFixedHeaderDecoded(HeaderAt(b)), HeaderCallback(b)]
    case _ => [OnFixedHeaderDecoded(HeaderAt(b))]
  }

  /** More octets at the end change nothing of what is known or was called. */
  lemma {:induction false} KnowsMore(parses: Parser, stage: Stage, b: seq<byte>, c: seq<byte>)
    requires Knows(parses, stage, b)
    ensures Knows(parses, stage, b + c) && Made(parses, stage, b + c) == Made(parses, stage, b)
  {
    hide HeaderAt, HasMagic, AcceptsHeader;
    if stage != FixedHeaderStage {
      HeaderStable(b, c);
      if stage == PayloadStage {
        SliceOfFront(b, c, PREFIX_SPACE, RawEnd(HeaderAt(b)));
      }
    }
  }

  class CodecChecker {
    const parses: Parser
    var stage: Stage
    var totalSize: u32
    var protocolHeaderSize: u16
    var fixedHeader: FixedHeader      // what the first callback stored
    var calls: seq<Callback>          // the callbacks made, in order
    ghost var frames: seq<seq<byte>>  // the frames completed, in order

    constructor (parses: Parser)
      ensures this.parses == parses && stage == FixedHeaderStage && frames == [] && calls == []
      ensures Watching([])
    {
      this.parses := parses;
      stage := FixedHeaderStage;
      totalSize := 0;
      protocolHeaderSize := 0;
      fixedHeader := FixedHeader(0, 0, 0, 0, 0, 0);
      calls := [];
      frames := [];
    }

    /** Every completed frame has had its three callbacks, once each and in order; the frame at
        the front of the buffer has had those of the stages passed. */
    ghost predicate Watching(b: seq<byte>)
      reads this
    {
      WatchingAs(stage, b)
    }

    ghost predicate WatchingAs(stage: Stage, b: seq<byte>)
      reads this
    {
      && (forall f | f in frames :: IsFrame(f))
      && Knows(parses, stage, b)
      && calls == AllCallbacks(frames) + Made(parses, stage, b)
      && (stage != FixedHeaderStage ==>
            && fixedHeader == HeaderAt(b)
            && totalSize == fixedHeader.dataFrameSize
            && protocolHeaderSize == fixedHeader.pbHeaderSize)
    }

    method DecodeFixedHeader(buffer: Buffer) returns (next: Next)
      requires stage == FixedHeaderStage && Watching(buffer.data)
      requires CutFrame(parses, buffer.data) != Stray
      modifies this`totalSize, this`protocolHeaderSize, this`fixedHeader, this`calls, buffer
      ensures buffer.data == old(buffer.data)
      ensures next == Throw ==> CutFrame(parses, buffer.data) == Reject
      ensures next == Next(WaitForDataStage) ==> Watching(buffer.data) && CutFrame(parses, buffer.data) == More
      ensures next.Next? ==> next.stage in {WaitForDataStage, UnaryHeaderStage, StreamFrameStage}
      ensures next == Next(UnaryHeaderStage) || next == Next(StreamFrameStage) ==> WatchingAs(next.stage, buffer.data)
    {
      hide HeaderAt, HasMagic, AcceptsHeader;
      if |buffer.data| < PREFIX_SPACE {
        return Next(WaitForDataStage);
      }
      var ok, h := TrpcProtocol.DecodeFixedHeader(buffer, false);
      if !ok {
        return Throw;
      }
      totalSize := h.dataFrameSize;
      protocolHeaderSize := h.pbHeaderSize;
      fixedHeader := h;
      calls := calls + [OnFixedHeaderDecoded(h)];
      if h.streamFrameType == UNARY {
        return Next(UnaryHeaderStage);
      }
      return Next(StreamFrameStage);
    }

    method DecodeUnaryProtocolHeader(buffer: Buffer) returns (next: Next)
      requires stage == UnaryHeaderStage && Watching(buffer.data)
      modifies this`calls
      ensures next == Throw ==> CutFrame(parses, buffer.data) == Reject
      ensures next == Next(WaitForDataStage) ==> Watching(buffer.data) && CutFrame(parses, buffer.data) == More
      ensures next.Next? ==> next.stage in {WaitForDataStage, PayloadStage}
      ensures next == Next(PayloadStage) ==> WatchingAs(PayloadStage, buffer.data)
    {
      hide HeaderAt, HasMagic, AcceptsHeader;
      if |buffer.data| < PREFIX_SPACE + protocolHeaderSize {
        return Next(WaitForDataStage);
      }
      var raw := buffer.data[PREFIX_SPACE..PREFIX_SPACE + protocolHeaderSize];
      calls := calls + [OnUnaryHeader(raw)];
      if !AcceptsHeader(parses, UNARY, raw) {
        return Throw;
      }
      return Next(PayloadStage);
    }

    method DecodeStreamFrame(buffer: Buffer) returns (next: Next)
      requires stage == StreamFrameStage && Watching(buffer.data)
      modifies this`calls
      ensures next == Throw ==> CutFrame(parses, buffer.data) == Reject
      ensures next == Next(WaitForDataStage) ==> Watching(buffer.data) && CutFrame(parses, buffer.data) == More
      ensures next.Next? ==> next.stage in {WaitForDataStage, PayloadStage}
      ensures next == Next(PayloadStage) ==> WatchingAs(PayloadStage, buffer.data)
    {
      hide HeaderAt, HasMagic, AcceptsHeader;
      if |buffer.data| < totalSize {
        return Next(WaitForDataStage);
      }
      var frameSize := totalSize - PREFIX_SPACE;
      var raw := buffer.data[PREFIX_SPACE..PREFIX_SPACE + frameSize];
      calls := calls + [OnStreamFrame(raw)];
      if !AcceptsHeader(parses, fixedHeader.streamFrameType, raw) {
        return Throw;
      }
      return Next(PayloadStage);
    }

    method DecodePayload(buffer: Buffer) returns (next: Next, message: seq<byte>)
      requires stage == PayloadStage && Watching(buffer.data)
      modifies this`calls, this`frames, buffer
      ensures next in {Next(WaitForDataStage), Next(DoneStage)}
      ensures next == Next(WaitForDataStage) ==>
                && buffer.data == old(buffer.data)
                && Watching(buffer.data)
                && frames == old(frames)
                && CutFrame(parses, buffer.data) == More
      ensures next == Next(DoneStage) ==>
                && CutFrame(parses, old(buffer.data)) == Whole(|message|, false)
                && message + buffer.data == old(buffer.data)
                && IsFrame(message)
                && frames == old(frames) + [message]
                && calls == old(AllCallbacks(frames)) + FrameCallbacks(message)
    {
      hide HeaderAt, HasMagic, AcceptsHeader;
      message := [];
      if |buffer.data| < totalSize {
        return Next(WaitForDataStage), message;
      }
      ghost var b := buffer.data;
      message := buffer.data[..totalSize];
      buffer.Drain(totalSize);
      calls := calls + [OnCompleted(message)];
      frames := frames + [message];
      assert message + buffer.data == b;
      HeaderStable(message, buffer.data);
      SliceOfFront(message, buffer.data, PREFIX_SPACE, RawEnd(HeaderAt(b)));
      assert Made(parses, stage, b) + [OnCompleted(message)] == FrameCallbacks(message);
      next := Next(DoneStage);
    }

    static function Rank(stage: Stage): (n: nat) {
      match stage
      case FixedHeaderStage => 3
      case UnaryHeaderStage => 2
      case StreamFrameStage => 2
      case PayloadStage => 1
      case _ => 0
    }

    method HandleState(buffer: Buffer) returns (next: Next, message: seq<byte>)
      requires stage != DoneStage && Watching(buffer.data)
      requires CutFrame(parses, buffer.data) != Stray
      modifies this, buffer
      ensures stage == old(stage)
      ensures next == Throw ==> CutFrame(parses, old(buffer.data)) == Reject
      ensures next == Next(WaitForDataStage) ==>
                && CutFrame(parses, old(buffer.data)) == More
                && buffer.data == old(buffer.data)
                && frames == old(frames)
                && Watching(buffer.data)
      ensures next == Next(DoneStage) ==>
                && CutFrame(parses, old(buffer.data)) == Whole(|message|, false)
                && message + buffer.data == old(buffer.data)
                && IsFrame(message)
                && frames == old(frames) + [message]
                && calls == old(AllCallbacks(frames)) + FrameCallbacks(message)
      ensures next.Next? && next.stage != WaitForDataStage && next.stage != DoneStage ==>
                && buffer.data == old(buffer.data)
                && frames == old(frames)
                && WatchingAs(next.stage, buffer.data)
                && Rank(next.stage) < Rank(stage)
    {
      hide HeaderAt, HasMagic, AcceptsHeader, CutFrame, RawEnd, Knows, Made, AllCallbacks, FrameCallbacks;
      message := [];
      KnownStages(stage, buffer.data);
      match stage {
        case FixedHeaderStage => next := DecodeFixedHeader(buffer);
        case UnaryHeaderStage => next := DecodeUnaryProtocolHeader(buffer);
        case StreamFrameStage => next := DecodeStreamFrame(buffer);
        case PayloadStage => next, message := DecodePayload(buffer);
      }
    }

    lemma {:induction false} KnownStages(stage: Stage, b: seq<byte>)
      requires Knows(parses, stage, b)
      ensures stage != DoneStage && stage != WaitForDataStage
    {
    }

    /** Running on any buffer gives what the cut of the buffer says. A wait leaves the buffer
        alone; completing a frame takes out that frame and nothing more. */
    method OnData(buffer: Buffer) returns (status: DecodeStatus, message: seq<byte>)
      requires Watching(buffer.data)
      requires CutFrame(parses, buffer.data) != Stray
      modifies this, buffer
      ensures Agrees(status, CutFrame(parses, old(buffer.data)))
      ensures status == NeedData ==> buffer.data == old(buffer.data) && frames == old(frames)
      ensures status == Ready ==>
                && CutFrame(parses, old(buffer.data)) == Whole(|message|, false)
                && message + buffer.data == old(buffer.data)
                && frames == old(frames) + [message]
                && stage == FixedHeaderStage
      ensures status != Failed ==> Watching(buffer.data)
    {
      hide HeaderAt, HasMagic, AcceptsHeader, CutFrame, RawEnd;
      ghost var b := buffer.data;
      message := [];
      while stage != DoneStage
        invariant stage != DoneStage ==> Watching(buffer.data) && buffer.data == b && frames == old(frames)
        invariant stage == DoneStage ==>
                    && CutFrame(parses, b) == Whole(|message|, false)
                    && message + buffer.data == b
                    && IsFrame(message)
                    && (forall f | f in old(frames) :: IsFrame(f))
                    && frames == old(frames) + [message]
                    && calls == AllCallbacks(old(frames)) + FrameCallbacks(message)
        decreases Rank(stage)
      {
        var next;
        next, message := HandleState(buffer);
        if next == Throw {
          return Failed, message;
        }
        if next.stage == WaitForDataStage {
          return NeedData, message;
        }
        stage := next.stage;
      }
      assert frames[..|frames| - 1] == old(frames);
      Reset();
      status := Ready;
    }

    method Reset()
      modifies this`stage, this`totalSize, this`protocolHeaderSize
      ensures stage == FixedHeaderStage
    {
      stage := FixedHeaderStage;
      totalSize := 0;
      protocolHeaderSize := 0;
    }
  }
}
